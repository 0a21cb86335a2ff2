/** The login handlers over both stores: password login, two-factor completion,
    refresh and logout, interleaved between their store calls. */
module AuthFlow {
  import opened Prelude
  import P = PreAuth
  import R = RefreshTokens
  import H = RefreshHistory

  const DEFAULT_REFRESH_TTL_SECS: int := 7 * 24 * 3600

  datatype Handler = Handler(n: nat)

  /** A handler between its two store calls. */
  datatype Pending =
    | CodeCheck(token: P.Token, session: P.Session)
    | LoggingOut(id: R.Id)

  /** The stores and the handlers in flight, with the history of the run: the
      store calls made, how often each pre-auth token came to a code check, how
      often each user passed a password check, and the pre-auth token behind each
      record that a two-factor login issued. */
  datatype State = State(
    preauth: P.Sessions, refresh: R.Store, pending: map<Handler, Pending>,
    preOps: P.Run, refreshOps: H.Run,
    attempts: multiset<P.Token>, checks: multiset<string>, origins: map<R.Id, P.Token>)

  datatype Step =
    | Login(userId: string, username: string, now: int, token: P.Token, signed: bool, id: R.Id, raw: R.RawToken)
    | CompleteBegin(h: Handler, token: P.Token, now: int)
    | CompleteEnd(h: Handler, known: bool, codeOk: bool, signed: bool, now: int, id: R.Id, raw: R.RawToken)
    | Refresh(raw: R.RawToken, now: int, later: int, newId: R.Id, newRaw: R.RawToken)
    | LogoutBegin(h: Handler, raw: R.RawToken, now: int)
    | LogoutEnd(h: Handler)
    | PurgePreAuth(now: int)

  ghost function WithRefresh(s: State, op: H.Op): State {
    s.(refresh := H.Apply(s.refresh, op), refreshOps := s.refreshOps + [op])
  }

  ghost function WithPreAuth(s: State, op: P.Op): State {
    s.(preauth := P.Apply(s.preauth, op), preOps := s.preOps + [op])
  }

  /** `enrolled` are the users with two-factor login on. A login step is one whose
      password was right; a wrong password touches no store. */
  ghost function Next(enrolled: iset<string>, s: State, step: Step): State {
    match step
    case Login(userId, username, now, token, signed, id, raw) =>
      var s1 := s.(checks := s.checks + multiset{userId});
      if userId in enrolled then WithPreAuth(s1, P.Issue(token, userId, username, now))
      else if !signed then s1
      else WithRefresh(s1, H.Issue(R.UserId(userId), DEFAULT_REFRESH_TTL_SECS, now, id, raw))
    case CompleteBegin(h, token, now) =>
      var s1 := WithPreAuth(s, P.Consume(token, now));
      var granted := P.Granted(s.preauth, token, now);
      if granted.None? then s1 else s1.(pending := s.pending[h := CodeCheck(token, granted.value)])
    case CompleteEnd(h, known, codeOk, signed, now, id, raw) =>
      if h !in s.pending || !s.pending[h].CodeCheck? then s else
      var p := s.pending[h];
      var s1 := s.(pending := s.pending - {h}, attempts := s.attempts + multiset{p.token});
      if !known || !codeOk || !signed then s1
      else WithRefresh(s1, H.Issue(R.UserId(p.session.userId), DEFAULT_REFRESH_TTL_SECS, now, id, raw))
           .(origins := s.origins[id := p.token])
    case Refresh(raw, now, later, newId, newRaw) =>
      WithRefresh(s, H.Rotate(raw, DEFAULT_REFRESH_TTL_SECS, now, later, newId, newRaw))
    case LogoutBegin(h, raw, now) =>
      var v := R.Verified(s.refresh, raw, now);
      if v.None? then s else s.(pending := s.pending[h := LoggingOut(v.value.0)])
    case LogoutEnd(h) =>
      if h !in s.pending || !s.pending[h].LoggingOut? then s
      else WithRefresh(s.(pending := s.pending - {h}), H.Revoke(s.pending[h].id))
    case PurgePreAuth(now) => WithPreAuth(s, P.Purge(now))
  }

  /** Generated values are new, and a handler that starts is not running yet. */
  ghost predicate Fresh(s: State, step: Step) {
    match step
    case Login(_, _, _, token, _, id, raw) =>
      token !in P.Minted(s.preOps) && id !in s.refresh && !R.Known(s.refresh, raw)
    case CompleteBegin(h, _, _) => h !in s.pending
    case CompleteEnd(_, _, _, _, _, id, raw) => id !in s.refresh && !R.Known(s.refresh, raw)
    case Refresh(_, _, _, newId, newRaw) => newId !in s.refresh && !R.Known(s.refresh, newRaw)
    case LogoutBegin(h, _, _) => h !in s.pending
    case _ => true
  }

  function Init(): State {
    State(map[], map[], map[], [], [], multiset{}, multiset{}, map[])
  }

  ghost function After(enrolled: iset<string>, run: seq<Step>): State {
    if run == [] then Init() else Next(enrolled, After(enrolled, run[..|run| - 1]), run[|run| - 1])
  }

  ghost predicate Legal(enrolled: iset<string>, run: seq<Step>) {
    run == [] ||
    (Legal(enrolled, run[..|run| - 1]) && Fresh(After(enrolled, run[..|run| - 1]), run[|run| - 1]))
  }

  /** Only generated values and the names of starting handlers are restricted. */
  lemma LegalExtends(enrolled: iset<string>, run: seq<Step>, step: Step)
    requires Legal(enrolled, run)
    requires var s := After(enrolled, run);
             match step
             case Login(_, _, _, token, _, id, raw) =>
               token !in P.Minted(s.preOps) && id !in s.refresh && !R.Known(s.refresh, raw)
             case CompleteEnd(_, _, _, _, _, id, raw) => id !in s.refresh && !R.Known(s.refresh, raw)
             case Refresh(_, _, _, newId, newRaw) => newId !in s.refresh && !R.Known(s.refresh, newRaw)
             case CompleteBegin(h, _, _) => h !in s.pending
             case LogoutBegin(h, _, _) => h !in s.pending
             case LogoutEnd(_) => true
             case PurgePreAuth(_) => true
    ensures Legal(enrolled, run + [step])
  {
    assert (run + [step])[..|run|] == run;
  }

  // ----- the stores are driven by legal runs of their own -----

  ghost predicate Driven(s: State) {
    && s.refresh == H.Exec(s.refreshOps) && H.Legal(s.refreshOps)
    && s.preauth == P.Exec(s.preOps) && P.Fresh(s.preOps)
  }

  lemma PreAuthSnoc(ops: P.Run, op: P.Op)
    ensures P.Exec(ops + [op]) == P.Apply(P.Exec(ops), op)
    ensures P.Fresh(ops + [op]) <==> P.Fresh(ops) && (op.Issue? ==> op.token !in P.Minted(ops))
  {
    assert (ops + [op])[..|ops|] == ops;
  }

  lemma UsesSnoc(ops: P.Run, op: P.Op, token: P.Token)
    ensures P.Uses(ops + [op], token) == P.Uses(ops, token) +
            (if op.Consume? && op.token == token && P.Granted(P.Exec(ops), token, op.now).Some? then 1 else 0)
  {
    assert (ops + [op])[..|ops|] == ops;
  }

  lemma DrivenRefresh(s: State, op: H.Op)
    requires Driven(s) && H.Fresh(s.refresh, op)
    ensures Driven(WithRefresh(s, op))
  {
    H.ExecSnoc(s.refreshOps, op);
  }

  lemma DrivenPreAuth(s: State, op: P.Op)
    requires Driven(s) && (op.Issue? ==> op.token !in P.Minted(s.preOps))
    ensures Driven(WithPreAuth(s, op))
  {
    PreAuthSnoc(s.preOps, op);
  }

  lemma StepKeepsDriven(enrolled: iset<string>, s: State, step: Step)
    requires Driven(s) && Fresh(s, step)
    ensures Driven(Next(enrolled, s, step))
  {
    match step
    case Login(userId, username, now, token, signed, id, raw) =>
      var s1 := s.(checks := s.checks + multiset{userId});
      DrivenPreAuth(s1, P.Issue(token, userId, username, now));
      DrivenRefresh(s1, H.Issue(R.UserId(userId), DEFAULT_REFRESH_TTL_SECS, now, id, raw));
    case CompleteBegin(h, token, now) =>
      DrivenPreAuth(s, P.Consume(token, now));
    case CompleteEnd(h, known, codeOk, signed, now, id, raw) =>
      if h in s.pending && s.pending[h].CodeCheck? {
        var p := s.pending[h];
        var s1 := s.(pending := s.pending - {h}, attempts := s.attempts + multiset{p.token});
        DrivenRefresh(s1, H.Issue(R.UserId(p.session.userId), DEFAULT_REFRESH_TTL_SECS, now, id, raw));
      }
    case Refresh(raw, now, later, newId, newRaw) =>
      DrivenRefresh(s, H.Rotate(raw, DEFAULT_REFRESH_TTL_SECS, now, later, newId, newRaw));
    case LogoutBegin(h, raw, now) =>
    case LogoutEnd(h) =>
      if h in s.pending && s.pending[h].LoggingOut? {
        DrivenRefresh(s.(pending := s.pending - {h}), H.Revoke(s.pending[h].id));
      }
    case PurgePreAuth(now) =>
      DrivenPreAuth(s, P.Purge(now));
  }

  // ----- one code attempt per pre-auth token -----

  type InFlight = map<Handler, Pending>

  ghost function Checking(pending: InFlight, token: P.Token): set<Handler> {
    set h | h in pending && pending[h].CodeCheck? && pending[h].token == token
  }

  /** A token that was consumed is being checked or was checked, once. */
  ghost predicate Accounted(pending: InFlight, attempts: multiset<P.Token>, ops: P.Run, token: P.Token) {
    attempts[token] + |Checking(pending, token)| == P.Uses(ops, token)
  }

  lemma CheckingAdd(pending: InFlight, h: Handler, p: Pending, token: P.Token)
    requires h !in pending
    ensures |Checking(pending[h := p], token)|
            == |Checking(pending, token)| + (if p.CodeCheck? && p.token == token then 1 else 0)
  {
    if p.CodeCheck? && p.token == token {
      assert Checking(pending[h := p], token) == Checking(pending, token) + {h};
    } else {
      assert Checking(pending[h := p], token) == Checking(pending, token);
    }
  }

  lemma CheckingRemove(pending: InFlight, h: Handler, token: P.Token)
    requires h in pending
    ensures |Checking(pending, token)|
            == |Checking(pending - {h}, token)| + (if pending[h].CodeCheck? && pending[h].token == token then 1 else 0)
  {
    if pending[h].CodeCheck? && pending[h].token == token {
      assert Checking(pending, token) == Checking(pending - {h}, token) + {h};
    } else {
      assert Checking(pending, token) == Checking(pending - {h}, token);
    }
  }

  /** How one step moves the handlers and the counts. */
  lemma StepShape(enrolled: iset<string>, s: State, step: Step)
    ensures var s' := Next(enrolled, s, step);
      match step
      case Login(_, _, _, token, _, _, _) =>
        && s'.pending == s.pending && s'.attempts == s.attempts
        && (s'.preOps == s.preOps || s'.preOps == s.preOps + [P.Issue(token, step.userId, step.username, step.now)])
      case CompleteBegin(h, token, now) =>
        && s'.preOps == s.preOps + [P.Consume(token, now)] && s'.attempts == s.attempts
        && s'.pending == (match P.Granted(s.preauth, token, now)
                          case None => s.pending
                          case Some(session) => s.pending[h := CodeCheck(token, session)])
      case CompleteEnd(h, _, _, _, _, _, _) =>
        && s'.preOps == s.preOps
        && if h in s.pending && s.pending[h].CodeCheck?
           then s'.pending == s.pending - {h} && s'.attempts == s.attempts + multiset{s.pending[h].token}
           else s' == s
      case Refresh(_, _, _, _, _) =>
        s'.pending == s.pending && s'.attempts == s.attempts && s'.preOps == s.preOps
      case LogoutBegin(h, _, _) =>
        && s'.attempts == s.attempts && s'.preOps == s.preOps
        && (s'.pending == s.pending || exists id :: s'.pending == s.pending[h := LoggingOut(id)])
      case LogoutEnd(h) =>
        && s'.attempts == s.attempts && s'.preOps == s.preOps
        && (s'.pending == s.pending || (h in s.pending && s.pending[h].LoggingOut? && s'.pending == s.pending - {h}))
      case PurgePreAuth(now) =>
        s'.pending == s.pending && s'.attempts == s.attempts && s'.preOps == s.preOps + [P.Purge(now)]
  {
  }

  lemma StepKeepsAccounted(enrolled: iset<string>, s: State, s': State, step: Step, token: P.Token)
    requires Driven(s) && Fresh(s, step) && s' == Next(enrolled, s, step)
    requires Accounted(s.pending, s.attempts, s.preOps, token)
    ensures Accounted(s'.pending, s'.attempts, s'.preOps, token)
  {
    StepShape(enrolled, s, step);
    match step
    case Login(userId, username, now, t, _, _, _) =>
      UsesSnoc(s.preOps, P.Issue(t, userId, username, now), token);
    case CompleteBegin(h, t, now) =>
      UsesSnoc(s.preOps, P.Consume(t, now), token);
      if P.Granted(s.preauth, t, now).Some? {
        CheckingAdd(s.pending, h, CodeCheck(t, P.Granted(s.preauth, t, now).value), token);
      }
    case CompleteEnd(h, _, _, _, _, _, _) =>
      if h in s.pending && s.pending[h].CodeCheck? {
        CheckingRemove(s.pending, h, token);
      }
    case Refresh(_, _, _, _, _) =>
    case LogoutBegin(h, raw, now) =>
      if s'.pending != s.pending {
        CheckingAdd(s.pending, h, s'.pending[h], token);
      }
    case LogoutEnd(h) =>
      if s'.pending != s.pending {
        CheckingRemove(s.pending, h, token);
      }
    case PurgePreAuth(now) =>
      UsesSnoc(s.preOps, P.Purge(now), token);
  }

  /** In every run a pre-auth token comes to at most one code check, right or wrong. */
  lemma {:induction false} OneAttemptPerToken(enrolled: iset<string>, run: seq<Step>, token: P.Token)
    requires Legal(enrolled, run)
    ensures var s := After(enrolled, run);
            Driven(s) && Accounted(s.pending, s.attempts, s.preOps, token) && s.attempts[token] <= 1
    ensures CodeChecks(enrolled, run, token) <= 1
  {
    AttemptsAreCodeChecks(enrolled, run, token);
    if run != [] {
      var s := After(enrolled, run[..|run| - 1]);
      OneAttemptPerToken(enrolled, run[..|run| - 1], token);
      StepKeepsDriven(enrolled, s, run[|run| - 1]);
      StepKeepsAccounted(enrolled, s, After(enrolled, run), run[|run| - 1], token);
    }
    P.ConsumedAtMostOnce(After(enrolled, run).preOps, token);
  }

  // ----- where chains come from -----

  ghost predicate Injective(origins: map<R.Id, P.Token>) {
    forall a, b | a in origins && b in origins && origins[a] == origins[b] :: a == b
  }

  ghost predicate Covered(enrolled: iset<string>, ops: H.Run, origins: map<R.Id, P.Token>) {
    forall k | 0 <= k < |ops| && ops[k].Issue? && ops[k].userId.name in enrolled :: ops[k].id in origins
  }

  /** Every record issued to an enrolled user has its own pre-auth token, which was checked. */
  ghost predicate Traced(enrolled: iset<string>, s: State) {
    && Covered(enrolled, s.refreshOps, s.origins)
    && s.origins.Keys <= s.refresh.Keys
    && Injective(s.origins)
    && forall id | id in s.origins :: s.attempts[s.origins[id]] >= 1
  }

  ghost predicate Finishes(s: State, step: Step) {
    && step.CompleteEnd? && step.h in s.pending && s.pending[step.h].CodeCheck?
    && step.known && step.codeOk && step.signed
  }

  /** The refresh-store call a step makes, other than finishing a two-factor login. */
  ghost function OtherOp(enrolled: iset<string>, s: State, step: Step): Option<H.Op> {
    match step
    case Login(userId, _, now, _, signed, id, raw) =>
      if userId in enrolled || !signed then None
      else Some(H.Issue(R.UserId(userId), DEFAULT_REFRESH_TTL_SECS, now, id, raw))
    case Refresh(raw, now, later, newId, newRaw) =>
      Some(H.Rotate(raw, DEFAULT_REFRESH_TTL_SECS, now, later, newId, newRaw))
    case LogoutEnd(h) =>
      if h in s.pending && s.pending[h].LoggingOut? then Some(H.Revoke(s.pending[h].id)) else None
    case _ => None
  }

  /** Only a finished two-factor login records an origin; nothing else issues to an enrolled user. */
  lemma OriginShape(enrolled: iset<string>, s: State, s': State, step: Step)
    requires s' == Next(enrolled, s, step) && !Finishes(s, step)
    ensures s'.origins == s.origins
    ensures match OtherOp(enrolled, s, step)
            case None => s'.refreshOps == s.refreshOps && s'.refresh == s.refresh
            case Some(op) => s'.refreshOps == s.refreshOps + [op] && s'.refresh == H.Apply(s.refresh, op)
  {
  }

  lemma AttemptsGrow(enrolled: iset<string>, s: State, step: Step, t: P.Token)
    ensures s.attempts[t] <= Next(enrolled, s, step).attempts[t]
  {
  }

  lemma FinishShape(enrolled: iset<string>, s: State, s': State, step: Step)
    requires s' == Next(enrolled, s, step) && Finishes(s, step)
    ensures var p := s.pending[step.h];
            && s'.origins == s.origins[step.id := p.token]
            && s'.attempts == s.attempts + multiset{p.token}
            && s'.refresh == R.Minted(s.refresh, R.UserId(p.session.userId),
                                      DEFAULT_REFRESH_TTL_SECS, step.now, step.id, step.raw)
            && s'.refreshOps == s.refreshOps
               + [H.Issue(R.UserId(p.session.userId), DEFAULT_REFRESH_TTL_SECS, step.now, step.id, step.raw)]
  {
  }

  lemma ApplyKeepsKeys(m: R.Store, op: H.Op)
    ensures m.Keys <= H.Apply(m, op).Keys
  {
  }

  lemma FinishKeepsTraced(enrolled: iset<string>, s: State, s': State, step: Step)
    requires s' == Next(enrolled, s, step) && Finishes(s, step)
    requires Traced(enrolled, s) && step.id !in s.refresh && s.attempts[s.pending[step.h].token] == 0
    ensures Traced(enrolled, s')
  {
    FinishShape(enrolled, s, s', step);
  }

  lemma OtherKeepsTraced(enrolled: iset<string>, s: State, s': State, step: Step)
    requires s' == Next(enrolled, s, step) && !Finishes(s, step) && Traced(enrolled, s)
    ensures Traced(enrolled, s')
  {
    OriginShape(enrolled, s, s', step);
    var op := OtherOp(enrolled, s, step);
    if op.Some? {
      ApplyKeepsKeys(s.refresh, op.value);
    }
    forall id | id in s.origins
      ensures s'.attempts[s.origins[id]] >= 1
    {
      AttemptsGrow(enrolled, s, step, s.origins[id]);
    }
  }

  lemma {:induction false} OriginsOfEveryRun(enrolled: iset<string>, run: seq<Step>)
    requires Legal(enrolled, run)
    ensures var s := After(enrolled, run);
            && Traced(enrolled, s) && OriginsOwned(s.origins, s.refresh, P.Owners(s.preOps))
            && forall id | id in s.origins :: Finished(enrolled, run, id, s.origins[id])
  {
    OriginsAreOwned(enrolled, run);
    if run != [] {
      var n := |run| - 1;
      var s, s', step := After(enrolled, run[..n]), After(enrolled, run), run[n];
      OriginsOfEveryRun(enrolled, run[..n]);
      if Finishes(s, step) {
        var token := s.pending[step.h].token;
        OneAttemptPerToken(enrolled, run[..n], token);
        P.ConsumedAtMostOnce(s.preOps, token);
        assert step.h in Checking(s.pending, token);
        FinishKeepsTraced(enrolled, s, s', step);
      } else {
        OtherKeepsTraced(enrolled, s, s', step);
      }
    }
  }

  // ----- whose login it was, and that it passed -----

  /** Some step of the run finished a two-factor login: the user was known, the code
      was right, and record `id` was issued for the session of `token`. */
  ghost predicate Finished(enrolled: iset<string>, run: seq<Step>, id: R.Id, token: P.Token) {
    run != [] &&
    var s, step := After(enrolled, run[..|run| - 1]), run[|run| - 1];
    || Finished(enrolled, run[..|run| - 1], id, token)
    || (Finishes(s, step) && step.id == id && s.pending[step.h].token == token)
  }

  /** A code check in flight is for a token issued to the user of its session. */
  ghost predicate ChecksOwned(pending: InFlight, owners: set<(P.Token, string)>) {
    forall h | h in pending && pending[h].CodeCheck? :: (pending[h].token, pending[h].session.userId) in owners
  }

  /** A pre-auth token behind a record was issued to the record's user. */
  ghost predicate OriginsOwned(origins: map<R.Id, P.Token>, refresh: R.Store, owners: set<(P.Token, string)>) {
    forall id | id in origins :: id in refresh && (origins[id], refresh[id].userId.name) in owners
  }

  lemma OwnersSnoc(ops: P.Run, op: P.Op)
    ensures P.Owners(ops + [op]) == P.Owners(ops) + (if op.Issue? then {(op.token, op.userId)} else {})
  {
    assert (ops + [op])[..|ops|] == ops;
  }

  lemma OwnersGrow(enrolled: iset<string>, s: State, step: Step)
    ensures P.Owners(s.preOps) <= P.Owners(Next(enrolled, s, step).preOps)
  {
    StepShape(enrolled, s, step);
    match step
    case Login(userId, username, now, token, _, _, _) => OwnersSnoc(s.preOps, P.Issue(token, userId, username, now));
    case CompleteBegin(_, token, now) => OwnersSnoc(s.preOps, P.Consume(token, now));
    case PurgePreAuth(now) => OwnersSnoc(s.preOps, P.Purge(now));
    case _ =>
  }

  lemma StepKeepsChecksOwned(enrolled: iset<string>, s: State, s': State, step: Step)
    requires Driven(s) && s' == Next(enrolled, s, step) && ChecksOwned(s.pending, P.Owners(s.preOps))
    ensures ChecksOwned(s'.pending, P.Owners(s'.preOps))
  {
    StepShape(enrolled, s, step);
    OwnersGrow(enrolled, s, step);
    P.StoredIsOwned(s.preOps);
  }

  lemma FinishKeepsOrigins(s: State, s': State, step: Step)
    requires Finishes(s, step) && s'.origins == s.origins[step.id := s.pending[step.h].token]
    requires s'.refresh == R.Minted(s.refresh, R.UserId(s.pending[step.h].session.userId),
                                    DEFAULT_REFRESH_TTL_SECS, step.now, step.id, step.raw)
    requires P.Owners(s.preOps) <= P.Owners(s'.preOps)
    requires ChecksOwned(s.pending, P.Owners(s.preOps)) && OriginsOwned(s.origins, s.refresh, P.Owners(s.preOps))
    requires step.id !in s.refresh
    ensures OriginsOwned(s'.origins, s'.refresh, P.Owners(s'.preOps))
  {
  }

  lemma OtherKeepsOrigins(enrolled: iset<string>, s: State, s': State, step: Step)
    requires Driven(s) && Fresh(s, step) && s' == Next(enrolled, s, step) && !Finishes(s, step)
    requires OriginsOwned(s.origins, s.refresh, P.Owners(s.preOps))
    ensures OriginsOwned(s'.origins, s'.refresh, P.Owners(s'.preOps))
  {
    OriginShape(enrolled, s, s', step);
    OwnersGrow(enrolled, s, step);
    var op := OtherOp(enrolled, s, step);
    if op.Some? {
      H.RunKeepsWellFormed(s.refreshOps);
      H.ApplyKeeps(s.refresh, op.value);
    }
  }

  /** In every run the pre-auth token behind a record was issued to that record's user,
      and a step of the run accepted a right code for it. */
  lemma {:induction false} OriginsAreOwned(enrolled: iset<string>, run: seq<Step>)
    requires Legal(enrolled, run)
    ensures var s := After(enrolled, run);
            && ChecksOwned(s.pending, P.Owners(s.preOps))
            && OriginsOwned(s.origins, s.refresh, P.Owners(s.preOps))
            && forall id | id in s.origins :: Finished(enrolled, run, id, s.origins[id])
  {
    if run != [] {
      var n := |run| - 1;
      var s, s', step := After(enrolled, run[..n]), After(enrolled, run), run[n];
      OriginsAreOwned(enrolled, run[..n]);
      OneAttemptPerToken(enrolled, run[..n], P.Token(""));
      StepKeepsChecksOwned(enrolled, s, s', step);
      if Finishes(s, step) {
        FinishShape(enrolled, s, s', step);
        OwnersGrow(enrolled, s, step);
        FinishKeepsOrigins(s, s', step);
      } else {
        OriginShape(enrolled, s, s', step);
        OtherKeepsOrigins(enrolled, s, s', step);
      }
    }
  }

  ghost function RootOf(s: State, id: R.Id): R.Id
    requires id in H.LayoutOf(s.refreshOps) && H.LayoutOf(s.refreshOps)[id].chain < |H.Roots(s.refreshOps)|
  {
    H.Roots(s.refreshOps)[H.LayoutOf(s.refreshOps)[id].chain]
  }

  /** In every run the chain of every record of a two-factor user starts at a
      record with a pre-auth token of its own: issued to that same user, consumed
      once, brought to one code check, which passed, and behind no other record. */
  lemma ChainsStartAtPreAuth(enrolled: iset<string>, run: seq<Step>, id: R.Id)
    requires Legal(enrolled, run)
    requires var s := After(enrolled, run); id in s.refresh && s.refresh[id].userId.name in enrolled
    ensures var s := After(enrolled, run);
            && id in H.LayoutOf(s.refreshOps) && H.LayoutOf(s.refreshOps)[id].chain < |H.Roots(s.refreshOps)|
            && RootOf(s, id) in s.origins && Injective(s.origins)
            && P.Uses(s.preOps, s.origins[RootOf(s, id)]) == 1
            && s.attempts[s.origins[RootOf(s, id)]] == 1
            && (s.origins[RootOf(s, id)], s.refresh[id].userId.name) in P.Owners(s.preOps)
            && Finished(enrolled, run, RootOf(s, id), s.origins[RootOf(s, id)])
  {
    var s := After(enrolled, run);
    RootIsTraced(enrolled, run, id);
    var token := s.origins[RootOf(s, id)];
    OriginsOfEveryRun(enrolled, run);
    OneAttemptPerToken(enrolled, run, token);
    P.ConsumedAtMostOnce(s.preOps, token);
    RootOwner(s.refreshOps, id);
    OriginsAreOwned(enrolled, run);
  }

  lemma RootIsTraced(enrolled: iset<string>, run: seq<Step>, id: R.Id)
    requires Legal(enrolled, run)
    requires var s := After(enrolled, run); id in s.refresh && s.refresh[id].userId.name in enrolled
    ensures var s := After(enrolled, run);
            && id in H.LayoutOf(s.refreshOps) && H.LayoutOf(s.refreshOps)[id].chain < |H.Roots(s.refreshOps)|
            && RootOf(s, id) in s.origins
  {
    var s := After(enrolled, run);
    OriginsOfEveryRun(enrolled, run);
    OneAttemptPerToken(enrolled, run, P.Token(""));
    RootOwner(s.refreshOps, id);
    var c := H.LayoutOf(s.refreshOps)[id].chain;
    var k := H.RootIsIssued(s.refreshOps, c);
    H.IssuedOwner(s.refreshOps, k);
  }

  lemma RootOwner(ops: H.Run, id: R.Id)
    requires H.Legal(ops) && id in H.Exec(ops)
    ensures id in H.LayoutOf(ops) && H.LayoutOf(ops)[id].chain < |H.Roots(ops)|
    ensures var root := H.Roots(ops)[H.LayoutOf(ops)[id].chain];
            root in H.Exec(ops) && H.Exec(ops)[root].userId == H.Exec(ops)[id].userId
  {
    H.ChainsOfEveryRun(ops);
    var layout, roots := H.LayoutOf(ops), H.Roots(ops);
    assert H.InSlot(layout, roots[layout[id].chain], H.Slot(layout[id].chain, 0));
  }

  // ----- unrevoked records and password checks -----

  ghost function CheckingFor(pending: InFlight, user: string): set<Handler> {
    set h | h in pending && pending[h].CodeCheck? && pending[h].session.userId == user
  }

  ghost function WaitingFor(sessions: P.Sessions, user: string): set<P.Token> {
    set t | t in sessions && sessions[t].userId == user
  }

  /** Every password check of a two-factor user is, at most once, a stored
      session, a code check in flight or an issued record. */
  ghost predicate Paid(s: State, user: string) {
    H.IssuesTo(s.refreshOps, iset{R.UserId(user)}) + |CheckingFor(s.pending, user)| + |WaitingFor(s.preauth, user)|
    <= s.checks[user]
  }

  lemma CheckingForAdd(pending: InFlight, h: Handler, p: Pending, user: string)
    requires h !in pending
    ensures |CheckingFor(pending[h := p], user)|
            == |CheckingFor(pending, user)| + (if p.CodeCheck? && p.session.userId == user then 1 else 0)
  {
    if p.CodeCheck? && p.session.userId == user {
      assert CheckingFor(pending[h := p], user) == CheckingFor(pending, user) + {h};
    } else {
      assert CheckingFor(pending[h := p], user) == CheckingFor(pending, user);
    }
  }

  lemma CheckingForRemove(pending: InFlight, h: Handler, user: string)
    requires h in pending
    ensures |CheckingFor(pending, user)| == |CheckingFor(pending - {h}, user)|
            + (if pending[h].CodeCheck? && pending[h].session.userId == user then 1 else 0)
  {
    if pending[h].CodeCheck? && pending[h].session.userId == user {
      assert CheckingFor(pending, user) == CheckingFor(pending - {h}, user) + {h};
    } else {
      assert CheckingFor(pending, user) == CheckingFor(pending - {h}, user);
    }
  }

  lemma WaitingForIssue(m: P.Sessions, token: P.Token, userId: string, username: string, now: int, user: string)
    ensures |WaitingFor(P.Issued(m, token, userId, username, now), user)|
            <= |WaitingFor(m, user)| + (if userId == user then 1 else 0)
  {
    var before, after := WaitingFor(m, user), WaitingFor(P.Issued(m, token, userId, username, now), user);
    if userId == user {
      assert after == before + {token};
    } else {
      assert after == before - {token};
    }
  }

  lemma WaitingForConsume(m: P.Sessions, token: P.Token, user: string)
    ensures |WaitingFor(m, user)|
            == |WaitingFor(m - {token}, user)| + (if token in m && m[token].userId == user then 1 else 0)
  {
    if token in m && m[token].userId == user {
      assert WaitingFor(m, user) == WaitingFor(m - {token}, user) + {token};
    } else {
      assert WaitingFor(m, user) == WaitingFor(m - {token}, user);
    }
  }

  lemma WaitingForPurge(m: P.Sessions, now: int, user: string)
    ensures |WaitingFor(P.Purged(m, now), user)| <= |WaitingFor(m, user)|
  {
    SubsetSize(WaitingFor(P.Purged(m, now), user), WaitingFor(m, user));
  }

  lemma LoginKeepsPaid(enrolled: iset<string>, s: State, s': State, step: Step, user: string)
    requires s' == Next(enrolled, s, step) && step.Login? && user in enrolled && Paid(s, user)
    ensures Paid(s', user)
  {
    if step.userId in enrolled {
      WaitingForIssue(s.preauth, step.token, step.userId, step.username, step.now, user);
    } else if step.signed {
      H.IssuesSnoc(s.refreshOps,
        H.Issue(R.UserId(step.userId), DEFAULT_REFRESH_TTL_SECS, step.now, step.id, step.raw), iset{R.UserId(user)});
    }
  }

  lemma BeginKeepsPaid(enrolled: iset<string>, s: State, s': State, step: Step, user: string)
    requires s' == Next(enrolled, s, step) && step.CompleteBegin? && Fresh(s, step) && Paid(s, user)
    ensures Paid(s', user)
  {
    WaitingForConsume(s.preauth, step.token, user);
    var granted := P.Granted(s.preauth, step.token, step.now);
    if granted.Some? {
      CheckingForAdd(s.pending, step.h, CodeCheck(step.token, granted.value), user);
    }
  }

  lemma EndKeepsPaid(enrolled: iset<string>, s: State, s': State, step: Step, user: string)
    requires s' == Next(enrolled, s, step) && step.CompleteEnd? && Paid(s, user)
    ensures Paid(s', user)
  {
    if step.h in s.pending && s.pending[step.h].CodeCheck? {
      var p := s.pending[step.h];
      CheckingForRemove(s.pending, step.h, user);
      H.IssuesSnoc(s.refreshOps,
        H.Issue(R.UserId(p.session.userId), DEFAULT_REFRESH_TTL_SECS, step.now, step.id, step.raw),
        iset{R.UserId(user)});
    }
  }

  lemma RestKeepsPaid(enrolled: iset<string>, s: State, s': State, step: Step, user: string)
    requires s' == Next(enrolled, s, step) && Fresh(s, step) && Paid(s, user)
    requires step.Refresh? || step.LogoutBegin? || step.LogoutEnd? || step.PurgePreAuth?
    ensures Paid(s', user)
  {
    var op := OtherOp(enrolled, s, step);
    OriginShape(enrolled, s, s', step);
    if op.Some? {
      H.IssuesSnoc(s.refreshOps, op.value, iset{R.UserId(user)});
    }
    match step
    case LogoutBegin(h, raw, now) =>
      if s'.pending != s.pending {
        CheckingForAdd(s.pending, h, s'.pending[h], user);
      }
    case LogoutEnd(h) =>
      if s'.pending != s.pending {
        CheckingForRemove(s.pending, h, user);
      }
    case PurgePreAuth(now) =>
      WaitingForPurge(s.preauth, now, user);
    case _ =>
  }

  lemma {:induction false} EveryLoginIsPaid(enrolled: iset<string>, run: seq<Step>, user: string)
    requires Legal(enrolled, run) && user in enrolled
    ensures Paid(After(enrolled, run), user)
  {
    if run != [] {
      var s, s', step := After(enrolled, run[..|run| - 1]), After(enrolled, run), run[|run| - 1];
      EveryLoginIsPaid(enrolled, run[..|run| - 1], user);
      match step
      case Login(_, _, _, _, _, _, _) => LoginKeepsPaid(enrolled, s, s', step, user);
      case CompleteBegin(_, _, _) => BeginKeepsPaid(enrolled, s, s', step, user);
      case CompleteEnd(_, _, _, _, _, _, _) => EndKeepsPaid(enrolled, s, s', step, user);
      case _ => RestKeepsPaid(enrolled, s, s', step, user);
    }
  }

  /** How many steps of the run are logins of this user, that is, passed password checks. */
  ghost function PasswordChecks(run: seq<Step>, user: string): nat {
    if run == [] then 0 else
    var last := run[|run| - 1];
    PasswordChecks(run[..|run| - 1], user) + (if last.Login? && last.userId == user then 1 else 0)
  }

  ghost function Logins(run: seq<Step>, user: string): set<nat> {
    set k: nat | k < |run| && run[k].Login? && run[k].userId == user
  }

  lemma {:induction false} PasswordChecksAreLogins(run: seq<Step>, user: string)
    ensures PasswordChecks(run, user) == |Logins(run, user)|
  {
    if run == [] {
      assert Logins(run, user) == {};
    } else {
      var n := |run| - 1;
      PasswordChecksAreLogins(run[..n], user);
      if run[n].Login? && run[n].userId == user {
        assert Logins(run, user) == Logins(run[..n], user) + {n};
      } else {
        assert Logins(run, user) == Logins(run[..n], user);
      }
    }
  }

  lemma ChecksStep(enrolled: iset<string>, s: State, step: Step, user: string)
    ensures Next(enrolled, s, step).checks[user] ==
            s.checks[user] + (if step.Login? && step.userId == user then 1 else 0)
  {
  }

  lemma {:induction false} ChecksAreLogins(enrolled: iset<string>, run: seq<Step>, user: string)
    ensures After(enrolled, run).checks[user] == PasswordChecks(run, user)
  {
    if run != [] {
      ChecksAreLogins(enrolled, run[..|run| - 1], user);
      ChecksStep(enrolled, After(enrolled, run[..|run| - 1]), run[|run| - 1], user);
    }
  }

  /** How many steps of the run finish a code check, right or wrong, for this token. */
  ghost function CodeChecks(enrolled: iset<string>, run: seq<Step>, token: P.Token): nat {
    if run == [] then 0 else
    var before, last := run[..|run| - 1], run[|run| - 1];
    var pending := After(enrolled, before).pending;
    CodeChecks(enrolled, before, token)
    + (if last.CompleteEnd? && last.h in pending && pending[last.h].CodeCheck? && pending[last.h].token == token
       then 1 else 0)
  }

  lemma {:induction false} AttemptsAreCodeChecks(enrolled: iset<string>, run: seq<Step>, token: P.Token)
    ensures After(enrolled, run).attempts[token] == CodeChecks(enrolled, run, token)
  {
    if run != [] {
      AttemptsAreCodeChecks(enrolled, run[..|run| - 1], token);
      StepShape(enrolled, After(enrolled, run[..|run| - 1]), run[|run| - 1]);
    }
  }

  /** In every run a two-factor user never holds more unrevoked refresh tokens
      than the password checks passed in that user's name. */
  lemma LiveBoundedByPasswordChecks(enrolled: iset<string>, run: seq<Step>, user: string)
    requires Legal(enrolled, run) && user in enrolled
    ensures var m := After(enrolled, run).refresh;
            |set id | id in m && m[id].userId.name == user && !m[id].revoked| <= |Logins(run, user)|
  {
    var s := After(enrolled, run);
    ChecksAreLogins(enrolled, run, user);
    PasswordChecksAreLogins(run, user);
    assert (set id | id in s.refresh && s.refresh[id].userId.name == user && !s.refresh[id].revoked)
        == R.LiveOf(s.refresh, R.UserId(user));
    EveryLoginIsPaid(enrolled, run, user);
    OneAttemptPerToken(enrolled, run, P.Token(""));
    H.LiveBoundedByIssues(s.refreshOps, iset{R.UserId(user)});
    assert R.LiveOf(s.refresh, R.UserId(user)) == H.LiveAmong(s.refresh, iset{R.UserId(user)});
  }
}
