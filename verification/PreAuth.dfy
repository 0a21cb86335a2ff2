/** The store of pending two-factor logins: single use, and why purging it is invisible. */
module PreAuth {
  import opened Prelude

  const PREAUTH_TTL_SECS: int := 300

  datatype Token = Token(hex: string)
  datatype Session = Session(userId: string, username: string, expiresAt: int, consumed: bool)

  type Sessions = map<Token, Session>

  // ----- the operations on the stored map -----

  function Issued(m: Sessions, token: Token, userId: string, username: string, now: int): Sessions {
    m[token := Session(userId, username, now + PREAUTH_TTL_SECS, false)]
  }

  /** What a call of `consume` hands out: the session, marked consumed. */
  function Granted(m: Sessions, token: Token, now: int): Option<Session> {
    if token !in m || m[token].expiresAt < now || m[token].consumed then None
    else Some(m[token].(consumed := true))
  }

  function Purged(m: Sessions, now: int): Sessions {
    map t | t in m && m[t].expiresAt >= now && !m[t].consumed :: m[t]
  }

  class PreAuthStore {
    var sessions: Sessions

    constructor ()
      ensures sessions == map[]
    {
      sessions := map[];
    }

    method Issue(token: Token, userId: string, username: string, now: int)
      modifies this
      ensures sessions == Issued(old(sessions), token, userId, username, now)
    {
      var session := Session(userId, username, now + PREAUTH_TTL_SECS, false);
      sessions := sessions[token := session];
    }

    method Consume(token: Token, now: int) returns (r: Option<Session>)
      modifies this
      ensures r == Granted(old(sessions), token, now)
      ensures sessions == old(sessions) - {token}
    {
      if token !in sessions {
        return None;
      }
      var session := sessions[token];
      if session.expiresAt < now || session.consumed {
        sessions := sessions - {token};
        return None;
      }
      sessions := sessions[token := sessions[token].(consumed := true)];
      session := sessions[token];
      sessions := sessions - {token};
      return Some(session);
    }

    /** What the count says about the run that led here: the sessions issued, less
        those that went into a login and those thrown away dead. */
    method Count(ghost run: Run) returns (n: nat)
      requires Fresh(run) && sessions == Exec(run)
      ensures n == Issues(run) - Logins(run) - Losses(run)
    {
      SessionsConserved(run);
      n := |sessions|;
    }

    method PurgeExpired(now: int) returns (removed: nat)
      modifies this
      ensures sessions == Purged(old(sessions), now)
      ensures removed == |old(sessions)| - |sessions|
    {
      var before := |sessions|;
      var todo := sessions.Keys;
      while todo != {}
        invariant todo <= sessions.Keys <= old(sessions).Keys
        invariant forall t | t in sessions :: sessions[t] == old(sessions)[t]
        invariant forall t | t in old(sessions) && t !in todo ::
          t in sessions <==> old(sessions)[t].expiresAt >= now && !old(sessions)[t].consumed
      {
        var t :| t in todo;
        if !(sessions[t].expiresAt >= now && !sessions[t].consumed) {
          sessions := sessions - {t};
        }
        todo := todo - {t};
      }
      assert sessions == Purged(old(sessions), now);
      SubsetSize(sessions.Keys, old(sessions).Keys);
      removed := before - |sessions|;
    }
  }

  // ----- runs -----

  datatype Op =
    | Issue(token: Token, userId: string, username: string, now: int)
    | Consume(token: Token, now: int)
    | Purge(now: int)

  type Run = seq<Op>

  function Apply(m: Sessions, op: Op): Sessions {
    match op
    case Issue(token, userId, username, now) => Issued(m, token, userId, username, now)
    case Consume(token, _) => m - {token}
    case Purge(now) => Purged(m, now)
  }

  ghost function Exec(run: Run): Sessions {
    if run == [] then map[] else Apply(Exec(run[..|run| - 1]), run[|run| - 1])
  }

  ghost function Minted(run: Run): set<Token> {
    if run == [] then {} else
    Minted(run[..|run| - 1]) + (if run[|run| - 1].Issue? then {run[|run| - 1].token} else {})
  }

  /** The tokens generated, each with the user it was issued to. */
  ghost function Owners(run: Run): set<(Token, string)> {
    if run == [] then {} else
    Owners(run[..|run| - 1]) + (if run[|run| - 1].Issue? then {(run[|run| - 1].token, run[|run| - 1].userId)} else {})
  }

  lemma {:induction false} StoredIsOwned(run: Run)
    ensures forall t | t in Exec(run) :: (t, Exec(run)[t].userId) in Owners(run)
  {
    if run != [] {
      StoredIsOwned(run[..|run| - 1]);
    }
  }

  /** No token is generated twice. */
  ghost predicate Fresh(run: Run) {
    run == [] ||
    (Fresh(run[..|run| - 1]) && (run[|run| - 1].Issue? ==> run[|run| - 1].token !in Minted(run[..|run| - 1])))
  }

  /** How many calls of `consume` with this token have succeeded. */
  ghost function Uses(run: Run, token: Token): nat {
    if run == [] then 0 else
    var n := |run| - 1;
    Uses(run[..n], token)
    + (if run[n].Consume? && run[n].token == token && Granted(Exec(run[..n]), token, run[n].now).Some? then 1 else 0)
  }

  /** In every run a token is consumed successfully at most once, never before it
      was issued and never while it is still stored, and no stored session is
      marked consumed. */
  lemma {:induction false} ConsumedAtMostOnce(run: Run, token: Token)
    requires Fresh(run)
    ensures Uses(run, token) + (if token in Exec(run) then 1 else 0) <= (if token in Minted(run) then 1 else 0)
    ensures forall t | t in Exec(run) :: !Exec(run)[t].consumed
  {
    if run != [] {
      ConsumedAtMostOnce(run[..|run| - 1], token);
    }
  }

  // ----- purging -----

  /** The answers of the calls of `consume`, in order. */
  ghost function Answers(run: Run): seq<Option<Session>> {
    if run == [] then [] else
    var n := |run| - 1;
    Answers(run[..n]) + (if run[n].Consume? then [Granted(Exec(run[..n]), run[n].token, run[n].now)] else [])
  }

  ghost function Unpurged(run: Run): Run {
    if run == [] then [] else
    Unpurged(run[..|run| - 1]) + (if run[|run| - 1].Purge? then [] else [run[|run| - 1]])
  }

  /** A session is found to have expired by the time a purge of the run read. */
  ghost predicate SweptBy(run: Run, expiresAt: int) {
    exists i | 0 <= i < |run| :: run[i].Purge? && expiresAt < run[i].now
  }

  /** No purge carries a later time than a call of `consume` that the lock lets in
      after it. A nondecreasing clock gives this: a purge reads the clock before it
      waits for the lock, `consume` while it holds it. The times of `issue` and the
      order of the purges among themselves are arbitrary. */
  ghost predicate PurgesComeEarlier(run: Run) {
    forall i, j | 0 <= i < j < |run| && run[i].Purge? && run[j].Consume? :: run[i].now <= run[j].now
  }

  /** A purged store is the unpurged one without some sessions that are consumed or
      had expired by the time of a purge. */
  ghost predicate Refines(purged: Sessions, full: Sessions, run: Run) {
    && (forall t | t in purged :: t in full && full[t] == purged[t])
    && (forall t | t in full && t !in purged :: full[t].consumed || SweptBy(run, full[t].expiresAt))
  }

  lemma SweptStays(run: Run, op: Op, expiresAt: int)
    requires SweptBy(run, expiresAt) || (op.Purge? && expiresAt < op.now)
    ensures SweptBy(run + [op], expiresAt)
  {
    if SweptBy(run, expiresAt) {
      var i :| 0 <= i < |run| && run[i].Purge? && expiresAt < run[i].now;
      assert (run + [op])[i] == run[i];
    } else {
      assert (run + [op])[|run|] == op;
    }
  }

  lemma RefinesStep(purged: Sessions, full: Sessions, run: Run, op: Op)
    requires Refines(purged, full, run)
    ensures Refines(Apply(purged, op), if op.Purge? then full else Apply(full, op), run + [op])
  {
    var full' := if op.Purge? then full else Apply(full, op);
    forall t | t in full' && t !in Apply(purged, op)
      ensures full'[t].consumed || SweptBy(run + [op], full'[t].expiresAt)
    {
      if !full'[t].consumed {
        SweptStays(run, op, full'[t].expiresAt);
      }
    }
  }

  /** `consume` answers alike from both stores, since what is missing from the
      purged one was dead already. */
  lemma RefinesAnswer(purged: Sessions, full: Sessions, run: Run, token: Token, now: int)
    requires Refines(purged, full, run)
    requires forall i | 0 <= i < |run| && run[i].Purge? :: run[i].now <= now
    ensures Granted(purged, token, now) == Granted(full, token, now)
  {
  }

  /** Inserting purges anywhere never changes what any `consume` answers. */
  lemma {:induction false} PurgingIsInvisible(run: Run)
    requires PurgesComeEarlier(run)
    ensures Refines(Exec(run), Exec(Unpurged(run)), run)
    ensures Answers(run) == Answers(Unpurged(run))
  {
    if run != [] {
      var n := |run| - 1;
      var rest := Unpurged(run[..n]);
      assert run == run[..n] + [run[n]];
      PurgingIsInvisible(run[..n]);
      RefinesStep(Exec(run[..n]), Exec(rest), run[..n], run[n]);
      if run[n].Consume? {
        RefinesAnswer(Exec(run[..n]), Exec(rest), run[..n], run[n].token, run[n].now);
      }
      if run[n].Purge? {
        assert Unpurged(run) == rest;
      } else {
        assert (rest + [run[n]])[..|rest|] == rest;
      }
    }
  }

  // ----- how long a token is good for -----

  /** The call takes the session of this token away: a `consume`, whatever it answers,
      or a purge later than the expiry. */
  ghost predicate Removes(op: Op, token: Token, expiresAt: int) {
    match op
    case Issue(_, _, _, _) => false
    case Consume(t, _) => t == token
    case Purge(now) => now > expiresAt
  }

  ghost predicate RemovedIn(more: Run, token: Token, expiresAt: int) {
    exists i | 0 <= i < |more| :: Removes(more[i], token, expiresAt)
  }

  lemma RemovedSnoc(more: Run, op: Op, token: Token, expiresAt: int)
    ensures RemovedIn(more + [op], token, expiresAt) <==>
            RemovedIn(more, token, expiresAt) || Removes(op, token, expiresAt)
  {
    var all := more + [op];
    if RemovedIn(more, token, expiresAt) {
      var i :| 0 <= i < |more| && Removes(more[i], token, expiresAt);
      assert all[i] == more[i];
    }
    if Removes(op, token, expiresAt) {
      assert all[|more|] == op;
    }
  }

  lemma FreshPrefix(run: Run, op: Op)
    requires Fresh(run + [op])
    ensures Fresh(run) && (op.Issue? ==> op.token !in Minted(run))
    ensures Minted(run) <= Minted(run + [op])
    ensures Exec(run + [op]) == Apply(Exec(run), op)
  {
    assert (run + [op])[..|run|] == run;
  }

  lemma {:induction false} StoredUntilRemoved(run: Run, issue: Op, more: Run)
    requires issue.Issue? && Fresh(run + [issue] + more)
    ensures issue.token in Minted(run + [issue] + more)
    ensures var m := Exec(run + [issue] + more);
            if RemovedIn(more, issue.token, issue.now + 300) then issue.token !in m
            else issue.token in m
                 && m[issue.token] == Session(issue.userId, issue.username, issue.now + 300, false)
    decreases |more|
  {
    if more == [] {
      assert run + [issue] + more == run + [issue];
      assert (run + [issue])[..|run|] == run;
    } else {
      var before, last := more[..|more| - 1], more[|more| - 1];
      assert run + [issue] + more == (run + [issue] + before) + [last];
      assert more == before + [last];
      FreshPrefix(run + [issue] + before, last);
      StoredUntilRemoved(run, issue, before);
      RemovedSnoc(before, last, issue.token, issue.now + 300);
    }
  }

  /** In every run a token is granted, for the user it was issued to, exactly up to
      300 seconds after it was issued and until a call removes its session. */
  lemma GrantedUntilRemoved(run: Run, issue: Op, more: Run, now: int)
    requires issue.Issue? && Fresh(run + [issue] + more)
    ensures Granted(Exec(run + [issue] + more), issue.token, now) ==
            if now <= issue.now + 300 && !RemovedIn(more, issue.token, issue.now + 300)
            then Some(Session(issue.userId, issue.username, issue.now + 300, true)) else None
  {
    StoredUntilRemoved(run, issue, more);
  }

  // ----- where sessions go -----

  ghost function Issues(run: Run): nat {
    if run == [] then 0 else Issues(run[..|run| - 1]) + (if run[|run| - 1].Issue? then 1 else 0)
  }

  /** How many calls of `consume` have succeeded, for any token. */
  ghost function Logins(run: Run): nat {
    if run == [] then 0 else
    var n := |run| - 1;
    Logins(run[..n])
    + (if run[n].Consume? && Granted(Exec(run[..n]), run[n].token, run[n].now).Some? then 1 else 0)
  }

  ghost function Dead(m: Sessions, now: int): set<Token> {
    set t | t in m && (m[t].expiresAt < now || m[t].consumed)
  }

  /** How many dead sessions a call throws away. */
  ghost function Discarded(m: Sessions, op: Op): nat {
    match op
    case Issue(_, _, _, _) => 0
    case Consume(token, now) => if token in m && Granted(m, token, now).None? then 1 else 0
    case Purge(now) => |Dead(m, now)|
  }

  ghost function Losses(run: Run): nat {
    if run == [] then 0 else
    Losses(run[..|run| - 1]) + Discarded(Exec(run[..|run| - 1]), run[|run| - 1])
  }

  lemma {:induction false} StoredIsMinted(run: Run)
    ensures Exec(run).Keys <= Minted(run)
  {
    if run != [] {
      StoredIsMinted(run[..|run| - 1]);
    }
  }

  lemma IssueSize(m: Sessions, token: Token, session: Session)
    requires token !in m
    ensures |m[token := session]| == |m| + 1
  {
  }

  lemma RemoveSize(m: Sessions, token: Token)
    ensures |m - {token}| == |m| - (if token in m then 1 else 0)
  {
    if token in m {
      assert m.Keys == (m - {token}).Keys + {token};
    } else {
      assert m - {token} == m;
    }
  }

  lemma PurgeSize(m: Sessions, now: int)
    ensures |Purged(m, now)| == |m| - |Dead(m, now)|
  {
    assert m.Keys == Purged(m, now).Keys + Dead(m, now);
  }

  lemma StepSize(m: Sessions, op: Op)
    requires op.Issue? ==> op.token !in m
    ensures |Apply(m, op)| == |m| + (if op.Issue? then 1 else 0) - Discarded(m, op)
              - (if op.Consume? && Granted(m, op.token, op.now).Some? then 1 else 0)
  {
    match op
    case Issue(token, userId, username, now) =>
      IssueSize(m, token, Session(userId, username, now + PREAUTH_TTL_SECS, false));
    case Consume(token, _) =>
      RemoveSize(m, token);
    case Purge(now) =>
      PurgeSize(m, now);
  }

  /** In every run the stored sessions are those issued, less those that went into a
      login and those thrown away dead. */
  lemma {:induction false} SessionsConserved(run: Run)
    requires Fresh(run)
    ensures |Exec(run)| == Issues(run) - Logins(run) - Losses(run)
  {
    if run != [] {
      var n := |run| - 1;
      SessionsConserved(run[..n]);
      StoredIsMinted(run[..n]);
      StepSize(Exec(run[..n]), run[n]);
    }
  }
}
