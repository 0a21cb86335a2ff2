/** The login handlers as they run on the stores, and the steps of the login state
    machine that each of them takes. */
module AuthHandlers {
  import opened Prelude
  import P = PreAuth
  import R = RefreshTokens
  import F = AuthFlow
  import Base32
  import Totp
  import BackupCodes

  datatype Hash = Hash(bcrypt: string)

  datatype User = User(
    id: string, username: string, totpEnabled: bool, totpSecret: Option<seq<Byte>>, backupCodes: seq<Hash>)

  datatype Reply =
    | Unauthorized
    | InternalError
    | TwoFactorRequired(preauthToken: P.Token)
    | Tokens(refreshToken: R.RawToken)

  /** Code characters stand for their digit values; `hmac` and `bcrypt` are left
      abstract, and a malformed hash does not match. */
  datatype Checks = Checks(hmac: (Totp.Key, nat) -> Totp.Mac, bcrypt: (seq<nat>, Hash) -> bool)

  /** What counts as a right code: a TOTP code of the window or any stored backup code. */
  ghost predicate CodeAccepted(c: Checks, user: User, code: seq<nat>, now: nat) {
    TotpAccepted(c, user, code, now) || MatchesBackup(c, user, code)
  }

  ghost predicate TotpAccepted(c: Checks, user: User, code: seq<nat>, now: nat) {
    user.totpSecret.Some? && Totp.VerifyTotp(c.hmac, user.totpSecret.value, code, now)
  }

  ghost predicate MatchesBackup(c: Checks, user: User, code: seq<nat>) {
    exists i :: 0 <= i < |user.backupCodes| && c.bcrypt(code, user.backupCodes[i])
  }

  /** When completing a login hands out tokens. */
  ghost predicate Completes(users: map<string, User>, c: Checks, sessions: P.Sessions, code: seq<nat>, a: Attempt) {
    var session := P.Granted(sessions, a.token, a.now);
    && session.Some? && session.value.userId in users
    && CodeAccepted(c, users[session.value.userId], code, a.later) && a.signed
  }

  /** What one completion draws from its surroundings. `now` is read when the pre-auth
      token is consumed, `later` by the code test and the new record. */
  datatype Attempt = Attempt(token: P.Token, now: int, later: nat, signed: bool, id: R.Id, raw: R.RawToken)

  // ----- what the steps do to the stores -----

  lemma LoginStores(enrolled: iset<string>, s: F.State, step: F.Step)
    requires step.Login?
    ensures var s' := F.Next(enrolled, s, step);
            if step.userId in enrolled then
              && s'.preauth == P.Issued(s.preauth, step.token, step.userId, step.username, step.now)
              && s'.refresh == s.refresh
            else
              s'.preauth == s.preauth
              && s'.refresh == if step.signed
                               then R.Minted(s.refresh, R.UserId(step.userId), F.DEFAULT_REFRESH_TTL_SECS,
                                             step.now, step.id, step.raw)
                               else s.refresh
  {
  }

  lemma BeginStores(enrolled: iset<string>, s: F.State, h: F.Handler, token: P.Token, now: int)
    ensures var s' := F.Next(enrolled, s, F.CompleteBegin(h, token, now));
            var granted := P.Granted(s.preauth, token, now);
            && s'.preauth == s.preauth - {token} && s'.refresh == s.refresh
            && s'.pending == if granted.Some? then s.pending[h := F.CodeCheck(token, granted.value)] else s.pending
  {
  }

  lemma EndStores(enrolled: iset<string>, s: F.State, step: F.Step)
    requires step.CompleteEnd?
    ensures var s' := F.Next(enrolled, s, step);
            && s'.preauth == s.preauth
            && s'.refresh == if F.Finishes(s, step)
                             then R.Minted(s.refresh, R.UserId(s.pending[step.h].session.userId),
                                           F.DEFAULT_REFRESH_TTL_SECS, step.now, step.id, step.raw)
                             else s.refresh
  {
  }

  lemma LogoutStores(enrolled: iset<string>, s: F.State, h: F.Handler, raw: R.RawToken, now: int)
    requires h !in s.pending
    ensures var s1 := F.Next(enrolled, s, F.LogoutBegin(h, raw, now));
            var s2 := F.Next(enrolled, s1, F.LogoutEnd(h));
            var v := R.Verified(s.refresh, raw, now);
            && s2.preauth == s.preauth
            && s2.refresh == if v.Some? then R.RevokedOne(s.refresh, v.value.0) else s.refresh
  {
  }

  // ----- the handlers -----

  class Api {
    const preauth: P.PreAuthStore
    const refresh: R.RefreshStore
    const users: map<string, User>

    constructor (preauth: P.PreAuthStore, refresh: R.RefreshStore, users: map<string, User>)
      ensures this.preauth == preauth && this.refresh == refresh && this.users == users
    {
      this.preauth := preauth;
      this.refresh := refresh;
      this.users := users;
    }

    /** The stores hold what state s of the login machine says. */
    ghost predicate At(s: F.State)
      reads this, preauth, refresh
    {
      preauth.sessions == s.preauth && refresh.tokens == s.refresh
    }

    /** `user` is what the password check found; `signed` whether the JWT was signed. */
    method Login(user: Option<User>, now: int, token: P.Token, signed: bool, id: R.Id, raw: R.RawToken,
                 ghost enrolled: iset<string>, ghost s: F.State)
        returns (reply: Reply)
      requires At(s)
      requires user.Some? ==> (user.value.id in enrolled <==> user.value.totpEnabled)
      modifies preauth, refresh
      ensures user.None? ==> At(s) && reply == Unauthorized
      ensures user.Some? ==>
                At(F.Next(enrolled, s, F.Login(user.value.id, user.value.username, now, token, signed, id, raw)))
      ensures reply == Unauthorized <==> user.None?
      ensures reply.TwoFactorRequired? <==> user.Some? && user.value.totpEnabled
      ensures reply.Tokens? <==> user.Some? && !user.value.totpEnabled && signed
      ensures reply.Tokens? ==> reply.refreshToken == raw && refresh.tokens == old(refresh.tokens)[
                id := R.Record(id, R.UserId(user.value.id), R.Sha256(raw), now + 604_800, false, now)]
      ensures !reply.Tokens? ==> refresh.tokens == old(refresh.tokens)
      ensures reply.TwoFactorRequired? ==> reply.preauthToken == token && preauth.sessions == old(preauth.sessions)[
                token := P.Session(user.value.id, user.value.username, now + 300, false)]
      ensures !reply.TwoFactorRequired? ==> preauth.sessions == old(preauth.sessions)
    {
      if user.None? {
        return Unauthorized;
      }
      var u := user.value;
      LoginStores(enrolled, s, F.Login(u.id, u.username, now, token, signed, id, raw));
      if u.totpEnabled {
        preauth.Issue(token, u.id, u.username, now);
        return TwoFactorRequired(token);
      }
      if !signed {
        return InternalError;
      }
      var issued := refresh.Issue(R.UserId(u.id), F.DEFAULT_REFRESH_TTL_SECS, now, id, raw);
      return Tokens(issued.token);
    }

    /** The code test of the second factor. A spent backup code is not written back. */
    method CheckCode(c: Checks, user: User, code: seq<nat>, now: nat) returns (ok: bool)
      ensures ok == CodeAccepted(c, user, code, now)
      ensures ok <==>
              || (user.totpSecret.Some? && Totp.VerifyTotp(c.hmac, user.totpSecret.value, code, now))
              || exists i :: 0 <= i < |user.backupCodes| && c.bcrypt(code, user.backupCodes[i])
    {
      if user.totpSecret.Some? {
        var valid := Totp.CheckTotp(c.hmac, user.totpSecret.value, code, now);
        if valid {
          return true;
        }
      }
      var remaining := BackupCodes.VerifyBackupCode(user.backupCodes, h => c.bcrypt(code, h));
      return remaining.Some?;
    }

    /** The pre-auth token is gone afterwards, whatever the reply. */
    method TwoFactorComplete(h: F.Handler, a: Attempt, c: Checks, code: seq<nat>,
                             ghost enrolled: iset<string>, ghost s: F.State)
        returns (reply: Reply, ghost step: F.Step)
      requires At(s) && h !in s.pending
      modifies preauth, refresh
      ensures step.CompleteEnd? && step.h == h && step.now == a.later && step.id == a.id && step.raw == a.raw
      ensures At(F.Next(enrolled, F.Next(enrolled, s, F.CompleteBegin(h, a.token, a.now)), step))
      ensures preauth.sessions == old(preauth.sessions) - {a.token}
      ensures reply.Tokens? <==> Completes(users, c, old(preauth.sessions), code, a)
      ensures var session := P.Granted(old(preauth.sessions), a.token, a.now);
              && (step.known <==> session.Some? && session.value.userId in users)
              && (step.codeOk <==> step.known && CodeAccepted(c, users[session.value.userId], code, a.later))
              && (step.signed <==> a.signed)
              && (reply.Tokens? <==> step.known && step.codeOk && step.signed)
              && (reply == InternalError <==> session.Some? && (!step.known || (step.codeOk && !step.signed)))
              && !reply.TwoFactorRequired?
              && (reply.Tokens? ==> reply.refreshToken == a.raw && refresh.tokens == old(refresh.tokens)[
                    a.id := R.Record(a.id, R.UserId(session.value.userId), R.Sha256(a.raw),
                                     a.later + 604_800, false, a.later)])
      ensures !reply.Tokens? ==> refresh.tokens == old(refresh.tokens)
    {
      BeginStores(enrolled, s, h, a.token, a.now);
      ghost var s1 := F.Next(enrolled, s, F.CompleteBegin(h, a.token, a.now));
      step := F.CompleteEnd(h, false, false, a.signed, a.later, a.id, a.raw);
      var session := preauth.Consume(a.token, a.now);
      if session.None? {
        EndStores(enrolled, s1, step);
        return Unauthorized, step;
      }
      var userId := session.value.userId;
      if userId !in users {
        EndStores(enrolled, s1, step);
        return InternalError, step;
      }
      var ok := CheckCode(c, users[userId], code, a.later);
      step := F.CompleteEnd(h, true, ok, a.signed, a.later, a.id, a.raw);
      EndStores(enrolled, s1, step);
      if !ok {
        return Unauthorized, step;
      }
      if !a.signed {
        return InternalError, step;
      }
      var issued := refresh.Issue(R.UserId(userId), F.DEFAULT_REFRESH_TTL_SECS, a.later, a.id, a.raw);
      return Tokens(issued.token), step;
    }

    /** Two completions of one user with the same code: if the code matches a stored
        backup hash, the second hands out tokens whenever its own session is granted
        and signing works, although the first has used the code up. */
    method CompleteTwice(h: F.Handler, first: Attempt, second: Attempt, c: Checks, code: seq<nat>)
        returns (reply1: Reply, reply2: Reply)
      modifies preauth, refresh
      ensures reply1.Tokens? <==> Completes(users, c, old(preauth.sessions), code, first)
      ensures var session1 := P.Granted(old(preauth.sessions), first.token, first.now);
              var session2 := P.Granted(old(preauth.sessions) - {first.token}, second.token, second.now);
              && Completes(users, c, old(preauth.sessions), code, first)
              && MatchesBackup(c, users[session1.value.userId], code)
              && (session2.Some? ==> session2.value.userId == session1.value.userId)
              ==> (reply2.Tokens? <==> session2.Some? && second.signed)
    {
      ghost var step;
      reply1, step := TwoFactorComplete(h, first, c, code, iset{}, Idle());
      reply2, step := TwoFactorComplete(h, second, c, code, iset{}, Idle());
    }

    /** The state of the login machine with these stores and nothing in flight. */
    ghost function Idle(): F.State
      reads this, preauth, refresh
    {
      F.Init().(preauth := preauth.sessions, refresh := refresh.tokens)
    }

    /** The rotation happens before the user lookup and the signing, so a failure of
        these has spent the old token all the same. */
    method Refresh(raw: R.RawToken, now: int, later: int, signed: bool, newId: R.Id, newRaw: R.RawToken,
                   ghost enrolled: iset<string>, ghost s: F.State)
        returns (reply: Reply)
      requires At(s) && R.WellFormed(refresh.tokens)
      modifies refresh
      ensures At(F.Next(enrolled, s, F.Refresh(raw, now, later, newId, newRaw)))
      ensures var v := R.Verified(s.refresh, raw, now);
              && (reply == Unauthorized <==> v.None?) && !reply.TwoFactorRequired?
              && (reply.Tokens? <==> v.Some? && v.value.1.name in users && signed)
      ensures reply.Tokens? ==> reply.refreshToken == newRaw
      ensures refresh.tokens == R.Rotated(old(refresh.tokens), raw, 604_800, now, later, newId, newRaw).0
    {
      R.RotateIffVerify(refresh.tokens, raw, F.DEFAULT_REFRESH_TTL_SECS, now, later, newId, newRaw);
      var rotated := refresh.Rotate(raw, F.DEFAULT_REFRESH_TTL_SECS, now, later, newId, newRaw);
      if rotated.None? {
        return Unauthorized;
      }
      if rotated.value.userId.name !in users {
        return InternalError;
      }
      if !signed {
        return InternalError;
      }
      return Tokens(rotated.value.token);
    }

    method Logout(h: F.Handler, raw: R.RawToken, now: int, ghost enrolled: iset<string>, ghost s: F.State)
      requires At(s) && h !in s.pending && R.WellFormed(refresh.tokens)
      modifies refresh
      ensures At(F.Next(enrolled, F.Next(enrolled, s, F.LogoutBegin(h, raw, now)), F.LogoutEnd(h)))
      ensures R.Verified(refresh.tokens, raw, now).None?
      ensures var v := R.Verified(old(refresh.tokens), raw, now);
              refresh.tokens == if v.Some? then R.RevokedOne(old(refresh.tokens), v.value.0) else old(refresh.tokens)
    {
      LogoutStores(enrolled, s, h, raw, now);
      var v := refresh.Verify(raw, now);
      if v.Some? {
        RevokedIsDead(refresh.tokens, raw, now);
        var _ := refresh.Revoke(v.value.0);
      }
    }
  }

  lemma SpendIffMatches(c: Checks, user: User, code: seq<nat>)
    ensures BackupCodes.Spend(user.backupCodes, h => c.bcrypt(code, h)).Some? <==> MatchesBackup(c, user, code)
  {
  }

  /** The code test in terms of the clock and the stored hashes alone. */
  lemma CodeAcceptedIff(c: Checks, user: User, code: seq<nat>, now: nat)
    requires now < U64_MODULUS
    ensures CodeAccepted(c, user, code, now) <==>
            || (exists i :: 0 <= i < |user.backupCodes| && c.bcrypt(code, user.backupCodes[i]))
            || (&& user.totpSecret.Some? && Base32.Decoded(user.totpSecret.value).Ok?
                && exists t: nat :: now - now % 30 - 30 <= t < now - now % 30 + 60
                     && Totp.Code(c.hmac(Base32.Decoded(user.totpSecret.value).value, t / 30)) == code)
  {
    if user.totpSecret.Some? {
      Totp.AcceptedIff(c.hmac, user.totpSecret.value, code, now);
    }
  }

  /** Nothing is written back, so a code that matches a stored hash is good for every
      completion of that user, in every state of the stores and at every time. */
  lemma BackupCodeWorksAgain(users: map<string, User>, userId: string, c: Checks, code: seq<nat>,
                             sessions: P.Sessions, a: Attempt)
    requires userId in users && MatchesBackup(c, users[userId], code)
    requires var session := P.Granted(sessions, a.token, a.now); session.Some? ==> session.value.userId == userId
    ensures Completes(users, c, sessions, code, a) <==> P.Granted(sessions, a.token, a.now).Some? && a.signed
  {
  }

  /** Had the remaining codes been written back, a code used once would be accepted a
      second time exactly when two stored hashes match it or it is a TOTP code of the
      moment. That is when the handler and single use agree. */
  lemma SingleUseIff(c: Checks, user: User, code: seq<nat>, now: nat)
    requires MatchesBackup(c, user, code)
    ensures var left := BackupCodes.Spend(user.backupCodes, h => c.bcrypt(code, h));
            && left.Some? && CodeAccepted(c, user, code, now)
            && (CodeAccepted(c, user.(backupCodes := left.value), code, now) <==>
                || BackupCodes.Matches(user.backupCodes, h => c.bcrypt(code, h)) >= 2
                || TotpAccepted(c, user, code, now))
  {
    var ok := h => c.bcrypt(code, h);
    SpendIffMatches(c, user, code);
    var left := BackupCodes.Spend(user.backupCodes, ok);
    SpendIffMatches(c, user.(backupCodes := left.value), code);
    BackupCodes.ReusedTwice(user.backupCodes, ok);
  }

  lemma RevokedIsDead(m: R.Store, raw: R.RawToken, now: int)
    requires R.WellFormed(m) && R.Verified(m, raw, now).Some?
    ensures R.Verified(R.RevokedOne(m, R.Verified(m, raw, now).value.0), raw, now).None?
  {
    var id := R.Verified(m, raw, now).value.0;
    var m' := R.RevokedOne(m, id);
    assert R.Holds(m, id, raw);
    if R.Lookup(m', raw).Some? {
      assert R.Holds(m, R.Lookup(m', raw).value, raw);
    }
  }
}
