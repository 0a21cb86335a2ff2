/** The refresh-token store: its records, its operations as functions of the
    stored map, and the class whose methods perform them in place. */
module RefreshTokens {
  import opened Prelude

  datatype Id = Id(uuid: string)
  datatype UserId = UserId(name: string)
  datatype RawToken = RawToken(text: string)

  // The digest is a free constructor: two tokens with one digest are one token.
  datatype Digest = Sha256(preimage: RawToken)

  datatype Record = Record(
    id: Id, userId: UserId, tokenHash: Digest,
    expiresAt: int, revoked: bool, createdAt: int)

  datatype Issued = Issued(token: RawToken, id: Id, userId: UserId, expiresAt: int)

  type Store = map<Id, Record>

  function HashToken(raw: RawToken): Digest {
    Sha256(raw)
  }

  /** Keys agree with the records they hold, and no two records share a digest. */
  ghost predicate WellFormed(m: Store) {
    && (forall id | id in m :: m[id].id == id)
    && (forall a, b | a in m && b in m && m[a].tokenHash == m[b].tokenHash :: a == b)
  }

  ghost predicate Holds(m: Store, id: Id, raw: RawToken) {
    id in m && m[id].tokenHash == HashToken(raw)
  }

  ghost predicate Known(m: Store, raw: RawToken) {
    exists id :: Holds(m, id, raw)
  }

  /** The record a raw token names, if any. */
  ghost function Lookup(m: Store, raw: RawToken): (r: Option<Id>)
    ensures r.Some? ==> Holds(m, r.value, raw)
    ensures r.None? ==> !Known(m, raw)
  {
    if Known(m, raw) then
      var id :| Holds(m, id, raw);
      Some(id)
    else
      None
  }

  predicate Expired(r: Record, now: int) {
    now > r.expiresAt
  }

  // ----- the operations on the stored map -----

  ghost function Verified(m: Store, raw: RawToken, now: int): Option<(Id, UserId)> {
    match Lookup(m, raw)
    case None => None
    case Some(id) =>
      if m[id].revoked || Expired(m[id], now) then None else Some((id, m[id].userId))
  }

  function Minted(m: Store, userId: UserId, ttl: int, now: int, id: Id, raw: RawToken): Store {
    m[id := Record(id, userId, HashToken(raw), now + ttl, false, now)]
  }

  function RevokedOne(m: Store, id: Id): Store {
    if id in m then m[id := m[id].(revoked := true)] else m
  }

  function Silenced(r: Record, userId: UserId): Record {
    if r.userId == userId then r.(revoked := true) else r
  }

  function RevokedUser(m: Store, userId: UserId): Store {
    map id | id in m :: Silenced(m[id], userId)
  }

  /** `now` is the clock read by the expiry test, `later` the one stamped on the new record. */
  ghost function Rotated(m: Store, raw: RawToken, ttl: int, now: int, later: int, newId: Id, newRaw: RawToken)
    : (Store, Option<Issued>)
  {
    match Lookup(m, raw)
    case None => (m, None)
    case Some(id) =>
      var userId := m[id].userId;
      if Expired(m[id], now) then (m, None)
      else if m[id].revoked then (RevokedUser(m, userId), None)
      else (Minted(RevokedOne(m, id), userId, ttl, later, newId, newRaw),
            Some(Issued(newRaw, newId, userId, later + ttl)))
  }

  ghost function LiveOf(m: Store, userId: UserId): set<Id> {
    set id | id in m && m[id].userId == userId && !m[id].revoked
  }

  ghost function ActiveAt(m: Store, now: int): set<Id> {
    set id | id in m && !m[id].revoked && m[id].expiresAt > now
  }

  lemma SilenceOne(m: Store, id: Id, userId: UserId)
    requires id in LiveOf(m, userId)
    ensures |LiveOf(m, userId)| == |LiveOf(RevokedOne(m, id), userId)| + 1
  {
    assert LiveOf(RevokedOne(m, id), userId) == LiveOf(m, userId) - {id};
  }

  // ----- the store itself -----

  class RefreshStore {
    var tokens: Store

    constructor ()
      ensures tokens == map[]
    {
      tokens := map[];
    }

    method Issue(userId: UserId, ttl: int, now: int, id: Id, raw: RawToken) returns (issued: Issued)
      modifies this
      ensures tokens == Minted(old(tokens), userId, ttl, now, id, raw)
      ensures issued == Issued(raw, id, userId, now + ttl)
    {
      var record := Record(id, userId, HashToken(raw), now + ttl, false, now);
      tokens := tokens[id := record];
      issued := Issued(raw, id, userId, now + ttl);
    }

    /** The linear scan by digest shared by verification and rotation. */
    method Find(raw: RawToken) returns (found: Option<Id>)
      requires WellFormed(tokens)
      ensures found == Lookup(tokens, raw)
    {
      var hash := HashToken(raw);
      var todo := tokens.Keys;
      while todo != {}
        invariant todo <= tokens.Keys
        invariant forall id | id in tokens && id !in todo :: tokens[id].tokenHash != hash
      {
        var id :| id in todo;
        if tokens[id].tokenHash == hash {
          assert Holds(tokens, id, raw);
          return Some(id);
        }
        todo := todo - {id};
      }
      return None;
    }

    method Verify(raw: RawToken, now: int) returns (r: Option<(Id, UserId)>)
      requires WellFormed(tokens)
      ensures r == Verified(tokens, raw, now)
    {
      var found := Find(raw);
      if found.None? {
        return None;
      }
      var record := tokens[found.value];
      if record.revoked {
        return None;
      }
      if now > record.expiresAt {
        return None;
      }
      return Some((record.id, record.userId));
    }

    method Revoke(id: Id) returns (ok: bool)
      modifies this
      ensures ok <==> id in old(tokens)
      ensures tokens == RevokedOne(old(tokens), id)
    {
      if id in tokens {
        tokens := tokens[id := tokens[id].(revoked := true)];
        ok := true;
      } else {
        ok := false;
      }
    }

    method RevokeAllForUser(userId: UserId) returns (count: nat)
      modifies this
      ensures tokens == RevokedUser(old(tokens), userId)
      ensures count == |LiveOf(old(tokens), userId)|
    {
      count := 0;
      var todo := tokens.Keys;
      while todo != {}
        invariant todo <= old(tokens).Keys && tokens.Keys == old(tokens).Keys
        invariant forall id | id in old(tokens) ::
          tokens[id] == if id in todo then old(tokens)[id] else Silenced(old(tokens)[id], userId)
        invariant count + |LiveOf(tokens, userId)| == |LiveOf(old(tokens), userId)|
      {
        var id :| id in todo;
        if tokens[id].userId == userId && !tokens[id].revoked {
          SilenceOne(tokens, id, userId);
          tokens := RevokedOne(tokens, id);
          count := count + 1;
        }
        todo := todo - {id};
      }
      assert LiveOf(tokens, userId) == {};
      assert tokens == RevokedUser(old(tokens), userId);
    }

    method Rotate(raw: RawToken, ttl: int, now: int, later: int, newId: Id, newRaw: RawToken)
      returns (r: Option<Issued>)
      requires WellFormed(tokens)
      modifies this
      ensures (tokens, r) == Rotated(old(tokens), raw, ttl, now, later, newId, newRaw)
    {
      var found := Find(raw);
      if found.None? {
        return None;
      }
      var record := tokens[found.value];
      if now > record.expiresAt {
        return None;
      }
      if record.revoked {
        var todo := tokens.Keys;
        while todo != {}
          invariant todo <= old(tokens).Keys && tokens.Keys == old(tokens).Keys
          invariant forall id | id in old(tokens) ::
            tokens[id] == if id in todo then old(tokens)[id] else Silenced(old(tokens)[id], record.userId)
        {
          var id :| id in todo;
          if tokens[id].userId == record.userId {
            tokens := tokens[id := tokens[id].(revoked := true)];
          }
          todo := todo - {id};
        }
        assert tokens == RevokedUser(old(tokens), record.userId);
        return None;
      }
      tokens := tokens[found.value := record.(revoked := true)];
      var replacement := Record(newId, record.userId, HashToken(newRaw), later + ttl, false, later);
      tokens := tokens[newId := replacement];
      return Some(Issued(newRaw, newId, record.userId, later + ttl));
    }

    method ActiveCount(now: int) returns (n: nat)
      ensures n == |ActiveAt(tokens, now)|
    {
      n := 0;
      ghost var seen: set<Id> := {};
      var todo := tokens.Keys;
      while todo != {}
        invariant todo <= tokens.Keys
        invariant seen == ActiveAt(tokens, now) - todo && n == |seen|
      {
        var id :| id in todo;
        if !tokens[id].revoked && tokens[id].expiresAt > now {
          n := n + 1;
          seen := seen + {id};
        }
        todo := todo - {id};
      }
      assert seen == ActiveAt(tokens, now);
    }
  }

  // ----- one call -----

  /** At one instant rotation succeeds exactly when verification does, and for the same user. */
  lemma RotateIffVerify(m: Store, raw: RawToken, ttl: int, now: int, later: int, newId: Id, newRaw: RawToken)
    ensures var r := Rotated(m, raw, ttl, now, later, newId, newRaw).1;
            var v := Verified(m, raw, now);
            && (r.Some? <==> v.Some?)
            && (r.Some? ==> r.value == Issued(newRaw, newId, v.value.1, later + ttl))
  {
  }

  /** A rotation that succeeds adds one record; with a positive ttl the active
      count is unchanged, except that it rises by one exactly when the old token
      expires at that very instant. */
  lemma RotateCounts(m: Store, raw: RawToken, ttl: int, now: int, newId: Id, newRaw: RawToken)
    requires ttl > 0 && newId !in m
    requires Verified(m, raw, now).Some?
    ensures var m' := Rotated(m, raw, ttl, now, now, newId, newRaw).0;
            var before := m[Verified(m, raw, now).value.0];
            && |m'| == |m| + 1
            && |ActiveAt(m', now)| == |ActiveAt(m, now)| + (if before.expiresAt == now then 1 else 0)
  {
    var id := Verified(m, raw, now).value.0;
    var m' := Rotated(m, raw, ttl, now, now, newId, newRaw).0;
    assert m'.Keys == m.Keys + {newId};
    assert ActiveAt(m', now) == (ActiveAt(m, now) - {id}) + {newId};
  }
}
