/** Every run of the refresh-token store: rotation chains, the replay rule and
    logout, over arbitrary sequences of calls. */
module RefreshHistory {
  import opened Prelude
  import opened RefreshTokens

  datatype Op =
    | Issue(userId: UserId, ttl: int, now: int, id: Id, raw: RawToken)
    | Verify(raw: RawToken, now: int)
    | Revoke(id: Id)
    | RevokeAll(userId: UserId)
    | Rotate(raw: RawToken, ttl: int, now: int, later: int, newId: Id, newRaw: RawToken)

  type Run = seq<Op>

  ghost function Apply(m: Store, op: Op): Store {
    match op
    case Issue(userId, ttl, now, id, raw) => Minted(m, userId, ttl, now, id, raw)
    case Verify(_, _) => m
    case Revoke(id) => RevokedOne(m, id)
    case RevokeAll(userId) => RevokedUser(m, userId)
    case Rotate(raw, ttl, now, later, newId, newRaw) =>
      Rotated(m, raw, ttl, now, later, newId, newRaw).0
  }

  /** The store after a run that starts empty. */
  ghost function Exec(run: Run): Store {
    if run == [] then map[] else Apply(Exec(run[..|run| - 1]), run[|run| - 1])
  }

  /** Ids and raw tokens that a call generates are new to the store. */
  ghost predicate Fresh(m: Store, op: Op) {
    match op
    case Issue(_, _, _, id, raw) => id !in m && !Known(m, raw)
    case Rotate(_, _, _, _, newId, newRaw) => newId !in m && !Known(m, newRaw)
    case _ => true
  }

  ghost predicate Legal(run: Run) {
    run == [] ||
    (Legal(run[..|run| - 1]) && Fresh(Exec(run[..|run| - 1]), run[|run| - 1]))
  }

  /** Only calls that generate values are restricted, and only in these. */
  lemma LegalExtends(run: Run, op: Op)
    requires Legal(run)
    requires op.Issue? ==> op.id !in Exec(run) && !Known(Exec(run), op.raw)
    requires op.Rotate? ==> op.newId !in Exec(run) && !Known(Exec(run), op.newRaw)
    ensures Legal(run + [op])
  {
    ExecSnoc(run, op);
  }

  lemma ExecSnoc(run: Run, op: Op)
    ensures Exec(run + [op]) == Apply(Exec(run), op)
    ensures Legal(run + [op]) <==> Legal(run) && Fresh(Exec(run), op)
  {
    assert (run + [op])[..|run|] == run;
  }

  // ----- what every call keeps -----

  /** Records are never removed, only ever become revoked, and keep everything else. */
  ghost predicate Grows(m: Store, m': Store) {
    forall id | id in m ::
      id in m' && m'[id] == m[id].(revoked := m'[id].revoked) && (m[id].revoked ==> m'[id].revoked)
  }

  lemma MintKeeps(m: Store, userId: UserId, ttl: int, now: int, id: Id, raw: RawToken)
    requires WellFormed(m) && id !in m && !Known(m, raw)
    ensures WellFormed(Minted(m, userId, ttl, now, id, raw))
    ensures Grows(m, Minted(m, userId, ttl, now, id, raw))
  {
    assert forall a | a in m :: !Holds(m, a, raw);
  }

  lemma RevokeKeeps(m: Store, id: Id, raw: RawToken)
    requires WellFormed(m)
    ensures WellFormed(RevokedOne(m, id)) && Grows(m, RevokedOne(m, id))
    ensures Known(RevokedOne(m, id), raw) ==> Known(m, raw)
  {
    var m' := RevokedOne(m, id);
    assert forall a | a in m' :: m'[a] == m[a].(revoked := m'[a].revoked);
    if Known(m', raw) {
      var x :| Holds(m', x, raw);
      assert Holds(m, x, raw);
    }
  }

  lemma ApplyKeeps(m: Store, op: Op)
    requires WellFormed(m) && Fresh(m, op)
    ensures WellFormed(Apply(m, op)) && Grows(m, Apply(m, op))
  {
    match op
    case Issue(userId, ttl, now, id, raw) =>
      MintKeeps(m, userId, ttl, now, id, raw);
    case Verify(_, _) =>
    case Revoke(id) =>
      RevokeKeeps(m, id, RawToken(""));
    case RevokeAll(userId) =>
      RevokeUserKeeps(m, userId);
    case Rotate(raw, ttl, now, later, newId, newRaw) =>
      var v := Verified(m, raw, now);
      if v.Some? {
        RevokeKeeps(m, v.value.0, newRaw);
        var m1 := RevokedOne(m, v.value.0);
        MintKeeps(m1, v.value.1, ttl, later, newId, newRaw);
        GrowsTransitive(m, m1, Apply(m, op));
      } else if Lookup(m, raw).Some? {
        RevokeUserKeeps(m, m[Lookup(m, raw).value].userId);
      }
  }

  lemma RevokeUserKeeps(m: Store, userId: UserId)
    requires WellFormed(m)
    ensures WellFormed(RevokedUser(m, userId)) && Grows(m, RevokedUser(m, userId))
  {
    var m' := RevokedUser(m, userId);
    assert forall a | a in m' :: m'[a] == m[a].(revoked := m'[a].revoked);
  }

  lemma GrowsTransitive(m: Store, m1: Store, m2: Store)
    requires Grows(m, m1) && Grows(m1, m2)
    ensures Grows(m, m2)
  {
  }

  lemma {:induction false} RunKeepsWellFormed(run: Run)
    requires Legal(run)
    ensures WellFormed(Exec(run))
  {
    if run != [] {
      RunKeepsWellFormed(run[..|run| - 1]);
      ApplyKeeps(Exec(run[..|run| - 1]), run[|run| - 1]);
    }
  }

  lemma LegalPrefix(run: Run, more: Run)
    requires Legal(run + more)
    ensures Legal(run)
    decreases |more|
  {
    if more == [] {
      assert run + more == run;
    } else {
      assert run + more == (run + more[..|more| - 1]) + [more[|more| - 1]];
      ExecSnoc(run + more[..|more| - 1], more[|more| - 1]);
      LegalPrefix(run, more[..|more| - 1]);
    }
  }

  lemma {:induction false} RunGrows(run: Run, more: Run)
    requires Legal(run + more)
    ensures Legal(run) && Grows(Exec(run), Exec(run + more))
    decreases |more|
  {
    if more == [] {
      assert run + more == run;
    } else {
      var before := run + more[..|more| - 1];
      var last := more[|more| - 1];
      assert run + more == before + [last];
      ExecSnoc(before, last);
      RunGrows(run, more[..|more| - 1]);
      RunKeepsWellFormed(before);
      ApplyKeeps(Exec(before), last);
    }
  }

  lemma LookupStable(m: Store, m': Store, raw: RawToken)
    requires WellFormed(m) && WellFormed(m') && Grows(m, m') && Known(m, raw)
    ensures Lookup(m', raw) == Lookup(m, raw)
  {
    assert Holds(m', Lookup(m, raw).value, raw);
  }

  // ----- rotation chains -----

  /** A place in a chain: which chain, and how many rotations after its root. */
  datatype Slot = Slot(chain: nat, pos: nat)

  type Layout = map<Id, Slot>

  ghost predicate InSlot(layout: Layout, id: Id, slot: Slot) {
    id in layout && layout[id] == slot
  }

  /** Chains are disjoint and linear: no two records share a slot. */
  ghost predicate Injective(layout: Layout) {
    forall a, b | a in layout && b in layout && layout[a] == layout[b] :: a == b
  }

  /** Only the last record of a chain can be unrevoked. */
  ghost predicate Spent(layout: Layout, m: Store) {
    forall a, b | a in layout && b in layout ::
      layout[a].chain == layout[b].chain && layout[a].pos < layout[b].pos ==> a in m && m[a].revoked
  }

  /** A chain belongs to one user. */
  ghost predicate OneOwner(layout: Layout, m: Store) {
    forall a, b | a in layout && b in layout ::
      layout[a].chain == layout[b].chain ==> a in m && b in m && m[a].userId == m[b].userId
  }

  ghost predicate Filled(layout: Layout, slot: Slot) {
    exists id :: InSlot(layout, id, slot)
  }

  /** Chains start at the records made by `issue` and have no gaps. */
  ghost predicate Rooted(layout: Layout, roots: seq<Id>) {
    && (forall c: nat | c < |roots| :: InSlot(layout, roots[c], Slot(c, 0)))
    && (forall id | id in layout :: layout[id].chain < |roots|)
    && (forall id, p: nat | id in layout && p <= layout[id].pos :: Filled(layout, Slot(layout[id].chain, p)))
  }

  ghost predicate Chained(layout: Layout, m: Store, roots: seq<Id>) {
    && layout.Keys == m.Keys
    && Injective(layout) && Spent(layout, m) && OneOwner(layout, m) && Rooted(layout, roots)
  }

  /** `issue` opens a chain; a successful rotation puts the new record right after the old one. */
  ghost function NextLayout(layout: Layout, roots: seq<Id>, m: Store, op: Op): Layout {
    match op
    case Issue(_, _, _, id, _) => layout[id := Slot(|roots|, 0)]
    case Rotate(raw, _, now, _, newId, _) =>
      var v := Verified(m, raw, now);
      if v.Some? && v.value.0 in layout then
        layout[newId := Slot(layout[v.value.0].chain, layout[v.value.0].pos + 1)]
      else layout
    case _ => layout
  }

  ghost function LayoutOf(run: Run): Layout {
    if run == [] then map[] else
    var n := |run| - 1;
    NextLayout(LayoutOf(run[..n]), Roots(run[..n]), Exec(run[..n]), run[n])
  }

  /** The ids of the records created by `issue`, in order. */
  ghost function Roots(run: Run): seq<Id> {
    if run == [] then [] else
    var n := |run| - 1;
    Roots(run[..n]) + (if run[n].Issue? then [run[n].id] else [])
  }

  lemma ChainedGrows(layout: Layout, m: Store, m': Store, roots: seq<Id>)
    requires Chained(layout, m, roots) && Grows(m, m') && m'.Keys == m.Keys
    ensures Chained(layout, m', roots)
  {
  }

  lemma FilledStays(layout: Layout, id: Id, slot: Slot, other: Slot)
    requires id !in layout && Filled(layout, other)
    ensures Filled(layout[id := slot], other)
  {
    var x :| InSlot(layout, x, other);
    assert InSlot(layout[id := slot], x, other);
  }

  lemma RootedIssue(layout: Layout, roots: seq<Id>, id: Id)
    requires Rooted(layout, roots) && id !in layout
    ensures Rooted(layout[id := Slot(|roots|, 0)], roots + [id])
  {
    var slot := Slot(|roots|, 0);
    var layout' := layout[id := slot];
    assert InSlot(layout', id, slot);
    forall x, p: nat | x in layout' && p <= layout'[x].pos
      ensures Filled(layout', Slot(layout'[x].chain, p))
    {
      if x != id {
        FilledStays(layout, id, slot, Slot(layout[x].chain, p));
      }
    }
  }

  lemma RootedRotate(layout: Layout, roots: seq<Id>, a: Id, b: Id)
    requires Rooted(layout, roots) && a in layout && b !in layout
    ensures Rooted(layout[b := Slot(layout[a].chain, layout[a].pos + 1)], roots)
  {
    var slot := Slot(layout[a].chain, layout[a].pos + 1);
    var layout' := layout[b := slot];
    assert InSlot(layout', b, slot);
    forall x, p: nat | x in layout' && p <= layout'[x].pos
      ensures Filled(layout', Slot(layout'[x].chain, p))
    {
      if x != b || p < slot.pos {
        FilledStays(layout, b, slot, Slot(layout'[x].chain, p));
      }
    }
  }

  lemma InjectiveAdd(layout: Layout, id: Id, slot: Slot)
    requires Injective(layout) && forall x | x in layout :: layout[x] != slot
    ensures Injective(layout[id := slot])
  {
  }

  lemma SpentAdd(layout: Layout, m: Store, m': Store, id: Id, slot: Slot)
    requires Spent(layout, m) && Grows(m, m') && id !in layout
    requires forall x | x in layout && layout[x].chain == slot.chain ::
               layout[x].pos < slot.pos && x in m' && m'[x].revoked
    ensures Spent(layout[id := slot], m')
  {
  }

  lemma OneOwnerAdd(layout: Layout, m: Store, m': Store, id: Id, slot: Slot)
    requires OneOwner(layout, m) && Grows(m, m') && id in m'
    requires forall x | x in layout && layout[x].chain == slot.chain :: x in m' && m'[x].userId == m'[id].userId
    ensures OneOwner(layout[id := slot], m')
  {
  }

  /** What a successful rotation of record `a` does to the store. */
  lemma RotateShape(m: Store, op: Op)
    requires op.Rotate? && op.newId !in m && Verified(m, op.raw, op.now).Some?
    ensures var a, m' := Verified(m, op.raw, op.now).value.0, Apply(m, op);
            && a in m && !m[a].revoked && m'.Keys == m.Keys + {op.newId}
            && m'[a].revoked && m'[op.newId].userId == m[a].userId && !m'[op.newId].revoked
  {
  }

  lemma ChainedIssue(layout: Layout, m: Store, m': Store, roots: seq<Id>, id: Id)
    requires Chained(layout, m, roots) && Grows(m, m') && id !in m && m'.Keys == m.Keys + {id}
    ensures Chained(layout[id := Slot(|roots|, 0)], m', roots + [id])
  {
    var slot := Slot(|roots|, 0);
    RootedIssue(layout, roots, id);
    InjectiveAdd(layout, id, slot);
    SpentAdd(layout, m, m', id, slot);
    OneOwnerAdd(layout, m, m', id, slot);
  }

  /** An unrevoked record has nothing after it in its chain. */
  lemma LiveIsLast(layout: Layout, m: Store, a: Id)
    requires Spent(layout, m) && Injective(layout) && a in layout && a in m && !m[a].revoked
    ensures forall x | x in layout && layout[x].chain == layout[a].chain && x != a ::
              layout[x].pos < layout[a].pos && x in m && m[x].revoked
  {
  }

  lemma ChainedRotate(layout: Layout, m: Store, m': Store, roots: seq<Id>, a: Id, b: Id)
    requires Chained(layout, m, roots) && Grows(m, m') && a in m && !m[a].revoked
    requires b !in m && m'.Keys == m.Keys + {b} && m'[a].revoked && m'[b].userId == m[a].userId
    ensures Chained(layout[b := Slot(layout[a].chain, layout[a].pos + 1)], m', roots)
  {
    var slot := Slot(layout[a].chain, layout[a].pos + 1);
    RootedRotate(layout, roots, a, b);
    LiveIsLast(layout, m, a);
    InjectiveAdd(layout, b, slot);
    SpentAdd(layout, m, m', b, slot);
    OneOwnerAdd(layout, m, m', b, slot);
  }

  lemma ChainStepOther(layout: Layout, roots: seq<Id>, m: Store, op: Op)
    requires Chained(layout, m, roots) && Grows(m, Apply(m, op))
    requires !op.Issue? && !(op.Rotate? && Verified(m, op.raw, op.now).Some?)
    ensures Chained(NextLayout(layout, roots, m, op), Apply(m, op), roots)
  {
    assert Apply(m, op).Keys == m.Keys;
    ChainedGrows(layout, m, Apply(m, op), roots);
    assert NextLayout(layout, roots, m, op) == layout;
  }

  lemma ChainStepRotate(layout: Layout, roots: seq<Id>, m: Store, op: Op)
    requires Chained(layout, m, roots) && Grows(m, Apply(m, op))
    requires op.Rotate? && op.newId !in m && Verified(m, op.raw, op.now).Some?
    ensures Chained(NextLayout(layout, roots, m, op), Apply(m, op), roots)
  {
    var a := Verified(m, op.raw, op.now).value.0;
    RotateShape(m, op);
    assert NextLayout(layout, roots, m, op) == layout[op.newId := Slot(layout[a].chain, layout[a].pos + 1)];
    ChainedRotate(layout, m, Apply(m, op), roots, a, op.newId);
  }

  lemma ChainStep(layout: Layout, roots: seq<Id>, m: Store, op: Op)
    requires Chained(layout, m, roots) && WellFormed(m) && Fresh(m, op)
    ensures Chained(NextLayout(layout, roots, m, op), Apply(m, op), if op.Issue? then roots + [op.id] else roots)
  {
    ApplyKeeps(m, op);
    if op.Issue? {
      ChainedIssue(layout, m, Apply(m, op), roots, op.id);
    } else if op.Rotate? && Verified(m, op.raw, op.now).Some? {
      ChainStepRotate(layout, roots, m, op);
    } else {
      ChainStepOther(layout, roots, m, op);
    }
  }

  /** In every run the records form disjoint linear chains, one per `issue` and
      rooted at it, in which only the last record can be unrevoked. */
  lemma {:induction false} ChainsOfEveryRun(run: Run)
    requires Legal(run)
    ensures Chained(LayoutOf(run), Exec(run), Roots(run))
  {
    if run != [] {
      var n := |run| - 1;
      ChainsOfEveryRun(run[..n]);
      RunKeepsWellFormed(run[..n]);
      ChainStep(LayoutOf(run[..n]), Roots(run[..n]), Exec(run[..n]), run[n]);
    }
  }

  /** The k-th call of the run exchanged record `a` for record `b`. */
  ghost predicate Exchanges(run: Run, k: nat, a: Id, b: Id) {
    && k < |run| && run[k].Rotate? && run[k].newId == b
    && Verified(Exec(run[..k]), run[k].raw, run[k].now).Some?
    && Verified(Exec(run[..k]), run[k].raw, run[k].now).value.0 == a
  }

  ghost predicate Exchanged(run: Run, a: Id, b: Id) {
    exists k: nat :: Exchanges(run, k, a, b)
  }

  ghost predicate Follows(layout: Layout, a: Id, b: Id) {
    a in layout && b in layout && layout[b] == Slot(layout[a].chain, layout[a].pos + 1)
  }

  lemma ExchangedSnoc(run: Run, a: Id, b: Id)
    requires run != []
    ensures Exchanged(run, a, b) <==> Exchanged(run[..|run| - 1], a, b) || Exchanges(run, |run| - 1, a, b)
  {
    var n := |run| - 1;
    forall k: nat | k < n
      ensures Exchanges(run, k, a, b) <==> Exchanges(run[..n], k, a, b)
    {
      assert run[..n][..k] == run[..k];
    }
  }

  lemma FollowsRotate(layout: Layout, m: Store, v: Id, added: Id, a: Id, b: Id)
    requires Injective(layout) && Spent(layout, m) && layout.Keys == m.Keys
    requires v in m && !m[v].revoked && added !in m
    ensures Follows(layout[added := Slot(layout[v].chain, layout[v].pos + 1)], a, b)
            <==> Follows(layout, a, b) || (b == added && a == v)
  {
    LiveIsLast(layout, m, v);
  }

  /** What one call adds to the successor relation of the layout. */
  lemma FollowsStep(layout: Layout, roots: seq<Id>, m: Store, op: Op, a: Id, b: Id)
    requires Chained(layout, m, roots) && Fresh(m, op)
    ensures Follows(NextLayout(layout, roots, m, op), a, b) <==>
            || Follows(layout, a, b)
            || (op.Rotate? && b == op.newId && Verified(m, op.raw, op.now).Some?
                && a == Verified(m, op.raw, op.now).value.0)
  {
    if op.Rotate? && Verified(m, op.raw, op.now).Some? {
      var v := Verified(m, op.raw, op.now).value.0;
      assert NextLayout(layout, roots, m, op) == layout[op.newId := Slot(layout[v].chain, layout[v].pos + 1)];
      FollowsRotate(layout, m, v, op.newId, a, b);
    }
  }

  /** Two records are neighbours in a chain exactly when one call of the run
      exchanged the first for the second. */
  lemma {:induction false} NeighboursAreExchanges(run: Run, a: Id, b: Id)
    requires Legal(run)
    ensures Follows(LayoutOf(run), a, b) <==> Exchanged(run, a, b)
  {
    if run != [] {
      var n := |run| - 1;
      NeighboursAreExchanges(run[..n], a, b);
      ChainsOfEveryRun(run[..n]);
      FollowsStep(LayoutOf(run[..n]), Roots(run[..n]), Exec(run[..n]), run[n], a, b);
      ExchangedSnoc(run, a, b);
    }
  }

  /** The record of an `issue` call stays in the store with the user it was issued to. */
  lemma {:induction false} IssuedOwner(run: Run, k: nat)
    requires Legal(run) && k < |run| && run[k].Issue?
    ensures run[k].id in Exec(run) && Exec(run)[run[k].id].userId == run[k].userId
  {
    var n := |run| - 1;
    if k < n {
      IssuedOwner(run[..n], k);
      RunKeepsWellFormed(run[..n]);
      ApplyKeeps(Exec(run[..n]), run[n]);
    }
  }

  lemma {:induction false} RootIsIssued(run: Run, c: nat) returns (k: nat)
    requires c < |Roots(run)|
    ensures k < |run| && run[k].Issue? && run[k].id == Roots(run)[c]
  {
    var n := |run| - 1;
    if c < |Roots(run[..n])| {
      k := RootIsIssued(run[..n], c);
    } else {
      k := n;
    }
  }

  lemma IssuesSnoc(run: Run, op: Op, users: iset<UserId>)
    ensures IssuesTo(run + [op], users)
            == IssuesTo(run, users) + (if op.Issue? && op.userId in users then 1 else 0)
  {
    assert (run + [op])[..|run|] == run;
  }

  // ----- how long a token is good for -----

  /** The call makes an unrevoked record `id` for this raw token and user, which is good
      until the given time. */
  ghost predicate Makes(m: Store, op: Op, id: Id, raw: RawToken, userId: UserId, made: int, until: int) {
    match op
    case Issue(u, ttl, now, newId, newRaw) =>
      id == newId && raw == newRaw && userId == u && made == now && until == now + ttl
    case Rotate(presented, ttl, now, later, newId, newRaw) =>
      && id == newId && raw == newRaw && made == later && until == later + ttl
      && exists a :: a in m && m[a].tokenHash == Sha256(presented) && m[a].userId == userId
                     && !m[a].revoked && now <= m[a].expiresAt
    case _ => false
  }

  /** The call revokes the record: by its id, with its whole user, by exchanging its
      token while that is good, or by presenting a revoked, unexpired token of its user. */
  ghost predicate Kills(m: Store, op: Op, id: Id) {
    id in m &&
    match op
    case Revoke(other) => other == id
    case RevokeAll(userId) => m[id].userId == userId
    case Rotate(raw, _, now, _, _, _) =>
      exists a :: a in m && m[a].tokenHash == Sha256(raw) && now <= m[a].expiresAt
                  && (a == id || (m[a].revoked && m[a].userId == m[id].userId))
    case _ => false
  }

  ghost predicate KilledIn(run: Run, more: Run, id: Id)
    decreases |more|
  {
    more != [] &&
    var before := more[..|more| - 1];
    KilledIn(run, before, id) || Kills(Exec(run + before), more[|more| - 1], id)
  }

  lemma TheRecord(m: Store, raw: RawToken, a: Id)
    requires WellFormed(m) && a in m && m[a].tokenHash == Sha256(raw)
    ensures Lookup(m, raw) == Some(a)
  {
    assert Holds(m, a, raw);
  }

  lemma KillStepRotate(m: Store, op: Op, id: Id)
    requires WellFormed(m) && Fresh(m, op) && id in m && op.Rotate?
    ensures id in Apply(m, op) && (Apply(m, op)[id].revoked <==> m[id].revoked || Kills(m, op, id))
  {
    if Lookup(m, op.raw).Some? {
      var a := Lookup(m, op.raw).value;
      assert m[a].tokenHash == Sha256(op.raw);
      assert forall b | b in m && m[b].tokenHash == Sha256(op.raw) :: b == a;
    } else {
      assert forall b | b in m :: !Holds(m, b, op.raw);
    }
  }

  /** A call revokes exactly the records it kills. */
  lemma KillStep(m: Store, op: Op, id: Id)
    requires WellFormed(m) && Fresh(m, op) && id in m
    ensures id in Apply(m, op) && (Apply(m, op)[id].revoked <==> m[id].revoked || Kills(m, op, id))
  {
    if op.Rotate? {
      KillStepRotate(m, op, id);
    }
  }

  /** In every continuation a record is revoked exactly when it was, or when some call
      killed it. */
  lemma {:induction false} RevokedIffKilled(run: Run, more: Run, id: Id)
    requires Legal(run + more) && id in Exec(run)
    ensures id in Exec(run + more)
    ensures Exec(run + more)[id].revoked <==> Exec(run)[id].revoked || KilledIn(run, more, id)
    decreases |more|
  {
    if more == [] {
      assert run + more == run;
    } else {
      var before, last := more[..|more| - 1], more[|more| - 1];
      assert run + more == (run + before) + [last];
      ExecSnoc(run + before, last);
      RevokedIffKilled(run, before, id);
      RunKeepsWellFormed(run + before);
      KillStep(Exec(run + before), last, id);
    }
  }

  lemma MadeRecord(m: Store, op: Op, id: Id, raw: RawToken, userId: UserId, made: int, until: int)
    requires WellFormed(m) && Fresh(m, op) && Makes(m, op, id, raw, userId, made, until)
    ensures id in Apply(m, op) && Apply(m, op)[id] == Record(id, userId, Sha256(raw), until, false, made)
  {
    if op.Rotate? {
      var a :| a in m && m[a].tokenHash == Sha256(op.raw) && m[a].userId == userId
                && !m[a].revoked && op.now <= m[a].expiresAt;
      TheRecord(m, op.raw, a);
    }
  }

  /** In every run a token that was handed out is accepted, for its own record and
      user, exactly until its expiry and as long as no call has killed its record. */
  lemma GoodUntilKilled(run: Run, op: Op, more: Run,
                        id: Id, raw: RawToken, userId: UserId, made: int, until: int, t: int)
    requires Legal(run + [op] + more) && Makes(Exec(run), op, id, raw, userId, made, until)
    ensures Verified(Exec(run + [op] + more), raw, t) ==
            if t <= until && !KilledIn(run + [op], more, id) then Some((id, userId)) else None
  {
    LegalPrefix(run + [op], more);
    ExecSnoc(run, op);
    RunKeepsWellFormed(run);
    RunKeepsWellFormed(run + [op] + more);
    MadeRecord(Exec(run), op, id, raw, userId, made, until);
    RevokedIffKilled(run + [op], more, id);
    RunGrows(run + [op], more);
    TheRecord(Exec(run + [op] + more), raw, id);
  }

  /** Everything but the flag stays as it was made. */
  lemma RecordsStayAsMade(run: Run, op: Op, more: Run,
                          id: Id, raw: RawToken, userId: UserId, made: int, until: int)
    requires Legal(run + [op] + more) && Makes(Exec(run), op, id, raw, userId, made, until)
    ensures var m := Exec(run + [op] + more);
            id in m && m[id] == Record(id, userId, Sha256(raw), until, KilledIn(run + [op], more, id), made)
  {
    LegalPrefix(run + [op], more);
    ExecSnoc(run, op);
    RunKeepsWellFormed(run);
    MadeRecord(Exec(run), op, id, raw, userId, made, until);
    RevokedIffKilled(run + [op], more, id);
    RunGrows(run + [op], more);
  }

  /** A rotation makes a record exactly when it hands out the token. */
  lemma RotationMakes(m: Store, op: Op)
    requires WellFormed(m) && op.Rotate?
    ensures var r := Rotated(m, op.raw, op.ttl, op.now, op.later, op.newId, op.newRaw).1;
            && (r.Some? ==> Makes(m, op, op.newId, op.newRaw, r.value.userId, op.later, r.value.expiresAt))
            && (r.None? ==> forall userId, made, until ::
                  !Makes(m, op, op.newId, op.newRaw, userId, made, until))
  {
    if Lookup(m, op.raw).Some? {
      var a := Lookup(m, op.raw).value;
      assert m[a].tokenHash == Sha256(op.raw);
      assert forall b | b in m && m[b].tokenHash == Sha256(op.raw) :: b == a;
    } else {
      assert forall b | b in m :: !Holds(m, b, op.raw);
    }
  }

  // ----- revocation is final -----

  /** A token whose record is revoked is refused in every continuation. */
  lemma RevokedForever(run: Run, more: Run, raw: RawToken, now: int)
    requires Legal(run + more) && Known(Exec(run), raw) && Exec(run)[Lookup(Exec(run), raw).value].revoked
    ensures Verified(Exec(run + more), raw, now) == None
  {
    RunGrows(run, more);
    RunKeepsWellFormed(run);
    RunKeepsWellFormed(run + more);
    LookupStable(Exec(run), Exec(run + more), raw);
  }

  lemma ExchangeRevokes(run: Run, op: Op)
    requires Legal(run + [op]) && op.Rotate? && Verified(Exec(run), op.raw, op.now).Some?
    ensures Known(Exec(run + [op]), op.raw)
    ensures Exec(run + [op])[Lookup(Exec(run + [op]), op.raw).value].revoked
  {
    ExecSnoc(run, op);
    RunKeepsWellFormed(run);
    RunKeepsWellFormed(run + [op]);
    RotateShape(Exec(run), op);
    ApplyKeeps(Exec(run), op);
    assert Holds(Exec(run + [op]), Lookup(Exec(run), op.raw).value, op.raw);
    LookupStable(Exec(run), Exec(run + [op]), op.raw);
  }

  lemma SecondRotationRefused(run: Run, op: Op, between: Run, now: int)
    requires Legal(run + [op] + between) && op.Rotate? && Verified(Exec(run), op.raw, op.now).Some?
    ensures Verified(Exec(run + [op] + between), op.raw, now) == None
  {
    LegalPrefix(run + [op], between);
    ExchangeRevokes(run, op);
    RevokedForever(run + [op], between, op.raw, now);
  }

  /** Each raw token is rotated successfully at most once in a run: if calls i
      and j present the same token and both succeed, they are the same call. */
  lemma RotatesAtMostOnce(run: Run, i: nat, j: nat, a: Id, b: Id, c: Id, d: Id)
    requires Legal(run) && Exchanges(run, i, a, b) && Exchanges(run, j, c, d) && run[i].raw == run[j].raw
    ensures i == j
  {
    if i < j {
      RefusedAfter(run, i, j, run[j].now);
    } else if j < i {
      RefusedAfter(run, j, i, run[i].now);
    }
  }

  lemma RefusedAfter(run: Run, i: nat, j: nat, now: int)
    requires Legal(run) && i < j < |run| && run[i].Rotate?
    requires Verified(Exec(run[..i]), run[i].raw, run[i].now).Some?
    ensures Verified(Exec(run[..j]), run[i].raw, now) == None
  {
    SplitAt(run, i, j);
    LegalPrefix(run[..j], run[j..]);
    SecondRotationRefused(run[..i], run[i], run[i + 1..j], now);
  }

  lemma SplitAt<T>(s: seq<T>, i: nat, j: nat)
    requires i < j < |s|
    ensures s == s[..j] + s[j..]
    ensures s[..j] == s[..i] + [s[i]] + s[i + 1..j]
  {
  }

  ghost function LiveAmong(m: Store, users: iset<UserId>): set<Id> {
    set id | id in m && !m[id].revoked && m[id].userId in users
  }

  /** How many `issue` calls of the run were made for these users. */
  ghost function IssuesTo(run: Run, users: iset<UserId>): nat {
    if run == [] then 0 else
    var n := |run| - 1;
    IssuesTo(run[..n], users) + (if run[n].Issue? && run[n].userId in users then 1 else 0)
  }

  ghost function IssueCalls(run: Run, users: iset<UserId>): set<nat> {
    set k: nat | k < |run| && run[k].Issue? && run[k].userId in users
  }

  lemma {:induction false} IssuesAreCalls(run: Run, users: iset<UserId>)
    ensures IssuesTo(run, users) == |IssueCalls(run, users)|
  {
    if run == [] {
      assert IssueCalls(run, users) == {};
    } else {
      var n := |run| - 1;
      IssuesAreCalls(run[..n], users);
      if run[n].Issue? && run[n].userId in users {
        assert IssueCalls(run, users) == IssueCalls(run[..n], users) + {n};
      } else {
        assert IssueCalls(run, users) == IssueCalls(run[..n], users);
      }
    }
  }

  lemma LiveStepRotate(m: Store, op: Op, users: iset<UserId>)
    requires op.Rotate? && op.newId !in m && Verified(m, op.raw, op.now).Some?
    ensures |LiveAmong(Apply(m, op), users)| <= |LiveAmong(m, users)|
  {
    RotateShape(m, op);
    var a := Verified(m, op.raw, op.now).value.0;
    var s, s' := LiveAmong(m, users), LiveAmong(Apply(m, op), users);
    if m[a].userId in users {
      assert a in s;
      SubsetSize(s', s - {a} + {op.newId});
    } else {
      SubsetSize(s', s);
    }
  }

  lemma LiveStep(m: Store, op: Op, users: iset<UserId>)
    requires Fresh(m, op)
    ensures |LiveAmong(Apply(m, op), users)|
            <= |LiveAmong(m, users)| + (if op.Issue? && op.userId in users then 1 else 0)
  {
    var s, s' := LiveAmong(m, users), LiveAmong(Apply(m, op), users);
    if op.Issue? && op.userId in users {
      SubsetSize(s', s + {op.id});
    } else if op.Rotate? && Verified(m, op.raw, op.now).Some? {
      LiveStepRotate(m, op, users);
    } else {
      SubsetSize(s', s);
    }
  }

  /** Unrevoked records never exceed the `issue` calls, for any set of users. */
  lemma {:induction false} LiveBoundedByIssues(run: Run, users: iset<UserId>)
    requires Legal(run)
    ensures |LiveAmong(Exec(run), users)| <= IssuesTo(run, users)
  {
    if run != [] {
      var n := |run| - 1;
      LiveBoundedByIssues(run[..n], users);
      LiveStep(Exec(run[..n]), run[n], users);
    }
  }

  /** The calls of the run that made a record: issues and successful rotations. */
  ghost function Creations(run: Run): nat {
    if run == [] then 0 else
    var n := |run| - 1;
    Creations(run[..n]) + (if Creates(Exec(run[..n]), run[n]) then 1 else 0)
  }

  ghost predicate Creates(m: Store, op: Op) {
    op.Issue? || (op.Rotate? && Verified(m, op.raw, op.now).Some?)
  }

  lemma StepSize(m: Store, op: Op)
    requires Fresh(m, op)
    ensures |Apply(m, op)| == |m| + (if Creates(m, op) then 1 else 0)
  {
    if op.Issue? {
      assert Apply(m, op).Keys == m.Keys + {op.id};
    } else if Creates(m, op) {
      RotateShape(m, op);
    } else {
      assert Apply(m, op).Keys == m.Keys;
    }
  }

  /** In every run there is one record per issue and per successful
      rotation, as none is ever removed. */
  lemma {:induction false} CountIsCreations(run: Run)
    requires Legal(run)
    ensures |Exec(run)| == Creations(run)
  {
    if run != [] {
      CountIsCreations(run[..|run| - 1]);
      StepSize(Exec(run[..|run| - 1]), run[|run| - 1]);
    }
  }

  /** `count` of a store after any run of calls. */
  method Count(store: RefreshStore, ghost run: Run) returns (n: nat)
    requires Legal(run) && store.tokens == Exec(run)
    ensures n == Creations(run)
  {
    CountIsCreations(run);
    n := |store.tokens|;
  }

  // ----- replay -----

  /** The call presents a token that is revoked but not yet expired. */
  ghost predicate IsReplay(m: Store, op: Op) {
    && op.Rotate? && Lookup(m, op.raw).Some?
    && m[Lookup(m, op.raw).value].revoked && !Expired(m[Lookup(m, op.raw).value], op.now)
  }

  ghost function Victim(m: Store, op: Op): UserId
    requires IsReplay(m, op)
  {
    m[Lookup(m, op.raw).value].userId
  }

  /** A replay leaves the user without an unrevoked record and touches nobody else. */
  lemma ReplayRevokesFamily(m: Store, op: Op)
    requires IsReplay(m, op)
    ensures var m' := Apply(m, op);
            && m'.Keys == m.Keys && LiveOf(m', Victim(m, op)) == {}
            && (forall id | id in m && m[id].userId != Victim(m, op) :: m'[id] == m[id])
            && Rotated(m, op.raw, op.ttl, op.now, op.later, op.newId, op.newRaw).1 == None
  {
  }

  /** After a replay no token the user held before it is accepted again, whatever follows. */
  lemma ReplayIsFinal(run: Run, op: Op, more: Run, raw: RawToken, now: int)
    requires Legal(run + [op] + more) && IsReplay(Exec(run), op)
    requires Known(Exec(run), raw)
    requires Exec(run)[Lookup(Exec(run), raw).value].userId == Victim(Exec(run), op)
    ensures Verified(Exec(run + [op] + more), raw, now) == None
  {
    LegalPrefix(run + [op], more);
    ExecSnoc(run, op);
    RunKeepsWellFormed(run);
    RunKeepsWellFormed(run + [op]);
    ApplyKeeps(Exec(run), op);
    ReplayRevokesFamily(Exec(run), op);
    LookupStable(Exec(run), Exec(run + [op]), raw);
    var id := Lookup(Exec(run), raw).value;
    assert Holds(Exec(run + [op]), id, raw);
    assert id !in LiveOf(Exec(run + [op]), Victim(Exec(run), op));
    RevokedForever(run + [op], more, raw, now);
  }

  /** Presenting a token changes the store exactly when the token is known, has not
      expired and its user holds an unrevoked record, be it this one or another. So an
      expired replay changes nothing, and neither does a second replay in a row. */
  lemma RotateChangesIff(m: Store, op: Op)
    requires op.Rotate? && Fresh(m, op)
    ensures Apply(m, op) != m <==>
            && Lookup(m, op.raw).Some?
            && var record := m[Lookup(m, op.raw).value];
               !Expired(record, op.now) && LiveOf(m, record.userId) != {}
  {
    if Lookup(m, op.raw).Some? {
      var id := Lookup(m, op.raw).value;
      if Expired(m[id], op.now) {
      } else if m[id].revoked {
        RevokeAllChangesIff(m, m[id].userId);
      } else {
        assert id in LiveOf(m, m[id].userId);
        assert op.newId in Apply(m, op);
      }
    }
  }

  lemma RevokeAllChangesIff(m: Store, userId: UserId)
    ensures RevokedUser(m, userId) != m <==> LiveOf(m, userId) != {}
  {
    if LiveOf(m, userId) == {} {
      assert forall id | id in m :: id !in LiveOf(m, userId);
      assert RevokedUser(m, userId) == m;
    } else {
      var id :| id in LiveOf(m, userId);
      assert RevokedUser(m, userId)[id] != m[id];
    }
  }

  // ----- logout -----

  /** A known token that is refused at one time is refused at every later time in
      every continuation. */
  lemma RefusedForever(run: Run, more: Run, raw: RawToken, at: int, now: int)
    requires Legal(run + more) && Known(Exec(run), raw) && Verified(Exec(run), raw, at).None? && at <= now
    ensures Verified(Exec(run + more), raw, now) == None
  {
    RunGrows(run, more);
    RunKeepsWellFormed(run);
    RunKeepsWellFormed(run + more);
    LookupStable(Exec(run), Exec(run + more), raw);
  }

  /** Revoking the record of a token, whatever ran since it was looked up. */
  lemma RevokesTheToken(run: Run, between: Run, raw: RawToken, id: Id)
    requires Legal(run + between + [Revoke(id)]) && Holds(Exec(run), id, raw)
    ensures var m := Exec(run + between + [Revoke(id)]);
            Known(m, raw) && m[Lookup(m, raw).value].revoked
  {
    var done := run + between + [Revoke(id)];
    ExecSnoc(run + between, Revoke(id));
    RunGrows(run, between);
    RunKeepsWellFormed(done);
    assert Holds(Exec(done), id, raw);
  }

  /** Logout verifies the token and, if it is accepted, revokes its record in a
      later step. Once both steps are done the token is never accepted again,
      whatever ran between them and whatever runs afterwards. */
  lemma LogoutIsFinal(run: Run, raw: RawToken, at: int, between: Run, more: Run, now: int)
    requires Known(Exec(run), raw)
    requires Legal(run + between + LogoutSecondStep(Exec(run), raw, at) + more) && at <= now
    ensures Verified(Exec(run + between + LogoutSecondStep(Exec(run), raw, at) + more), raw, now) == None
  {
    var v, last := Verified(Exec(run), raw, at), LogoutSecondStep(Exec(run), raw, at);
    if v.Some? {
      LegalPrefix(run + between + last, more);
      RevokesTheToken(run, between, raw, v.value.0);
      RevokedForever(run + between + last, more, raw, now);
    } else {
      assert run + between + last + more == run + (between + more);
      RefusedForever(run, between + more, raw, at, now);
    }
  }

  ghost function LogoutSecondStep(m: Store, raw: RawToken, at: int): Run {
    match Verified(m, raw, at)
    case None => []
    case Some(v) => [Revoke(v.0)]
  }
}
