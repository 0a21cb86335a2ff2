/** The readiness cache: one call, every interleaving of calls, and calls in sequence. */
module Readiness {
  import opened Prelude

  datatype Name = Name(text: string)

  datatype Status = Healthy | Unhealthy

  // Instants are counted in nanoseconds.
  const READINESS_CACHE_TTL: nat := 10_000_000_000

  datatype Entry = Entry(status: Status, at: nat)

  type Cache = map<Name, Entry>

  /** `now.duration_since(earlier)`, which is zero when `earlier` lies ahead. */
  function Since(now: nat, earlier: nat): nat {
    if now >= earlier then now - earlier else 0
  }

  predicate Stale(cache: Cache, name: Name, now: nat) {
    name !in cache || Since(now, cache[name].at) > READINESS_CACHE_TTL
  }

  /** The clusters to ping, in configuration order. */
  function ToProbe(clients: seq<Name>, cache: Cache, now: nat): seq<Name> {
    if clients == [] then [] else
    var n := |clients| - 1;
    ToProbe(clients[..n], cache, now) + (if Stale(cache, clients[n], now) then [clients[n]] else [])
  }

  /** The cache after the results are written one by one. */
  function Written(cache: Cache, names: seq<Name>, results: seq<Entry>): Cache
    requires |names| == |results|
  {
    if names == [] then cache else
    var n := |names| - 1;
    Written(cache, names[..n], results[..n])[names[n] := results[n]]
  }

  function Statuses(cache: Cache): map<Name, Status> {
    map n | n in cache :: cache[n].status
  }

  datatype Snapshot = Snapshot(clusters: map<Name, Status>, checkedAt: nat) {
    predicate AllHealthy() {
      forall n | n in clusters :: clusters[n].Healthy?
    }
  }

  lemma {:induction false} ToProbeIs(clients: seq<Name>, cache: Cache, now: nat)
    ensures forall n :: n in ToProbe(clients, cache, now) <==> n in clients && Stale(cache, n, now)
  {
    if clients != [] {
      ToProbeIs(clients[..|clients| - 1], cache, now);
      assert clients == clients[..|clients| - 1] + [clients[|clients| - 1]];
    }
  }

  lemma CountSnoc(names: seq<Name>, last: Name, name: Name)
    ensures multiset(names + [last])[name] == multiset(names)[name] + (if last == name then 1 else 0)
  {
  }

  lemma StaleIff(cache: Cache, name: Name, now: nat)
    ensures Stale(cache, name, now) <==> name !in cache || now > cache[name].at + 10_000_000_000
  {
  }

  /** Each configured client is pinged once if it is stale and not at all otherwise. */
  lemma {:induction false} ProbedOnce(clients: seq<Name>, cache: Cache, now: nat, name: Name)
    ensures multiset(ToProbe(clients, cache, now))[name] ==
            if name in cache && now <= cache[name].at + 10_000_000_000 then 0 else multiset(clients)[name]
  {
    if clients != [] {
      var n := |clients| - 1;
      ProbedOnce(clients[..n], cache, now, name);
      StaleIff(cache, name, now);
      CountSnoc(clients[..n], clients[n], name);
      CountSnoc(ToProbe(clients[..n], cache, now), clients[n], name);
      assert clients == clients[..n] + [clients[n]];
      ToProbeLast(clients, cache, now);
    }
  }

  lemma ToProbeLast(clients: seq<Name>, cache: Cache, now: nat)
    requires clients != []
    ensures var n := |clients| - 1;
            ToProbe(clients, cache, now) ==
            if Stale(cache, clients[n], now) then ToProbe(clients[..n], cache, now) + [clients[n]]
            else ToProbe(clients[..n], cache, now)
  {
  }

  /** The cache holds the last result written for a name, status and time. */
  lemma {:induction false} LastResultStays(cache: Cache, names: seq<Name>, results: seq<Entry>, i: nat)
    requires i < |names| == |results| && forall j | i < j < |names| :: names[j] != names[i]
    ensures names[i] in Written(cache, names, results) && Written(cache, names, results)[names[i]] == results[i]
  {
    if i < |names| - 1 {
      LastResultStays(cache, names[..|names| - 1], results[..|names| - 1], i);
    }
  }

  /** Results carry the time they are written, none earlier than `from`, in order. */
  ghost predicate Stamped(results: seq<Entry>, from: nat, to: nat) {
    && from <= to
    && (forall i | 0 <= i < |results| :: from <= results[i].at <= to)
    && (forall i, j | 0 <= i <= j < |results| :: results[i].at <= results[j].at)
  }

  /** Writing covers the names written, leaves the others alone, and only moves times forward. */
  lemma {:induction false} WrittenFacts(cache: Cache, names: seq<Name>, results: seq<Entry>, from: nat, to: nat)
    requires |names| == |results| && Stamped(results, from, to)
    requires forall n | n in cache :: cache[n].at <= from
    ensures var cache' := Written(cache, names, results);
            && (forall n :: n in cache' <==> n in cache || n in names)
            && (forall n | n in names :: n in cache' && from <= cache'[n].at)
            && (forall n | n in cache && n !in names :: n in cache' && cache'[n] == cache[n])
            && (forall n | n in cache :: n in cache' && cache[n].at <= cache'[n].at)
            && (forall n | n in cache' :: cache'[n].at <= to)
  {
    if names != [] {
      var k := |names| - 1;
      WrittenFacts(cache, names[..k], results[..k], from, to);
      assert names == names[..k] + [names[k]];
    }
  }

  // ----- one call -----

  class AppState {
    const clients: seq<Name>
    var cache: Cache

    constructor (clients: seq<Name>)
      ensures this.clients == clients && cache == map[]
    {
      this.clients := clients;
      cache := map[];
    }

    /** The pings and the times at which their results are written are `results`. */
    method Readiness(now: nat, results: seq<Entry>) returns (snapshot: Snapshot)
      requires |results| == |ToProbe(clients, cache, now)|
      modifies this
      ensures cache == Written(old(cache), ToProbe(clients, old(cache), now), results)
      ensures snapshot == Snapshot(Statuses(cache), now)
    {
      var toProbe: seq<Name> := [];
      for i := 0 to |clients|
        invariant toProbe == ToProbe(clients[..i], cache, now)
      {
        assert clients[..i + 1][..i] == clients[..i];
        if clients[i] !in cache || Since(now, cache[clients[i]].at) > READINESS_CACHE_TTL {
          toProbe := toProbe + [clients[i]];
        }
      }
      assert clients[..|clients|] == clients;
      if toProbe != [] {
        for i := 0 to |toProbe|
          invariant cache == Written(old(cache), toProbe[..i], results[..i])
        {
          assert toProbe[..i + 1][..i] == toProbe[..i] && results[..i + 1][..i] == results[..i];
          cache := cache[toProbe[i] := results[i]];
        }
        assert toProbe[..|toProbe|] == toProbe && results[..|toProbe|] == results;
      }
      snapshot := Snapshot(Statuses(cache), now);
    }
  }

  // ----- every interleaving -----

  type Caller = nat

  datatype Pc =
    | Began(now: nat)                            // clock read, cache not yet
    | Probing(now: nat, toProbe: seq<Name>)      // pings in flight
    | Ready(now: nat)                            // nothing left to write
    | Done(snapshot: Snapshot)

  datatype State = State(clients: seq<Name>, clock: nat, cache: Cache, pc: map<Caller, Pc>)

  datatype Step =
    | Tick(to: nat)
    | Begin(c: Caller, now: nat)
    | Scan(c: Caller)
    | Write(c: Caller, results: seq<Entry>, until: nat)
    | Finish(c: Caller)

  ghost predicate Enabled(s: State, step: Step) {
    match step
    case Tick(to) => s.clock <= to
    case Begin(c, now) => c !in s.pc && now <= s.clock
    case Scan(c) => c in s.pc && s.pc[c].Began?
    case Write(c, results, until) =>
      && c in s.pc && s.pc[c].Probing? && |results| == |s.pc[c].toProbe|
      && Stamped(results, s.clock, until)
    case Finish(c) => c in s.pc && s.pc[c].Ready?
  }

  ghost function Effect(s: State, step: Step): State
    requires Enabled(s, step)
  {
    match step
    case Tick(to) => s.(clock := to)
    case Begin(c, now) => s.(pc := s.pc[c := Began(now)])
    case Scan(c) =>
      var toProbe := ToProbe(s.clients, s.cache, s.pc[c].now);
      s.(pc := s.pc[c := if toProbe == [] then Ready(s.pc[c].now) else Probing(s.pc[c].now, toProbe)])
    case Write(c, results, until) =>
      s.(cache := Written(s.cache, s.pc[c].toProbe, results), clock := until, pc := s.pc[c := Ready(s.pc[c].now)])
    case Finish(c) => s.(pc := s.pc[c := Done(Snapshot(Statuses(s.cache), s.pc[c].now))])
  }

  ghost function Next(s: State, step: Step): State {
    if Enabled(s, step) then Effect(s, step) else s
  }

  ghost function After(clients: seq<Name>, run: seq<Step>): State {
    if run == [] then State(clients, 0, map[], map[])
    else Next(After(clients, run[..|run| - 1]), run[|run| - 1])
  }

  ghost predicate FreshFor(cache: Cache, name: Name, now: nat) {
    name in cache && cache[name].at + READINESS_CACHE_TTL >= now
  }

  ghost predicate CacheInv(s: State) {
    forall n | n in s.cache :: n in s.clients && s.cache[n].at <= s.clock
  }

  /** What a caller past its scan can count on. */
  ghost predicate CallerInv(s: State, pc: Pc) {
    match pc
    case Began(now) => now <= s.clock
    case Probing(now, toProbe) =>
      && now <= s.clock && (forall n | n in toProbe :: n in s.clients)
      && (forall n | n in s.clients && n !in toProbe :: FreshFor(s.cache, n, now))
    case Ready(now) => forall n | n in s.clients :: FreshFor(s.cache, n, now)
    case Done(snapshot) => snapshot.clusters.Keys == set n | n in s.clients
  }

  ghost predicate Inv(s: State) {
    CacheInv(s) && forall c | c in s.pc :: CallerInv(s, s.pc[c])
  }

  lemma ScanKeeps(s: State, c: Caller)
    requires Inv(s) && Enabled(s, Scan(c))
    ensures Inv(Next(s, Scan(c)))
  {
    ToProbeIs(s.clients, s.cache, s.pc[c].now);
  }

  lemma WriteKeeps(s: State, c: Caller, results: seq<Entry>, until: nat)
    requires Inv(s) && Enabled(s, Write(c, results, until))
    ensures Inv(Next(s, Write(c, results, until)))
  {
    WrittenFacts(s.cache, s.pc[c].toProbe, results, s.clock, until);
    assert CallerInv(s, s.pc[c]);
  }

  lemma FinishKeeps(s: State, c: Caller)
    requires Inv(s) && Enabled(s, Finish(c))
    ensures Inv(Next(s, Finish(c)))
  {
    assert CallerInv(s, s.pc[c]);
    assert Statuses(s.cache).Keys == set n | n in s.clients;
  }

  lemma {:induction false} EveryInterleaving(clients: seq<Name>, run: seq<Step>)
    ensures Inv(After(clients, run)) && After(clients, run).clients == clients
  {
    if run != [] {
      var s, step := After(clients, run[..|run| - 1]), run[|run| - 1];
      EveryInterleaving(clients, run[..|run| - 1]);
      if Enabled(s, step) {
        match step
        case Scan(c) => ScanKeeps(s, c);
        case Write(c, results, until) => WriteKeeps(s, c, results, until);
        case Finish(c) => FinishKeeps(s, c);
        case _ =>
      }
    }
  }

  /** In every interleaving the snapshot a caller takes covers exactly the
      configured clusters, each with a status recorded no earlier than the time it
      reports minus the TTL, and it is healthy exactly when each of those is. */
  lemma SnapshotsAreFresh(clients: seq<Name>, run: seq<Step>, c: Caller)
    requires Enabled(After(clients, run), Finish(c))
    ensures var s := After(clients, run);
            var snapshot := Next(s, Finish(c)).pc[c].snapshot;
            && snapshot.checkedAt == s.pc[c].now
            && (forall n :: n in snapshot.clusters <==> n in clients)
            && (forall n | n in clients ::
                  && n in s.cache && snapshot.clusters[n] == s.cache[n].status
                  && s.cache[n].at + 10_000_000_000 >= snapshot.checkedAt)
            && (snapshot.AllHealthy() <==> forall n | n in clients :: s.cache[n].status.Healthy?)
  {
    EveryInterleaving(clients, run);
    var s := After(clients, run);
    assert CallerInv(s, s.pc[c]);
    var snapshot := Next(s, Finish(c)).pc[c].snapshot;
    assert forall n | n in clients :: FreshFor(s.cache, n, s.pc[c].now);
  }

  /** A call that nobody interrupts takes its steps in the machine whatever the state,
      and ends with what the method computes: for any clock reading so far and any
      results written later, in order. */
  lemma UninterruptedCall(s: State, c: Caller, now: nat, results: seq<Entry>, until: nat)
    requires c !in s.pc && now <= s.clock <= until
    requires |results| == |ToProbe(s.clients, s.cache, now)|
    requires forall i | 0 <= i < |results| :: s.clock <= results[i].at <= until
    requires forall i, j | 0 <= i < j < |results| :: results[i].at <= results[j].at
    ensures var s2 := Next(Next(s, Begin(c, now)), Scan(c));
            var s3 := if results == [] then s2 else Next(s2, Write(c, results, until));
            var cache := Written(s.cache, ToProbe(s.clients, s.cache, now), results);
            && Enabled(s3, Finish(c)) && s3.cache == cache
            && Next(s3, Finish(c)).pc[c] == Done(Snapshot(Statuses(cache), now))
            && (results != [] ==> s3.clock == until)
  {
  }

  /** Time passes as it likes. */
  lemma TimePasses(s: State, to: nat)
    requires s.clock <= to
    ensures Next(s, Tick(to)) == s.(clock := to)
  {
  }

  // ----- calls in sequence -----

  datatype Call = Call(now: nat, results: seq<Entry>, until: nat)

  /** The cache, the time, and every result recorded so far. */
  datatype History = History(cache: Cache, time: nat, log: set<(Name, nat)>)

  ghost predicate Allowed(clients: seq<Name>, h: History, call: Call) {
    && h.time <= call.now && |call.results| == |ToProbe(clients, h.cache, call.now)|
    && Stamped(call.results, call.now, call.until)
  }

  ghost function Performed(clients: seq<Name>, h: History, call: Call): History
    requires |call.results| == |ToProbe(clients, h.cache, call.now)|
  {
    var names := ToProbe(clients, h.cache, call.now);
    History(Written(h.cache, names, call.results), call.until,
            h.log + set i | 0 <= i < |names| :: (names[i], call.results[i].at))
  }

  /** The history after a sequence of calls; a call whose clock or results make no
      sense is no call. */
  ghost function Played(clients: seq<Name>, calls: seq<Call>): History {
    if calls == [] then History(map[], 0, {}) else
    var before, call := Played(clients, calls[..|calls| - 1]), calls[|calls| - 1];
    if Allowed(clients, before, call) then Performed(clients, before, call) else before
  }

  lemma AllowedIf(clients: seq<Name>, h: History, call: Call)
    requires h.time <= call.now <= call.until && |call.results| == |ToProbe(clients, h.cache, call.now)|
    requires forall i | 0 <= i < |call.results| :: call.now <= call.results[i].at <= call.until
    requires forall i, j | 0 <= i < j < |call.results| :: call.results[i].at <= call.results[j].at
    ensures Allowed(clients, h, call)
  {
  }

  /** Any later call with results in order goes on from what there is. */
  lemma CallAppends(clients: seq<Name>, calls: seq<Call>, call: Call)
    requires var h := Played(clients, calls);
             h.time <= call.now <= call.until && |call.results| == |ToProbe(clients, h.cache, call.now)|
    requires forall i | 0 <= i < |call.results| :: call.now <= call.results[i].at <= call.until
    requires forall i, j | 0 <= i < j < |call.results| :: call.results[i].at <= call.results[j].at
    ensures Played(clients, calls + [call]) == Performed(clients, Played(clients, calls), call)
  {
    assert (calls + [call])[..|calls|] == calls;
    AllowedIf(clients, Played(clients, calls), call);
  }

  /** The cache holds, for exactly the clusters recorded, the latest of their results. */
  ghost predicate Latest(h: History) {
    && (forall e | e in h.log :: e.0 in h.cache && e.1 <= h.cache[e.0].at)
    && (forall n | n in h.cache :: (n, h.cache[n].at) in h.log && h.cache[n].at <= h.time)
  }

  ghost predicate WrittenAt(names: seq<Name>, results: seq<Entry>, i: int, n: Name, e: Entry) {
    0 <= i < |names| == |results| && names[i] == n && results[i] == e
  }

  ghost predicate WrittenBy(names: seq<Name>, results: seq<Entry>, n: Name, e: Entry) {
    exists i :: WrittenAt(names, results, i, n, e)
  }

  lemma {:induction false} WrittenLatest(cache: Cache, names: seq<Name>, results: seq<Entry>, from: nat, to: nat)
    requires |names| == |results| && Stamped(results, from, to)
    ensures var cache' := Written(cache, names, results);
            forall i | 0 <= i < |names| :: names[i] in cache' && results[i].at <= cache'[names[i]].at
  {
    if names != [] {
      WrittenLatest(cache, names[..|names| - 1], results[..|names| - 1], from, to);
    }
  }

  /** Every entry of the cache was there before or is one of the results. */
  lemma {:induction false} WrittenSource(cache: Cache, names: seq<Name>, results: seq<Entry>, n: Name)
    requires |names| == |results| && n in Written(cache, names, results)
    ensures var e := Written(cache, names, results)[n];
            (n in cache && e == cache[n]) || WrittenBy(names, results, n, e)
  {
    if names != [] {
      var k, e := |names| - 1, Written(cache, names, results)[n];
      if n == names[k] {
        assert WrittenAt(names, results, k, n, e);
      } else {
        WrittenSource(cache, names[..k], results[..k], n);
        if WrittenBy(names[..k], results[..k], n, e) {
          var i :| WrittenAt(names[..k], results[..k], i, n, e);
          assert WrittenAt(names, results, i, n, e);
        }
      }
    }
  }

  lemma PerformKeepsLatest(clients: seq<Name>, h: History, call: Call)
    requires Latest(h) && Allowed(clients, h, call)
    ensures Latest(Performed(clients, h, call))
  {
    var names := ToProbe(clients, h.cache, call.now);
    var h' := Performed(clients, h, call);
    WrittenFacts(h.cache, names, call.results, call.now, call.until);
    WrittenLatest(h.cache, names, call.results, call.now, call.until);
    forall n | n in h'.cache
      ensures (n, h'.cache[n].at) in h'.log
    {
      WrittenSource(h.cache, names, call.results, n);
      if WrittenBy(names, call.results, n, h'.cache[n]) {
        var i :| WrittenAt(names, call.results, i, n, h'.cache[n]);
        assert (names[i], call.results[i].at) in h'.log;
      }
    }
  }

  lemma {:induction false} CallsKeepLatest(clients: seq<Name>, calls: seq<Call>)
    ensures Latest(Played(clients, calls))
  {
    if calls != [] {
      var before, call := Played(clients, calls[..|calls| - 1]), calls[|calls| - 1];
      CallsKeepLatest(clients, calls[..|calls| - 1]);
      if Allowed(clients, before, call) {
        PerformKeepsLatest(clients, before, call);
      }
    }
  }

  /** In sequential use a cluster is pinged exactly when more than a TTL has
      passed since every result ever recorded for it. */
  lemma ReprobedIffTtlPassed(clients: seq<Name>, calls: seq<Call>, now: nat, name: Name)
    requires Played(clients, calls).time <= now && name in clients
    ensures var h := Played(clients, calls);
            name in ToProbe(clients, h.cache, now) <==>
            forall e | e in h.log && e.0 == name :: now > e.1 + 10_000_000_000
  {
    var h := Played(clients, calls);
    CallsKeepLatest(clients, calls);
    ToProbeIs(clients, h.cache, now);
    if name in h.cache {
      assert (name, h.cache[name].at) in h.log;
    }
  }
}
