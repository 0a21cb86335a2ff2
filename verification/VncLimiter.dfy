/** The lock-free slot limiter of the VNC proxy: the limiter object, and every
    interleaving of the atomic steps of any number of callers. */
module VncLimiter {
  import opened Prelude

  // ----- the limiter -----

  class VncConnectionLimiter {
    var used: nat
    const cap: nat

    ghost predicate Valid()
      reads this
    {
      used <= cap < U32_MODULUS
    }

    constructor (cap: nat)
      requires cap < U32_MODULUS
      ensures Valid() && used == 0 && this.cap == cap
    {
      this.cap := cap;
      used := 0;
    }

    /** `rivals[i]` is the counter value that other callers leave just before the
        i-th swap of this call; when they are used up nobody else interferes. */
    method TryAcquire(rivals: seq<nat>) returns (acquired: bool, failed: nat)
      requires Valid() && forall i | 0 <= i < |rivals| :: rivals[i] <= cap
      modifies this
      ensures Valid()
      ensures (acquired, used, failed) == Attempt(old(used), cap, rivals)
    {
      failed := 0;
      while true
        invariant Valid() && failed <= |rivals|
        invariant var rest := Attempt(used, cap, rivals[failed..]);
                  (rest.0, rest.1, rest.2 + failed) == Attempt(old(used), cap, rivals)
        decreases |rivals| - failed
      {
        var cur := used;
        if cur >= cap {
          return false, failed;
        }
        if failed < |rivals| {
          used := rivals[failed];
        }
        if used == cur {
          used := cur + 1;
          return true, failed;
        }
        assert rivals[failed..][1..] == rivals[failed + 1..];
        failed := failed + 1;
      }
    }

    /** Dropping a guard: `fetch_sub` wraps at zero. */
    method Release()
      modifies this
      ensures used == Decremented(old(used))
      ensures old(used) > 0 ==> used == old(used) - 1
      ensures old(used) == 0 ==> used == 0xFFFF_FFFF
    {
      used := if used == 0 then U32_MODULUS - 1 else used - 1;
    }
  }

  function Decremented(used: nat): nat {
    if used == 0 then U32_MODULUS - 1 else used - 1
  }

  /** What one call sees: whether it gets a slot, the counter it leaves, its failed swaps. */
  function Attempt(used: nat, cap: nat, rivals: seq<nat>): (bool, nat, nat)
    decreases |rivals|
  {
    if used >= cap then (false, used, 0)
    else if rivals == [] || rivals[0] == used then (true, used + 1, 0)
    else var rest := Attempt(rivals[0], cap, rivals[1..]); (rest.0, rest.1, rest.2 + 1)
  }

  /** How often the counter differs from the value it had before. */
  function Changes(used: nat, rivals: seq<nat>): nat
    decreases |rivals|
  {
    if rivals == [] then 0
    else (if rivals[0] == used then 0 else 1) + Changes(rivals[0], rivals[1..])
  }

  /** A call swaps in vain no more often than others change the counter under it. It
      is refused only at the cap; it succeeds only when the counter still held the
      value it had loaded, and then leaves that plus one. */
  lemma {:induction false} AttemptOutcome(used: nat, cap: nat, rivals: seq<nat>)
    requires used <= cap && forall i | 0 <= i < |rivals| :: rivals[i] <= cap
    ensures var r := Attempt(used, cap, rivals);
            && r.1 <= cap && r.2 <= Changes(used, rivals) && r.2 <= |rivals|
            && var seen := if r.2 == 0 then used else rivals[r.2 - 1];
               if r.0 then seen < cap && r.1 == seen + 1 && (r.2 == |rivals| || rivals[r.2] == seen)
               else seen == cap && r.1 == seen
    decreases |rivals|
  {
    if used < cap && rivals != [] && rivals[0] != used {
      AttemptOutcome(rivals[0], cap, rivals[1..]);
    }
  }

  // ----- all interleavings -----

  type Caller = nat

  /** Where a call of `try_acquire` stands, up to the drop of its guard. */
  datatype Pc =
    | Loading
    | Loaded(cur: nat)
    | Refused
    | Holding
    | Released

  datatype State = State(cap: nat, used: nat, pc: map<Caller, Pc>)

  datatype Step =
    | Call(t: Caller)   // a new call begins
    | Load(t: Caller)   // read the counter, give up if it is at the cap
    | Swap(t: Caller)   // compare_exchange(cur, cur + 1)
    | Drop(t: Caller)   // the guard goes out of scope

  type Run = seq<Step>

  predicate Enabled(s: State, step: Step) {
    match step
    case Call(t) => t !in s.pc
    case Load(t) => t in s.pc && s.pc[t].Loading?
    case Swap(t) => t in s.pc && s.pc[t].Loaded?
    case Drop(t) => t in s.pc && s.pc[t].Holding?
  }

  function Next(s: State, step: Step): State
    requires Enabled(s, step)
  {
    match step
    case Call(t) => s.(pc := s.pc[t := Loading])
    case Load(t) => s.(pc := s.pc[t := if s.used >= s.cap then Refused else Loaded(s.used)])
    case Swap(t) =>
      if s.used == s.pc[t].cur
      then s.(used := (s.pc[t].cur + 1) % U32_MODULUS, pc := s.pc[t := Holding])
      else s.(pc := s.pc[t := Loading])
    case Drop(t) => s.(used := Decremented(s.used), pc := s.pc[t := Released])
  }

  function Init(cap: nat): State {
    State(cap, 0, map[])
  }

  /** The state after the run; a step that is not possible is no step. */
  ghost function After(cap: nat, run: Run): State {
    if run == [] then Init(cap) else
    var s := After(cap, run[..|run| - 1]);
    if Enabled(s, run[|run| - 1]) then Next(s, run[|run| - 1]) else s
  }

  /** Every step of the run was possible when it was taken. */
  ghost predicate Possible(cap: nat, run: Run) {
    run == [] ||
    (Possible(cap, run[..|run| - 1]) && Enabled(After(cap, run[..|run| - 1]), run[|run| - 1]))
  }

  /** The callers whose guard is live. */
  ghost function Live(s: State): set<Caller> {
    set t | t in s.pc && s.pc[t].Holding?
  }

  /** The counter is the number of live guards, at most the cap, and a caller
      about to swap has seen a value below the cap. */
  ghost predicate Inv(s: State) {
    && s.used == |Live(s)| <= s.cap < U32_MODULUS
    && forall t | t in s.pc && s.pc[t].Loaded? :: s.pc[t].cur < s.cap
  }

  lemma SwapKeepsInv(s: State, t: Caller)
    requires Inv(s) && Enabled(s, Swap(t))
    ensures Inv(Next(s, Swap(t)))
  {
    var s' := Next(s, Swap(t));
    if s.used == s.pc[t].cur {
      assert Live(s') == Live(s) + {t};
    } else {
      assert Live(s') == Live(s);
    }
  }

  lemma DropKeepsInv(s: State, t: Caller)
    requires Inv(s) && Enabled(s, Drop(t))
    ensures Inv(Next(s, Drop(t)))
    ensures s.used > 0 && Next(s, Drop(t)).used == s.used - 1
  {
    assert t in Live(s) && Live(Next(s, Drop(t))) == Live(s) - {t};
  }

  lemma StepKeepsInv(s: State, step: Step)
    requires Inv(s) && Enabled(s, step)
    ensures Inv(Next(s, step)) && Next(s, step).cap == s.cap
  {
    match step
    case Call(t) =>
      assert Live(Next(s, step)) == Live(s);
    case Load(t) =>
      assert Live(Next(s, step)) == Live(s);
    case Swap(t) =>
      SwapKeepsInv(s, t);
    case Drop(t) =>
      DropKeepsInv(s, t);
  }

  /** In every interleaving the counter equals the live guards and never exceeds the cap. */
  lemma {:induction false} CounterIsLiveGuards(cap: nat, run: Run)
    requires Possible(cap, run) && cap < U32_MODULUS
    ensures Inv(After(cap, run)) && After(cap, run).cap == cap
  {
    if run != [] {
      var before := run[..|run| - 1];
      CounterIsLiveGuards(cap, before);
      StepKeepsInv(After(cap, before), run[|run| - 1]);
    }
  }

  /** In every interleaving a drop finds the counter positive, and a refusal was
      decided while exactly cap guards were live. */
  lemma DropsAndRefusals(cap: nat, run: Run, step: Step)
    requires Possible(cap, run + [step]) && cap < U32_MODULUS
    ensures Possible(cap, run) && Enabled(After(cap, run), step)
    ensures var s, s' := After(cap, run), After(cap, run + [step]);
            && (step.Drop? ==> s.used > 0 && s'.used == s.used - 1)
            && (step.Load? ==> (s'.pc[step.t].Refused? <==> |Live(s)| == cap))
  {
    assert (run + [step])[..|run|] == run;
    CounterIsLiveGuards(cap, run);
    if step.Drop? {
      DropKeepsInv(After(cap, run), step.t);
    }
  }

  // ----- the limiter takes the steps -----

  /** What the steps of other callers come to: only the counter differs. */
  ghost predicate OthersMoved(s: State, s': State, t: Caller) {
    s' == s.(used := s'.used, pc := s'.pc) && t in s.pc && t in s'.pc && s'.pc[t] == s.pc[t]
  }

  lemma OthersLeaveCaller(s: State, step: Step, t: Caller)
    requires Enabled(s, step) && step.t != t && t in s.pc
    ensures OthersMoved(s, Next(s, step), t)
  {
  }

  /** One call of `try_acquire` as steps of the machine: a load, the rivals' change of
      the counter, a swap, and again from the load when the swap fails. */
  ghost function Played(s: State, t: Caller, rivals: seq<nat>): (State, nat)
    requires Enabled(s, Load(t))
    decreases |rivals|
  {
    var loaded := Next(s, Load(t));
    if !Enabled(loaded, Swap(t)) then (loaded, 0) else
    var disturbed := if rivals == [] then loaded else loaded.(used := rivals[0]);
    var swapped := Next(disturbed, Swap(t));
    if rivals != [] && Enabled(swapped, Load(t)) then
      var rest := Played(swapped, t, rivals[1..]);
      (rest.0, rest.1 + 1)
    else (swapped, 0)
  }

  /** The limiter's method, whose outcome is `Attempt`, takes exactly those steps. */
  lemma {:induction false} AttemptIsPlayed(s: State, t: Caller, rivals: seq<nat>)
    requires Enabled(s, Load(t)) && s.used <= s.cap < U32_MODULUS
    requires forall i | 0 <= i < |rivals| :: rivals[i] <= s.cap
    ensures var (end, failed) := Played(s, t, rivals);
            && t in end.pc && (end.pc[t].Holding? || end.pc[t].Refused?)
            && Attempt(s.used, s.cap, rivals) == (end.pc[t].Holding?, end.used, failed)
    decreases |rivals|
  {
    var loaded := Next(s, Load(t));
    if Enabled(loaded, Swap(t)) && rivals != [] && rivals[0] != s.used {
      AttemptIsPlayed(Next(loaded.(used := rivals[0]), Swap(t)), t, rivals[1..]);
    }
  }

  // ----- progress -----

  /** The step changes the counter. */
  ghost predicate ChangesCounter(s: State, step: Step)
    requires Enabled(s, step)
  {
    Next(s, step).used != s.used
  }

  /** The failed swaps of one caller. */
  ghost function Failures(cap: nat, run: Run, t: Caller): nat
    requires Possible(cap, run)
  {
    if run == [] then 0 else
    var n := |run| - 1;
    var s := After(cap, run[..n]);
    Failures(cap, run[..n], t)
    + (if run[n] == Swap(t) && Next(s, run[n]).pc[t].Loading? then 1 else 0)
  }

  /** The counter changes made by everybody else. */
  ghost function RivalChanges(cap: nat, run: Run, t: Caller): nat
    requires Possible(cap, run)
  {
    if run == [] then 0 else
    var n := |run| - 1;
    var s := After(cap, run[..n]);
    RivalChanges(cap, run[..n], t)
    + (if run[n].t != t && ChangesCounter(s, run[n]) then 1 else 0)
  }

  /** The n-th step was another caller's and changed the counter. */
  ghost predicate IsRivalStep(cap: nat, run: Run, t: Caller, n: nat) {
    n < |run| && run[n].t != t && After(cap, run[..n + 1]).used != After(cap, run[..n]).used
  }

  ghost function RivalSteps(cap: nat, run: Run, t: Caller): set<nat> {
    Below(|run|, (n: nat) => IsRivalStep(cap, run, t, n))
  }

  lemma RivalStepStays(cap: nat, run: Run, t: Caller, k: nat, n: nat)
    requires n < k <= |run|
    ensures IsRivalStep(cap, run[..k], t, n) <==> IsRivalStep(cap, run, t, n)
  {
    assert run[..k][..n] == run[..n] && run[..k][..n + 1] == run[..n + 1];
  }

  lemma LastRivalStep(cap: nat, run: Run, t: Caller)
    requires Possible(cap, run) && run != []
    ensures var n := |run| - 1;
            RivalChanges(cap, run, t) == RivalChanges(cap, run[..n], t) + (if IsRivalStep(cap, run, t, n) then 1 else 0)
  {
    assert run[..|run|] == run;
  }

  lemma {:induction false} RivalChangesAreSteps(cap: nat, run: Run, t: Caller)
    requires Possible(cap, run)
    ensures RivalChanges(cap, run, t) == |RivalSteps(cap, run, t)|
  {
    if run == [] {
      assert RivalSteps(cap, run, t) == {};
    } else {
      var k := |run| - 1;
      var before := run[..k];
      RivalChangesAreSteps(cap, before, t);
      LastRivalStep(cap, run, t);
      forall n: nat | n < k
        ensures IsRivalStep(cap, before, t, n) <==> IsRivalStep(cap, run, t, n)
      {
        RivalStepStays(cap, run, t, k, n);
      }
      BelowSnoc(k, (n: nat) => IsRivalStep(cap, before, t, n), (n: nat) => IsRivalStep(cap, run, t, n));
    }
  }

  /** The caller's next swap is bound to fail. */
  ghost predicate Stale(s: State, t: Caller) {
    t in s.pc && s.pc[t].Loaded? && s.pc[t].cur != s.used
  }

  /** One caller's failed swaps are at most the counter changes made by the
      others; a swap that is already bound to fail is paid for as well. */
  lemma {:induction false} FailuresArePaidFor(cap: nat, run: Run, t: Caller)
    requires Possible(cap, run) && cap < U32_MODULUS
    ensures Failures(cap, run, t) + (if Stale(After(cap, run), t) then 1 else 0) <= RivalChanges(cap, run, t)
  {
    if run != [] {
      FailuresArePaidFor(cap, run[..|run| - 1], t);
      CounterIsLiveGuards(cap, run[..|run| - 1]);
    }
  }

  // ----- what the cap does not bound -----

  /** The calls whose handler has returned. The handler holds the guard and hands the
      socket to a task of its own, so this is when the guard drops and the console
      opens. */
  ghost function Opened(s: State): set<Caller> {
    set t | t in s.pc && s.pc[t].Released?
  }

  lemma HandlerRound(s: State, t: Caller)
    requires Inv(s) && s.used == 0 && 0 < s.cap && t !in s.pc
    ensures var s1 := Next(s, Call(t));
            Enabled(s1, Load(t)) &&
            var s2 := Next(s1, Load(t));
            Enabled(s2, Swap(t)) &&
            var s3 := Next(s2, Swap(t));
            Enabled(s3, Drop(t)) &&
            var s4 := Next(s3, Drop(t));
            s4.used == 0 && s4.pc == s.pc[t := Released]
  {
  }

  lemma AfterSnoc(cap: nat, run: Run, step: Step)
    requires Possible(cap, run) && Enabled(After(cap, run), step)
    ensures Possible(cap, run + [step]) && After(cap, run + [step]) == Next(After(cap, run), step)
  {
    assert (run + [step])[..|run|] == run;
  }

  /** With a cap of zero every call is refused. */
  lemma {:induction false} NothingGetsIn(run: Run)
    requires Possible(0, run)
    ensures forall t | t in After(0, run).pc :: After(0, run).pc[t].Loading? || After(0, run).pc[t].Refused?
  {
    if run != [] {
      NothingGetsIn(run[..|run| - 1]);
      CounterIsLiveGuards(0, run[..|run| - 1]);
    }
  }

  /** The cap bounds the open consoles of every run exactly when it is zero. */
  lemma CapBoundsConsolesIff(cap: nat)
    requires cap < U32_MODULUS
    ensures (forall run | Possible(cap, run) :: |Opened(After(cap, run))| <= cap) <==> cap == 0
  {
    if cap == 0 {
      forall run | Possible(cap, run)
        ensures |Opened(After(cap, run))| <= cap
      {
        NothingGetsIn(run);
        assert Opened(After(cap, run)) == {};
      }
    } else {
      var run := ConsolesUnbounded(cap, cap + 1);
      assert Possible(cap, run) && |Opened(After(cap, run))| > cap;
    }
  }

  /** Any number of consoles can be open at once while no guard is live, whatever the positive cap. */
  lemma {:induction false} ConsolesUnbounded(cap: nat, n: nat) returns (run: Run)
    requires 0 < cap < U32_MODULUS
    ensures Possible(cap, run) && After(cap, run).used == 0 && Live(After(cap, run)) == {}
    ensures |Opened(After(cap, run))| == n
    ensures forall t | t in After(cap, run).pc :: t < n && After(cap, run).pc[t].Released?
  {
    if n == 0 {
      run := [];
    } else {
      var t := n - 1;
      run := ConsolesUnbounded(cap, n - 1);
      var s := After(cap, run);
      CounterIsLiveGuards(cap, run);
      HandlerRound(s, t);
      AfterSnoc(cap, run, Call(t));
      AfterSnoc(cap, run + [Call(t)], Load(t));
      AfterSnoc(cap, run + [Call(t)] + [Load(t)], Swap(t));
      AfterSnoc(cap, run + [Call(t)] + [Load(t)] + [Swap(t)], Drop(t));
      run := run + [Call(t)] + [Load(t)] + [Swap(t)] + [Drop(t)];
      assert Opened(After(cap, run)) == Opened(s) + {t};
    }
  }
}
