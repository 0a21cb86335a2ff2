/** The circuit breaker used one call at a time: a function of the event trace. */
module SequentialBreaker {
  import opened Prelude

  datatype CircuitState = Closed | Open | HalfOpen

  /** What `state()` reports; the subtraction wraps like the u64 it is. */
  function Reported(openedAt: nat, cooldown: nat, now: nat): CircuitState {
    if openedAt == 0 then Closed
    else if (now - openedAt) % U64_MODULUS >= cooldown then HalfOpen
    else Open
  }

  datatype Breaker = Breaker(failureCount: nat, openedAt: nat)

  datatype Event = Success | Failure(now: nat)

  /** One recorded event: the counter wraps at 2^32, and so does the sum that is
      compared with the threshold. */
  function Recorded(b: Breaker, threshold: nat, e: Event): Breaker {
    match e
    case Success => Breaker(0, 0)
    case Failure(now) =>
      var count := (b.failureCount + 1) % U32_MODULUS;
      Breaker(count, if count >= threshold then now else b.openedAt)
  }

  class CircuitBreaker {
    const failureThreshold: nat
    const cooldown: nat
    var failureCount: nat
    var openedAt: nat

    ghost function View(): Breaker
      reads this
    {
      Breaker(failureCount, openedAt)
    }

    constructor (failureThreshold: nat, cooldown: nat)
      ensures View() == Breaker(0, 0)
      ensures this.failureThreshold == failureThreshold && this.cooldown == cooldown
    {
      this.failureThreshold := failureThreshold;
      this.cooldown := cooldown;
      failureCount, openedAt := 0, 0;
    }

    method CurrentState(now: nat) returns (r: CircuitState)
      ensures r == Reported(openedAt, cooldown, now)
    {
      var loaded := openedAt;
      if loaded == 0 {
        return Closed;
      }
      if (now - loaded) % U64_MODULUS >= cooldown {
        return HalfOpen;
      }
      return Open;
    }

    method AllowRequest(now: nat) returns (ok: bool)
      ensures ok <==> Reported(openedAt, cooldown, now) != Open
    {
      var r := CurrentState(now);
      match r
      case Closed => ok := true;
      case HalfOpen => ok := true;
      case Open => ok := false;
    }

    method RecordSuccess()
      modifies this
      ensures View() == Recorded(old(View()), failureThreshold, Success)
    {
      failureCount := 0;
      openedAt := 0;
    }

    method RecordFailure(now: nat)
      modifies this
      ensures View() == Recorded(old(View()), failureThreshold, Failure(now))
    {
      failureCount := (failureCount + 1) % U32_MODULUS;
      var count := failureCount;
      if count >= failureThreshold {
        openedAt := now;
      }
    }
  }

  // ----- the trace -----

  type Trace = seq<Event>

  ghost function After(threshold: nat, trace: Trace): Breaker {
    if trace == [] then Breaker(0, 0)
    else Recorded(After(threshold, trace[..|trace| - 1]), threshold, trace[|trace| - 1])
  }

  /** Failures since the last success. */
  ghost function Streak(trace: Trace): nat {
    if trace == [] || trace[|trace| - 1].Success? then 0
    else 1 + Streak(trace[..|trace| - 1])
  }

  /** The time of the last failure of a non-empty streak. */
  ghost function LastFailure(trace: Trace): nat
    requires Streak(trace) > 0
  {
    trace[|trace| - 1].now
  }

  /** The failures of the trace carry positive times, none later than `now`. Their
      order in time does not matter. */
  ghost predicate Dated(trace: Trace, now: nat) {
    forall i | 0 <= i < |trace| && trace[i].Failure? :: 0 < trace[i].now <= now
  }

  /** No streak of the trace is long enough to wrap the counter. */
  ghost predicate NoOverflow(trace: Trace) {
    trace == [] || (NoOverflow(trace[..|trace| - 1]) && Streak(trace) < U32_MODULUS)
  }

  /** A threshold of zero acts like one: only a failure can open the breaker. */
  function Effective(threshold: nat): nat {
    if threshold == 0 then 1 else threshold
  }

  /** What the breaker should say, from the trace alone. */
  ghost function Expected(threshold: nat, cooldown: nat, trace: Trace, now: nat): CircuitState {
    if Streak(trace) < Effective(threshold) then Closed
    else if now < LastFailure(trace) + cooldown then Open
    else HalfOpen
  }

  lemma {:induction false} CellsOfTrace(threshold: nat, trace: Trace)
    requires NoOverflow(trace)
    ensures After(threshold, trace).failureCount == Streak(trace)
    ensures After(threshold, trace).openedAt ==
            if Streak(trace) >= Effective(threshold) then LastFailure(trace) else 0
  {
    if trace != [] {
      CellsOfTrace(threshold, trace[..|trace| - 1]);
    }
  }

  /** Without any bound on the trace: the counter is the streak modulo 2^32. */
  lemma {:induction false} CountIsStreakModulo(threshold: nat, trace: Trace)
    ensures After(threshold, trace).failureCount == Streak(trace) % 0x1_0000_0000
  {
    if trace != [] {
      CountIsStreakModulo(threshold, trace[..|trace| - 1]);
    }
  }

  /** And a counter that wraps does not close the breaker: it is Closed exactly when
      fewer than threshold failures follow the last success. */
  lemma {:induction false} ClosedIffShortStreak(threshold: nat, trace: Trace, now: nat)
    requires threshold < 0x1_0000_0000 && Dated(trace, now)
    ensures After(threshold, trace).openedAt == 0 <==> Streak(trace) < Effective(threshold)
  {
    if trace != [] {
      var before := trace[..|trace| - 1];
      ClosedIffShortStreak(threshold, before, now);
      CountIsStreakModulo(threshold, before);
      CountIsStreakModulo(threshold, trace);
    }
  }

  /** A clock that reads earlier than the stored time: the difference wraps, so the
      breaker lets calls through unless the cooldown is almost 2^64 seconds. */
  lemma ClockBehind(openedAt: nat, cooldown: nat, now: nat)
    requires now < openedAt < 0x1_0000_0000_0000_0000
    ensures Reported(openedAt, cooldown, now) ==
            if cooldown + (openedAt - now) <= 0x1_0000_0000_0000_0000 then HalfOpen else Open
  {
    assert (now - openedAt) % U64_MODULUS == now - openedAt + U64_MODULUS;
  }

  /** For every trace, threshold and cooldown the breaker is Closed exactly when
      fewer than threshold failures follow the last success; otherwise it is Open
      until cooldown whole seconds after the last failure, and then HalfOpen. */
  lemma BreakerFollowsTrace(threshold: nat, cooldown: nat, trace: Trace, now: nat)
    requires NoOverflow(trace) && Dated(trace, now) && now < U64_MODULUS
    ensures Reported(After(threshold, trace).openedAt, cooldown, now) == Expected(threshold, cooldown, trace, now)
  {
    CellsOfTrace(threshold, trace);
    if Streak(trace) > 0 {
      var last := trace[|trace| - 1];
      assert last.Failure? && 0 < last.now <= now;
    }
  }
}

/** The breaker under every interleaving of its atomic steps. */
module InterleavedBreaker {
  import opened Prelude
  import opened SB = SequentialBreaker

  type Caller = nat

  /** Where a call stands. A failure past the threshold carries the indices in
      the run of its own increment and of its clock read. */
  datatype Pc =
    | Idle
    | Asked(openedAt: nat)                 // state(): opened_at loaded, not 0
    | Answered(answer: CircuitState)       // state(): done
    | Clearing                             // record_success: counter stored
    | Counted(seen: nat, at: nat)          // record_failure: threshold reached
    | Timed(now: nat, at: nat, readAt: nat) // record_failure: clock read

  datatype State = State(
    threshold: nat, cooldown: nat,
    clock: nat, failureCount: nat, openedAt: nat, pc: map<Caller, Pc>,
    steps: nat,          // steps taken so far
    latestRead: nat,     // the latest clock value any failure has read
    origin: nat,         // the increment behind openedAt, if it is not 0
    originRead: nat)     // and the clock read that gave its value

  datatype Step =
    | Tick(to: nat)
    | LoadOpened(t: Caller)
    | ReadClockAndAnswer(t: Caller)
    | ClearCount(t: Caller)
    | ClearOpened(t: Caller)
    | Increment(t: Caller)
    | ReadClock(t: Caller)
    | StoreOpened(t: Caller)

  type Run = seq<Step>

  function At(s: State, t: Caller): Pc {
    if t in s.pc then s.pc[t] else Idle
  }

  predicate Free(pc: Pc) {
    pc.Idle? || pc.Answered?
  }

  predicate Enabled(s: State, step: Step) {
    match step
    case Tick(to) => s.clock <= to
    case LoadOpened(t) => Free(At(s, t))
    case ReadClockAndAnswer(t) => At(s, t).Asked?
    case ClearCount(t) => Free(At(s, t))
    case ClearOpened(t) => At(s, t).Clearing?
    case Increment(t) => Free(At(s, t))
    case ReadClock(t) => At(s, t).Counted?
    case StoreOpened(t) => At(s, t).Timed?
  }

  function Effect(s: State, step: Step): State
    requires Enabled(s, step)
  {
    match step
    case Tick(to) => s.(clock := to)
    case LoadOpened(t) =>
      s.(pc := s.pc[t := if s.openedAt == 0 then Answered(Closed) else Asked(s.openedAt)])
    case ReadClockAndAnswer(t) =>
      s.(pc := s.pc[t := Answered(Reported(At(s, t).openedAt, s.cooldown, s.clock))])
    case ClearCount(t) => s.(failureCount := 0, pc := s.pc[t := Clearing])
    case ClearOpened(t) => s.(openedAt := 0, pc := s.pc[t := Idle])
    case Increment(t) =>
      var count := (s.failureCount + 1) % U32_MODULUS;
      s.(failureCount := count,
         pc := s.pc[t := if count >= s.threshold then Counted(count, s.steps) else Idle])
    case ReadClock(t) =>
      s.(pc := s.pc[t := Timed(s.clock, At(s, t).at, s.steps)],
         latestRead := if s.latestRead < s.clock then s.clock else s.latestRead)
    case StoreOpened(t) =>
      s.(openedAt := At(s, t).now, origin := At(s, t).at, originRead := At(s, t).readAt,
         pc := s.pc[t := Idle])
  }

  function Next(s: State, step: Step): State {
    if Enabled(s, step) then Effect(s, step).(steps := s.steps + 1) else s.(steps := s.steps + 1)
  }

  function Init(threshold: nat, cooldown: nat): State {
    State(threshold, cooldown, 1, 0, 0, map[], 0, 0, 0, 0)
  }

  ghost function After(threshold: nat, cooldown: nat, run: Run): State {
    if run == [] then Init(threshold, cooldown)
    else Next(After(threshold, cooldown, run[..|run| - 1]), run[|run| - 1])
  }

  // ----- time -----

  /** No stored, loaded or read time is ahead of the clock, nor later than the
      latest time a failure has read. */
  ghost predicate TimeInv(s: State) {
    && s.openedAt <= s.latestRead <= s.clock && 0 < s.clock
    && (forall t | t in s.pc && s.pc[t].Asked? :: 0 < s.pc[t].openedAt <= s.latestRead)
    && (forall t | t in s.pc && s.pc[t].Timed? :: 0 < s.pc[t].now <= s.latestRead)
  }

  lemma StepKeepsTime(s: State, step: Step)
    requires TimeInv(s)
    ensures TimeInv(Next(s, step))
    ensures Next(s, step).threshold == s.threshold && Next(s, step).cooldown == s.cooldown
  {
  }

  lemma {:induction false} TimesNeverAhead(threshold: nat, cooldown: nat, run: Run)
    ensures TimeInv(After(threshold, cooldown, run))
    ensures After(threshold, cooldown, run).threshold == threshold
    ensures After(threshold, cooldown, run).cooldown == cooldown
  {
    if run != [] {
      TimesNeverAhead(threshold, cooldown, run[..|run| - 1]);
      StepKeepsTime(After(threshold, cooldown, run[..|run| - 1]), run[|run| - 1]);
    }
  }

  /** The time that the last clock read of a failure gave; 0 before any. */
  ghost function LastRead(threshold: nat, cooldown: nat, run: Run): nat {
    if run == [] then 0 else
    var before, step := run[..|run| - 1], run[|run| - 1];
    var s := After(threshold, cooldown, before);
    if step.ReadClock? && Enabled(s, step) then s.clock else LastRead(threshold, cooldown, before)
  }

  lemma {:induction false} LatestIsLast(threshold: nat, cooldown: nat, run: Run)
    ensures After(threshold, cooldown, run).latestRead == LastRead(threshold, cooldown, run)
  {
    if run != [] {
      LatestIsLast(threshold, cooldown, run[..|run| - 1]);
      TimesNeverAhead(threshold, cooldown, run[..|run| - 1]);
    }
  }

  /** In every interleaving the subtraction in `state()` does not underflow, and
      a caller is let through once cooldown has passed since the latest time any
      failure read. */
  lemma AnswersAreSafe(threshold: nat, cooldown: nat, run: Run, t: Caller)
    requires var s := After(threshold, cooldown, run); At(s, t).Asked? && s.clock < U64_MODULUS
    ensures var s := After(threshold, cooldown, run);
            var answer := Next(s, ReadClockAndAnswer(t)).pc[t].answer;
            && At(s, t).openedAt <= s.clock
            && (answer == Open <==> s.clock - At(s, t).openedAt < cooldown)
            && answer != Closed
            && (s.clock - LastRead(threshold, cooldown, run) >= cooldown ==> answer != Open)
  {
    TimesNeverAhead(threshold, cooldown, run);
    LatestIsLast(threshold, cooldown, run);
  }

  // ----- a call that nobody interrupts -----

  lemma StateCall(s: State, t: Caller)
    requires Free(At(s, t))
    ensures var s1 := Next(s, LoadOpened(t));
            var s2 := if At(s1, t).Asked? then Next(s1, ReadClockAndAnswer(t)) else s1;
            At(s2, t) == Answered(Reported(s.openedAt, s.cooldown, s.clock))
            && s2.failureCount == s.failureCount && s2.openedAt == s.openedAt
  {
  }

  lemma SuccessCall(s: State, t: Caller)
    requires Free(At(s, t))
    ensures var s2 := Next(Next(s, ClearCount(t)), ClearOpened(t));
            Breaker(s2.failureCount, s2.openedAt)
            == Recorded(Breaker(s.failureCount, s.openedAt), s.threshold, Success) && At(s2, t) == Idle
  {
  }

  /** The steps of a call, taken together, are the call of the sequential breaker. */
  lemma FailureCall(s: State, t: Caller)
    requires Free(At(s, t))
    ensures var s1 := Next(s, Increment(t));
            var s3 := if At(s1, t).Counted? then Next(Next(s1, ReadClock(t)), StoreOpened(t)) else s1;
            Breaker(s3.failureCount, s3.openedAt)
            == Recorded(Breaker(s.failureCount, s.openedAt), s.threshold, Failure(s.clock)) && At(s3, t) == Idle
  {
    var s1 := Next(s, Increment(t));
    if At(s1, t).Counted? {
      var s2 := Next(s1, ReadClock(t));
      assert At(s2, t).Timed? && At(s2, t).now == s.clock;
    }
  }

  // ----- why the breaker is open -----

  function NextIncrements(s: State, before: nat, step: Step): nat {
    if !Enabled(s, step) then before
    else if step.ClearCount? then 0
    else if step.Increment? then before + 1
    else before
  }

  /** Increments of the counter since it was last stored to zero. */
  ghost function Increments(threshold: nat, cooldown: nat, run: Run): nat {
    if run == [] then 0 else
    var n := |run| - 1;
    NextIncrements(After(threshold, cooldown, run[..n]), Increments(threshold, cooldown, run[..n]), run[n])
  }

  /** The counter never wraps. */
  ghost predicate NoOverflow(threshold: nat, cooldown: nat, run: Run) {
    run == [] ||
    (NoOverflow(threshold, cooldown, run[..|run| - 1]) && Increments(threshold, cooldown, run) < U32_MODULUS)
  }

  /** The i-th step was taken and was the caller's increment, and it saw at least
      threshold of them since a reset. */
  ghost predicate Justifies(threshold: nat, cooldown: nat, run: Run, t: Caller, i: nat) {
    && i < |run| && run[i] == Increment(t) && Enabled(After(threshold, cooldown, run[..i]), run[i])
    && Increments(threshold, cooldown, run[..i + 1]) >= threshold
  }

  /** The same caller later read this time from the clock, as the j-th step. */
  ghost predicate TimeRead(threshold: nat, cooldown: nat, run: Run, t: Caller, i: nat, j: nat, now: nat) {
    && i < j < |run| && Justifies(threshold, cooldown, run, t, i)
    && run[j] == ReadClock(t) && Enabled(After(threshold, cooldown, run[..j]), run[j])
    && After(threshold, cooldown, run[..j]).clock == now
  }

  ghost predicate CountInv(run: Run, s: State) {
    s.failureCount == Increments(s.threshold, s.cooldown, run) && s.steps == |run|
  }

  /** The opening time, if any, was read by a justified failure. */
  ghost predicate OriginInv(run: Run, s: State) {
    s.openedAt != 0 ==>
      exists t :: TimeRead(s.threshold, s.cooldown, run, t, s.origin, s.originRead, s.openedAt)
  }

  ghost predicate CallerInv(run: Run, s: State, t: Caller) {
    match At(s, t)
    case Counted(_, at) => Justifies(s.threshold, s.cooldown, run, t, at)
    case Timed(now, at, readAt) => TimeRead(s.threshold, s.cooldown, run, t, at, readAt, now)
    case _ => true
  }

  ghost predicate CauseInv(run: Run, s: State) {
    CountInv(run, s) && OriginInv(run, s) && forall t :: CallerInv(run, s, t)
  }

  lemma JustifiesStays(threshold: nat, cooldown: nat, run: Run, step: Step, t: Caller, i: nat)
    requires Justifies(threshold, cooldown, run, t, i)
    ensures Justifies(threshold, cooldown, run + [step], t, i)
  {
    assert (run + [step])[..i + 1] == run[..i + 1] && (run + [step])[..i] == run[..i];
  }

  lemma TimeReadStays(threshold: nat, cooldown: nat, run: Run, step: Step, t: Caller, i: nat, j: nat, now: nat)
    requires TimeRead(threshold, cooldown, run, t, i, j, now)
    ensures TimeRead(threshold, cooldown, run + [step], t, i, j, now)
  {
    JustifiesStays(threshold, cooldown, run, step, t, i);
    assert (run + [step])[..j] == run[..j];
  }

  lemma CounterStep(s: State, n: nat, step: Step)
    requires s.failureCount == n && NextIncrements(s, n, step) < U32_MODULUS
    ensures Next(s, step).failureCount == NextIncrements(s, n, step)
    ensures Next(s, step).steps == s.steps + 1
  {
  }

  lemma OriginStep(run: Run, s: State, step: Step)
    requires OriginInv(run, s) && forall t :: CallerInv(run, s, t)
    ensures OriginInv(run + [step], Next(s, step))
  {
    var s' := Next(s, step);
    if s'.openedAt != 0 {
      var t: Caller;
      if step.StoreOpened? && Enabled(s, step) {
        t := step.t;
        assert CallerInv(run, s, t);
      } else {
        t :| TimeRead(s.threshold, s.cooldown, run, t, s.origin, s.originRead, s.openedAt);
      }
      TimeReadStays(s.threshold, s.cooldown, run, step, t, s'.origin, s'.originRead, s'.openedAt);
    }
  }

  /** A caller that does not move keeps what it knows. */
  lemma CallerWaits(run: Run, s: State, step: Step, t: Caller)
    requires CallerInv(run, s, t) && At(Next(s, step), t) == At(s, t)
    ensures CallerInv(run + [step], Next(s, step), t)
  {
    match At(s, t)
    case Counted(_, at) =>
      JustifiesStays(s.threshold, s.cooldown, run, step, t, at);
    case Timed(now, at, readAt) =>
      TimeReadStays(s.threshold, s.cooldown, run, step, t, at, readAt, now);
    case _ =>
  }

  lemma CallerCounts(run: Run, s: State, t: Caller)
    requires CountInv(run, s) && s == After(s.threshold, s.cooldown, run)
    requires Enabled(s, Increment(t)) && s.failureCount + 1 < U32_MODULUS
    ensures CallerInv(run + [Increment(t)], Next(s, Increment(t)), t)
  {
    var run' := run + [Increment(t)];
    assert run'[..|run|] == run && run'[..|run| + 1] == run';
  }

  lemma CallerReads(run: Run, s: State, t: Caller)
    requires CountInv(run, s) && CallerInv(run, s, t) && s == After(s.threshold, s.cooldown, run)
    requires Enabled(s, ReadClock(t))
    ensures CallerInv(run + [ReadClock(t)], Next(s, ReadClock(t)), t)
  {
    var run' := run + [ReadClock(t)];
    assert run'[..|run|] == run;
    JustifiesStays(s.threshold, s.cooldown, run, ReadClock(t), t, At(s, t).at);
  }

  lemma CallerStep(run: Run, s: State, step: Step, t: Caller)
    requires CountInv(run, s) && CallerInv(run, s, t) && s == After(s.threshold, s.cooldown, run)
    requires NextIncrements(s, s.failureCount, step) < U32_MODULUS
    ensures CallerInv(run + [step], Next(s, step), t)
  {
    if At(Next(s, step), t) == At(s, t) {
      CallerWaits(run, s, step, t);
    } else if step.Increment? {
      CallerCounts(run, s, t);
    } else if step.ReadClock? {
      CallerReads(run, s, t);
    }
  }

  lemma CauseStep(run: Run, s: State, step: Step)
    requires CauseInv(run, s) && s == After(s.threshold, s.cooldown, run)
    requires NextIncrements(s, s.failureCount, step) < U32_MODULUS
    ensures CauseInv(run + [step], Next(s, step))
  {
    assert (run + [step])[..|run|] == run;
    CounterStep(s, s.failureCount, step);
    OriginStep(run, s, step);
    forall t: Caller
      ensures CallerInv(run + [step], Next(s, step), t)
    {
      CallerStep(run, s, step, t);
    }
  }

  /** In every interleaving without counter overflow, the stored opening time is 0
      or was read by a failure whose own increment saw at least threshold
      increments since the counter was last reset. */
  lemma {:induction false} OpeningsAreJustified(threshold: nat, cooldown: nat, run: Run)
    requires NoOverflow(threshold, cooldown, run)
    ensures CauseInv(run, After(threshold, cooldown, run))
  {
    if run != [] {
      var before := run[..|run| - 1];
      OpeningsAreJustified(threshold, cooldown, before);
      TimesNeverAhead(threshold, cooldown, before);
      CauseStep(before, After(threshold, cooldown, before), run[|run| - 1]);
      assert run == before + [run[|run| - 1]];
    }
  }

  // ----- calls that do not overlap -----

  predicate Failing(pc: Pc) {
    pc.Counted? || pc.Timed?
  }

  /** The failures in flight: counted, but with their time not yet stored. */
  ghost function InFlight(s: State): set<Caller> {
    set t | t in s.pc && Failing(s.pc[t])
  }

  /** No success has cleared the counter but not yet the time. */
  ghost predicate NoneClearing(s: State) {
    forall t | t in s.pc :: !s.pc[t].Clearing?
  }

  /** The step lets no success overlap a failure; successes may overlap each other,
      and so may failures. */
  ghost predicate KeepsApart(s: State, step: Step) {
    Enabled(s, step) ==>
      && (step.Increment? ==> NoneClearing(s))
      && (step.ClearCount? ==> InFlight(s) == {})
  }

  ghost predicate Apart(threshold: nat, cooldown: nat, run: Run) {
    run == [] ||
    (Apart(threshold, cooldown, run[..|run| - 1])
     && KeepsApart(After(threshold, cooldown, run[..|run| - 1]), run[|run| - 1]))
  }

  /** The call that a step completes. A failure below the threshold is complete with
      its increment and reads no clock; it is dated by the time of that step. */
  function Completion(s: State, step: Step): seq<Event> {
    if !Enabled(s, step) then [] else
    match step
    case ClearOpened(_) => [Success]
    case Increment(_) => if (s.failureCount + 1) % U32_MODULUS < s.threshold then [Failure(s.clock)] else []
    case StoreOpened(t) => [Failure(At(s, t).now)]
    case _ => []
  }

  /** The calls of the run in the order in which they complete. */
  ghost function Completed(threshold: nat, cooldown: nat, run: Run): Trace {
    if run == [] then [] else
    var n := |run| - 1;
    Completed(threshold, cooldown, run[..n]) + Completion(After(threshold, cooldown, run[..n]), run[n])
  }

  /** How the cells relate to those of a breaker `b` that took the completed calls one
      at a time: the time is the same, and the counter is ahead by the failures in
      flight, all of which will reach the threshold. */
  ghost predicate Linked(s: State, b: Breaker) {
    && s.openedAt == b.openedAt
    && (NoneClearing(s) ==> s.failureCount == b.failureCount + |InFlight(s)|)
    && (!NoneClearing(s) ==> s.failureCount == 0 && InFlight(s) == {})
    && (InFlight(s) != {} ==> b.failureCount + 1 >= s.threshold)
  }

  lemma TraceSnoc(threshold: nat, trace: Trace, e: Event)
    requires SB.NoOverflow(trace) && (e.Failure? ==> SB.After(threshold, trace).failureCount + 1 < U32_MODULUS)
    ensures SB.After(threshold, trace + [e]) == Recorded(SB.After(threshold, trace), threshold, e)
    ensures SB.NoOverflow(trace + [e])
  {
    assert (trace + [e])[..|trace|] == trace;
    CellsOfTrace(threshold, trace);
  }

  /** A failure below the threshold: none is in flight, and it is complete at once. */
  lemma LinkedBelow(s: State, b: Breaker, t: Caller)
    requires Linked(s, b) && Enabled(s, Increment(t)) && NoneClearing(s)
    requires s.failureCount + 1 < s.threshold && s.failureCount + 1 < U32_MODULUS
    ensures Linked(Next(s, Increment(t)), Recorded(b, s.threshold, Failure(s.clock)))
    ensures b.failureCount + 1 < U32_MODULUS
  {
    var s' := Next(s, Increment(t));
    assert InFlight(s) == {};
    assert InFlight(s') == {};
    assert NoneClearing(s');
  }

  lemma LinkedReaching(s: State, b: Breaker, t: Caller)
    requires Linked(s, b) && Enabled(s, Increment(t)) && NoneClearing(s)
    requires s.threshold <= s.failureCount + 1 < U32_MODULUS
    ensures Linked(Next(s, Increment(t)), b)
  {
    var s' := Next(s, Increment(t));
    assert InFlight(s') == InFlight(s) + {t};
    assert NoneClearing(s');
  }

  lemma LinkedStore(s: State, b: Breaker, t: Caller)
    requires Linked(s, b) && Enabled(s, StoreOpened(t)) && s.failureCount < U32_MODULUS
    ensures Linked(Next(s, StoreOpened(t)), Recorded(b, s.threshold, Failure(At(s, t).now)))
    ensures b.failureCount + 1 <= s.failureCount
  {
    var s' := Next(s, StoreOpened(t));
    assert t in InFlight(s) && InFlight(s') == InFlight(s) - {t};
    assert NoneClearing(s');
  }

  lemma LinkedClear(s: State, b: Breaker, step: Step)
    requires Linked(s, b) && Enabled(s, step) && KeepsApart(s, step)
    requires step.ClearCount? || step.ClearOpened?
    ensures Linked(Next(s, step), if step.ClearOpened? then Breaker(0, 0) else b)
  {
    var s' := Next(s, step);
    assert InFlight(s) == {};
    assert InFlight(s') == {};
    assert step.ClearCount? ==> s'.pc[step.t].Clearing?;
  }

  lemma LinkedQuiet(s: State, b: Breaker, step: Step)
    requires Linked(s, b)
    requires !Enabled(s, step) || step.Tick? || step.LoadOpened? || step.ReadClockAndAnswer? || step.ReadClock?
    ensures Linked(Next(s, step), b)
  {
    var s' := Next(s, step);
    assert InFlight(s') == InFlight(s);
    if !NoneClearing(s) {
      var c :| c in s.pc && s.pc[c].Clearing?;
      assert c in s'.pc && s'.pc[c].Clearing?;
    } else {
      assert NoneClearing(s');
    }
  }

  /** The breaker after the call that a step completes, if it completes one. */
  function Advanced(b: Breaker, threshold: nat, done: seq<Event>): Breaker {
    if done == [] then b else Recorded(b, threshold, done[0])
  }

  lemma LinkedNext(s: State, b: Breaker, step: Step)
    requires Linked(s, b) && KeepsApart(s, step)
    requires s.failureCount < U32_MODULUS && NextIncrements(s, s.failureCount, step) < U32_MODULUS
    ensures Linked(Next(s, step), Advanced(b, s.threshold, Completion(s, step)))
    ensures Completion(s, step) != [] && Completion(s, step)[0].Failure? ==> b.failureCount + 1 < U32_MODULUS
  {
    if !Enabled(s, step) {
      LinkedQuiet(s, b, step);
    } else if step.Increment? {
      if s.failureCount + 1 < s.threshold {
        LinkedBelow(s, b, step.t);
      } else {
        LinkedReaching(s, b, step.t);
      }
    } else if step.StoreOpened? {
      LinkedStore(s, b, step.t);
    } else if step.ClearCount? || step.ClearOpened? {
      LinkedClear(s, b, step);
    } else {
      LinkedQuiet(s, b, step);
    }
  }

  lemma LinkedStep(s: State, trace: Trace, step: Step)
    requires SB.NoOverflow(trace) && Linked(s, SB.After(s.threshold, trace)) && KeepsApart(s, step)
    requires s.failureCount < U32_MODULUS && NextIncrements(s, s.failureCount, step) < U32_MODULUS
    ensures var trace' := trace + Completion(s, step);
            SB.NoOverflow(trace') && Linked(Next(s, step), SB.After(s.threshold, trace'))
  {
    var done := Completion(s, step);
    LinkedNext(s, SB.After(s.threshold, trace), step);
    if done == [] {
      assert trace + done == trace;
    } else {
      TraceSnoc(s.threshold, trace, done[0]);
      assert done == [done[0]];
    }
  }

  lemma DatedStep(s: State, trace: Trace, step: Step)
    requires TimeInv(s) && Dated(trace, s.clock)
    ensures Dated(trace + Completion(s, step), Next(s, step).clock)
  {
  }

  /** In every run in which no success overlaps a failure, the cells are linked to
      those of the sequential breaker on the calls in order of completion. */
  lemma {:induction false} ApartRunsAreLinked(threshold: nat, cooldown: nat, run: Run)
    requires NoOverflow(threshold, cooldown, run) && Apart(threshold, cooldown, run)
    ensures var s, trace := After(threshold, cooldown, run), Completed(threshold, cooldown, run);
            Linked(s, SB.After(threshold, trace)) && SB.NoOverflow(trace) && Dated(trace, s.clock)
  {
    if run != [] {
      var before := run[..|run| - 1];
      var s := After(threshold, cooldown, before);
      ApartRunsAreLinked(threshold, cooldown, before);
      OpeningsAreJustified(threshold, cooldown, before);
      TimesNeverAhead(threshold, cooldown, before);
      LinkedStep(s, Completed(threshold, cooldown, before), run[|run| - 1]);
      DatedStep(s, Completed(threshold, cooldown, before), run[|run| - 1]);
    }
  }

  /** The sequential law survives in every such run: at any moment the stored time
      answers as the trace of completed calls demands, and whenever no call is in
      flight both cells are those of the sequential breaker. */
  lemma ApartRunsFollowTrace(threshold: nat, cooldown: nat, run: Run)
    requires NoOverflow(threshold, cooldown, run) && Apart(threshold, cooldown, run)
    requires After(threshold, cooldown, run).clock < U64_MODULUS
    ensures var s, trace := After(threshold, cooldown, run), Completed(threshold, cooldown, run);
            && Reported(s.openedAt, cooldown, s.clock) == Expected(threshold, cooldown, trace, s.clock)
            && (NoneClearing(s) && InFlight(s) == {} ==>
                  Breaker(s.failureCount, s.openedAt) == SB.After(threshold, trace))
  {
    ApartRunsAreLinked(threshold, cooldown, run);
    var s, trace := After(threshold, cooldown, run), Completed(threshold, cooldown, run);
    BreakerFollowsTrace(threshold, cooldown, trace, s.clock);
  }

  // ----- what overlapping calls do -----

  ghost predicate NoIncrement(run: Run) {
    forall i | 0 <= i < |run| :: !run[i].Increment?
  }

  ghost predicate NoClearCount(run: Run) {
    forall i | 0 <= i < |run| :: !run[i].ClearCount?
  }

  lemma AfterSnoc(threshold: nat, cooldown: nat, run: Run, step: Step)
    ensures After(threshold, cooldown, run + [step]) == Next(After(threshold, cooldown, run), step)
  {
    assert (run + [step])[..|run|] == run;
  }

  lemma ClosedStep(s: State, step: Step)
    requires s.openedAt == 0 && InFlight(s) == {} && !step.Increment?
    ensures Next(s, step).openedAt == 0 && InFlight(Next(s, step)) == {}
  {
    assert forall t | t in s.pc :: t !in InFlight(s);
  }

  lemma {:induction false} StaysClosed(threshold: nat, cooldown: nat, run: Run, more: Run)
    requires After(threshold, cooldown, run).openedAt == 0 && InFlight(After(threshold, cooldown, run)) == {}
    requires NoIncrement(more)
    ensures var s := After(threshold, cooldown, run + more); s.openedAt == 0 && InFlight(s) == {}
    decreases |more|
  {
    if more == [] {
      assert run + more == run;
    } else {
      var n := |more| - 1;
      StaysClosed(threshold, cooldown, run, more[..n]);
      assert run + more == (run + more[..n]) + [more[n]];
      AfterSnoc(threshold, cooldown, run + more[..n], more[n]);
      ClosedStep(After(threshold, cooldown, run + more[..n]), more[n]);
    }
  }

  lemma OpensFromFlight(threshold: nat, cooldown: nat, run: Run, f: Caller) returns (more: Run)
    requires f in InFlight(After(threshold, cooldown, run))
    ensures NoIncrement(more) && After(threshold, cooldown, run + more).openedAt != 0
  {
    TimesNeverAhead(threshold, cooldown, run);
    if After(threshold, cooldown, run).pc[f].Timed? {
      more := [StoreOpened(f)];
      AfterSnoc(threshold, cooldown, run, StoreOpened(f));
    } else {
      more := [ReadClock(f), StoreOpened(f)];
      AfterSnoc(threshold, cooldown, run, ReadClock(f));
      AfterSnoc(threshold, cooldown, run + [ReadClock(f)], StoreOpened(f));
      assert run + more == run + [ReadClock(f)] + [StoreOpened(f)];
    }
  }

  /** From every reachable state with a closed breaker: it stays closed until a
      further failure begins, whatever else happens, exactly when no failure is in
      flight. A failure that counted before a success cleared the cells can thus open
      the breaker after it. */
  lemma StaysClosedIff(threshold: nat, cooldown: nat, run: Run)
    requires After(threshold, cooldown, run).openedAt == 0
    ensures (forall more | NoIncrement(more) :: After(threshold, cooldown, run + more).openedAt == 0)
            <==> InFlight(After(threshold, cooldown, run)) == {}
  {
    var s := After(threshold, cooldown, run);
    if InFlight(s) == {} {
      forall more | NoIncrement(more)
        ensures After(threshold, cooldown, run + more).openedAt == 0
      {
        StaysClosed(threshold, cooldown, run, more);
      }
    } else {
      var f :| f in InFlight(s);
      var more := OpensFromFlight(threshold, cooldown, run, f);
    }
  }

  lemma {:induction false} StaysOpen(threshold: nat, cooldown: nat, run: Run, more: Run)
    requires After(threshold, cooldown, run).openedAt != 0 && NoneClearing(After(threshold, cooldown, run))
    requires NoClearCount(more)
    ensures var s := After(threshold, cooldown, run + more); s.openedAt != 0 && NoneClearing(s)
    decreases |more|
  {
    if more == [] {
      assert run + more == run;
    } else {
      var n := |more| - 1;
      StaysOpen(threshold, cooldown, run, more[..n]);
      TimesNeverAhead(threshold, cooldown, run + more[..n]);
      assert run + more == (run + more[..n]) + [more[n]];
      AfterSnoc(threshold, cooldown, run + more[..n], more[n]);
    }
  }

  /** From every reachable state with the time stored: it stays stored until a
      further success begins exactly when no success is half done. A success that
      cleared the counter before failures reached the threshold can thus erase them. */
  lemma StaysOpenIff(threshold: nat, cooldown: nat, run: Run)
    requires After(threshold, cooldown, run).openedAt != 0
    ensures (forall more | NoClearCount(more) :: After(threshold, cooldown, run + more).openedAt != 0)
            <==> NoneClearing(After(threshold, cooldown, run))
  {
    var s := After(threshold, cooldown, run);
    if NoneClearing(s) {
      forall more | NoClearCount(more)
        ensures After(threshold, cooldown, run + more).openedAt != 0
      {
        StaysOpen(threshold, cooldown, run, more);
      }
    } else {
      var c :| c in s.pc && s.pc[c].Clearing?;
      AfterSnoc(threshold, cooldown, run, ClearOpened(c));
      assert NoClearCount([ClearOpened(c)]);
    }
  }

  /** A success, start to finish, while a failure is in flight. */
  lemma SuccessStep(s: State, c: Caller, f: Caller)
    requires Free(At(s, c)) && f != c
    ensures var s' := Next(Next(s, ClearCount(c)), ClearOpened(c));
            s'.failureCount == 0 && s'.clock == s.clock && At(s', c) == Idle && At(s', f) == At(s, f)
  {
    var s1 := Next(s, ClearCount(c));
    assert At(s1, c) == Clearing && At(s1, f) == At(s, f);
  }

  /** The rest of a failure that has counted. */
  lemma FailureStep(s: State, f: Caller, c: Caller)
    requires At(s, f).Counted? && f != c
    ensures var s' := Next(Next(s, ReadClock(f)), StoreOpened(f));
            s'.failureCount == s.failureCount && s'.openedAt == s.clock && At(s', f) == Idle && At(s', c) == At(s, c)
  {
    var s1 := Next(s, ReadClock(f));
    assert At(s1, f).Timed? && At(s1, f).now == s.clock && At(s1, c) == At(s, c);
  }

  lemma AfterTwo(threshold: nat, cooldown: nat, run: Run, a: Step, b: Step)
    ensures After(threshold, cooldown, run + [a] + [b]) == Next(Next(After(threshold, cooldown, run), a), b)
  {
    AfterSnoc(threshold, cooldown, run, a);
    AfterSnoc(threshold, cooldown, run + [a], b);
  }

  /** The law breaks one way: from every state with a failure in flight, a success
      can run to its end first, and the breaker is then open with no failure counted. */
  lemma SuccessCanBeOvertaken(threshold: nat, cooldown: nat, run: Run, f: Caller, c: Caller) returns (more: Run)
    requires var s := After(threshold, cooldown, run); Failing(At(s, f)) && Free(At(s, c))
    ensures var s := After(threshold, cooldown, run + more);
            s.failureCount == 0 && s.openedAt != 0 && At(s, f) == At(s, c) == Idle
  {
    var s := After(threshold, cooldown, run);
    var cleared := run + [ClearCount(c)] + [ClearOpened(c)];
    TimesNeverAhead(threshold, cooldown, run);
    SuccessStep(s, c, f);
    AfterTwo(threshold, cooldown, run, ClearCount(c), ClearOpened(c));
    if At(s, f).Counted? {
      FailureStep(After(threshold, cooldown, cleared), f, c);
      AfterTwo(threshold, cooldown, cleared, ReadClock(f), StoreOpened(f));
      more := [ClearCount(c)] + [ClearOpened(c)] + [ReadClock(f)] + [StoreOpened(f)];
      assert run + more == cleared + [ReadClock(f)] + [StoreOpened(f)];
    } else {
      AfterSnoc(threshold, cooldown, cleared, StoreOpened(f));
      more := [ClearCount(c)] + [ClearOpened(c)] + [StoreOpened(f)];
      assert run + more == cleared + [StoreOpened(f)];
    }
  }

  lemma CountStep(s: State, f: Caller, c: Caller)
    requires Free(At(s, f)) && f != c && s.threshold <= s.failureCount + 1 < U32_MODULUS
    ensures var s' := Next(s, Increment(f));
            s'.failureCount == s.failureCount + 1 && At(s', f).Counted? && At(s', c) == At(s, c)
  {
  }

  /** And the other way: from every state with a success half done and the threshold
      within reach of one more failure, the success can erase that failure, and the
      breaker is then closed with the threshold reached. */
  lemma FailureCanBeErased(threshold: nat, cooldown: nat, run: Run, f: Caller, c: Caller) returns (more: Run)
    requires var s := After(threshold, cooldown, run);
             At(s, c).Clearing? && Free(At(s, f)) && threshold <= s.failureCount + 1 < U32_MODULUS
    ensures var s := After(threshold, cooldown, run + more);
            s.failureCount >= Effective(threshold) && s.openedAt == 0 && At(s, f) == At(s, c) == Idle
  {
    TimesNeverAhead(threshold, cooldown, run);
    CountStep(After(threshold, cooldown, run), f, c);
    AfterSnoc(threshold, cooldown, run, Increment(f));
    var counted := run + [Increment(f)];
    FailureStep(After(threshold, cooldown, counted), f, c);
    AfterTwo(threshold, cooldown, counted, ReadClock(f), StoreOpened(f));
    AfterSnoc(threshold, cooldown, counted + [ReadClock(f)] + [StoreOpened(f)], ClearOpened(c));
    more := [Increment(f)] + [ReadClock(f)] + [StoreOpened(f)] + [ClearOpened(c)];
    assert run + more == counted + [ReadClock(f)] + [StoreOpened(f)] + [ClearOpened(c)];
  }

  /** Both situations arise from the start. */
  lemma OverlapsAreReachable()
    ensures var s := After(1, 30, [] + [Increment(7)]); Failing(At(s, 7)) && Free(At(s, 8))
    ensures var s := After(1, 30, [] + [ClearCount(8)]);
            At(s, 8).Clearing? && Free(At(s, 7)) && s.failureCount == 0
  {
    AfterSnoc(1, 30, [], Increment(7));
    AfterSnoc(1, 30, [], ClearCount(8));
  }
}
