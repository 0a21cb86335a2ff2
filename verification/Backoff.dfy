/** The two backoff loops: the retry policy of the Proxmox client and the webhook
    delivery loop. */
module Backoff {
  import opened Prelude
  import opened Bits

  // ----- RetryPolicy -----

  /** Durations are seconds. */
  datatype RetryPolicy = RetryPolicy(maxAttempts: nat, initial: real, maxBackoff: real, multiplier: real)

  /** A number of seconds that `Duration::from_secs_f64` accepts; it panics on others. */
  predicate IsDuration(x: real) {
    0.0 <= x < U64_MODULUS as real
  }

  function Min(a: real, b: real): real {
    if b < a then b else a
  }

  /** One update of the backoff variable; None is a panic. */
  function Rescaled(p: RetryPolicy, backoff: real): Option<real> {
    var scaled := backoff * p.multiplier;
    if IsDuration(scaled) then Some(Min(scaled, p.maxBackoff)) else None
  }

  /** An update panics exactly when the product is negative or needs 2^64 seconds or more. */
  lemma RescaledPanicsIff(p: RetryPolicy, backoff: real, product: real)
    requires product == backoff * p.multiplier
    ensures Rescaled(p, backoff).None? <==> product < 0.0 || product >= 18446744073709551616.0
  {
  }

  type Update = real -> Option<real>

  /** The backoff variable after n updates; None once an update has panicked. */
  function BackoffAfter(update: Update, initial: real, n: nat): Option<real> {
    if n == 0 then Some(initial) else
    match BackoffAfter(update, initial, n - 1)
    case None => None
    case Some(b) => update(b)
  }

  /** Attempts 0..n all fail. */
  predicate AllFail<T(!new), E(!new)>(f: nat -> Result<T, E>, n: nat) {
    forall i | 0 <= i < n :: f(i).Err?
  }

  /** Attempts 0..n all fail, a further one is left, and the update before it panics. */
  predicate PanicsBefore<T(!new), E(!new)>(update: Update, initial: real, max: nat, f: nat -> Result<T, E>, n: nat) {
    n < max && AllFail(f, n) && BackoffAfter(update, initial, n).None?
  }

  /** The attempt loop. `f(i)` is what attempt i yields; the result is None on a
      panic: there was no attempt, or the next backoff is not a duration. */
  method Attempts<T(!new), E(!new)>(update: Update, initial: real, max: nat, f: nat -> Result<T, E>)
      returns (r: Option<Result<T, E>>, calls: nat, sleeps: seq<real>)
    ensures calls <= max
    ensures forall i {:trigger sleeps[i]} | 0 <= i < |sleeps| :: BackoffAfter(update, initial, i) == Some(sleeps[i])
    ensures r.None? <==> max == 0 || exists n: nat :: PanicsBefore(update, initial, max, f, n)
    ensures r.Some? ==> calls > 0 && r.value == f(calls - 1) && AllFail(f, calls - 1) && |sleeps| == calls - 1
    ensures r.Some? && r.value.Err? ==> calls == max
    ensures r.Some? ==> forall i | 0 <= i < calls - 1 :: f(i).Err?
    ensures r.None? && max > 0 ==> 0 < calls == |sleeps| < max && forall i | 0 <= i < calls :: f(i).Err?
  {
    var backoff := initial;
    var lastErr: Option<E> := None;
    calls, sleeps := 0, [];
    for attempt := 0 to max
      invariant calls == attempt && AllFail(f, attempt)
      invariant lastErr == if attempt == 0 then None else Some(f(attempt - 1).error)
      invariant attempt < max ==> |sleeps| == attempt && BackoffAfter(update, initial, attempt) == Some(backoff)
      invariant attempt == max > 0 ==> |sleeps| == attempt - 1
      invariant forall i {:trigger sleeps[i]} | 0 <= i < |sleeps| :: BackoffAfter(update, initial, i) == Some(sleeps[i])
      invariant forall n: nat | n < attempt || n == attempt < max :: !PanicsBefore(update, initial, max, f, n)
    {
      var outcome := f(attempt);
      calls := calls + 1;
      match outcome {
        case Ok(_) =>
          return Some(outcome), calls, sleeps;
        case Err(e) =>
          if attempt + 1 < max {
            sleeps := sleeps + [backoff];
            var next := update(backoff);
            if next.None? {
              assert PanicsBefore(update, initial, max, f, attempt + 1);
              return None, calls, sleeps;
            }
            backoff := next.value;
          }
          lastErr := Some(e);
      }
    }
    match lastErr {
      case Some(e) => return Some(Err(e)), calls, sleeps;
      case None => return None, calls, sleeps;
    }
  }

  function UpdateOf(p: RetryPolicy): Update {
    b => Rescaled(p, b)
  }

  ghost predicate Panics<T(!new), E(!new)>(p: RetryPolicy, f: nat -> Result<T, E>) {
    p.maxAttempts == 0 || exists n: nat :: PanicsBefore(UpdateOf(p), p.initial, p.maxAttempts, f, n)
  }

  /** Attempts are made until the first success or the limit; the answer is that
      success or the last error. */
  method Execute<T(!new), E(!new)>(p: RetryPolicy, f: nat -> Result<T, E>)
      returns (r: Option<Result<T, E>>, calls: nat, sleeps: seq<real>)
    ensures calls <= p.maxAttempts
    ensures forall i {:trigger sleeps[i]} | 0 <= i < |sleeps| ::
              BackoffAfter(UpdateOf(p), p.initial, i) == Some(sleeps[i])
    ensures r.None? <==> Panics(p, f)
    ensures r.Some? ==> calls > 0 && r.value == f(calls - 1) && AllFail(f, calls - 1) && |sleeps| == calls - 1
    ensures r.Some? && r.value.Err? ==> calls == p.maxAttempts
    ensures r.Some? ==> forall i | 0 <= i < calls - 1 :: f(i).Err?
    ensures r.None? && p.maxAttempts > 0 ==>
              0 < calls == |sleeps| < p.maxAttempts && forall i | 0 <= i < calls :: f(i).Err?
  {
    r, calls, sleeps := Attempts(UpdateOf(p), p.initial, p.maxAttempts, f);
  }

  // ----- the sleeps in closed form -----

  function Power(m: real, n: nat): real {
    if n == 0 then 1.0 else Power(m, n - 1) * m
  }

  /** The backoff without the cap. */
  function Geometric(p: RetryPolicy, n: nat): real {
    if n == 0 then p.initial else Geometric(p, n - 1) * p.multiplier
  }

  lemma Reassociate(a: real, b: real, c: real)
    ensures a * (b * c) == a * b * c
  {
  }

  lemma {:induction false} GeometricIsPower(p: RetryPolicy, n: nat)
    ensures Geometric(p, n) == p.initial * Power(p.multiplier, n)
  {
    if n != 0 {
      GeometricIsPower(p, n - 1);
      Reassociate(p.initial, Power(p.multiplier, n - 1), p.multiplier);
    }
  }

  lemma ScaleLe(a: real, b: real, x: real)
    requires 0.0 <= a <= b && 0.0 <= x
    ensures 0.0 <= a * x <= b * x
  {
  }

  lemma Shrinks(x: real, m: real, scaled: real)
    requires 0.0 <= x && 0.0 <= m <= 1.0 && scaled == x * m
    ensures 0.0 <= scaled <= x
  {
  }

  lemma Grows(x: real, m: real)
    requires 0.0 <= x && 1.0 <= m
    ensures x <= x * m
  {
  }

  lemma NonNegativeOnly(x: real, m: real)
    requires 0.0 <= x && 0.0 <= x * m && m < 0.0
    ensures x == 0.0
  {
  }

  /** The uncapped backoff keeps its sign and, under a multiplier of at most one,
      stays below the first; capping after every step is capping once. */
  ghost predicate Bounded(x: real, initial: real, m: real) {
    0.0 <= x && (m <= 1.0 ==> x <= initial)
  }

  lemma CapStep(x: real, x': real, p: RetryPolicy, next: real)
    requires 0.0 <= p.initial <= p.maxBackoff && Bounded(x, p.initial, p.multiplier)
    requires x' == x * p.multiplier && Rescaled(p, Min(x, p.maxBackoff)) == Some(next)
    ensures next == Min(x', p.maxBackoff) && Bounded(x', p.initial, p.multiplier)
  {
    var m, cap := p.multiplier, p.maxBackoff;
    if m < 0.0 {
      NonNegativeOnly(Min(x, cap), m);
    } else if m <= 1.0 {
      Shrinks(x, m, x');
    } else {
      ScaleLe(Min(x, cap), x, m);
      Grows(cap, m);
    }
  }

  /** Step i of a capped backoff tracks step i of the uncapped one, `g`. */
  ghost predicate Tracks(update: Update, cap: real, g: nat -> real, inv: real -> bool, i: nat) {
    inv(g(i)) && update(Min(g(i), cap)).Some? ==>
      inv(g(i + 1)) && update(Min(g(i), cap)) == Some(Min(g(i + 1), cap))
  }

  lemma {:induction false} CappedOnce(update: Update, cap: real, g: nat -> real, inv: real -> bool, n: nat)
    requires inv(g(0)) && g(0) <= cap && forall i: nat :: Tracks(update, cap, g, inv, i)
    requires BackoffAfter(update, g(0), n).Some?
    ensures inv(g(n)) && BackoffAfter(update, g(0), n) == Some(Min(g(n), cap))
  {
    if n != 0 {
      CappedOnce(update, cap, g, inv, n - 1);
      assert Tracks(update, cap, g, inv, n - 1);
    }
  }

  lemma GeometricStep(p: RetryPolicy, i: nat)
    requires 0.0 <= p.initial <= p.maxBackoff
    ensures var x, x' := Geometric(p, i), Geometric(p, i + 1);
            var next := Rescaled(p, Min(x, p.maxBackoff));
            Bounded(x, p.initial, p.multiplier) && next.Some? ==>
              Bounded(x', p.initial, p.multiplier) && next == Some(Min(x', p.maxBackoff))
  {
    var x := Geometric(p, i);
    var next := Rescaled(p, Min(x, p.maxBackoff));
    if Bounded(x, p.initial, p.multiplier) && next.Some? {
      CapStep(x, Geometric(p, i + 1), p, next.value);
    }
  }

  lemma CappedGeometric(p: RetryPolicy, n: nat)
    requires 0.0 <= p.initial <= p.maxBackoff
    requires BackoffAfter(UpdateOf(p), p.initial, n).Some?
    ensures BackoffAfter(UpdateOf(p), p.initial, n) == Some(Min(Geometric(p, n), p.maxBackoff))
  {
    var g, inv := (i: nat) => Geometric(p, i), (x: real) => Bounded(x, p.initial, p.multiplier);
    forall i: nat ensures Tracks(UpdateOf(p), p.maxBackoff, g, inv, i) {
      GeometricStep(p, i);
    }
    CappedOnce(UpdateOf(p), p.maxBackoff, g, inv, n);
  }

  /** Sleep n of the policy, should it be reached, lasts min(initial * m^n, max). */
  ghost predicate FollowsFormula(p: RetryPolicy, n: nat) {
    var b := BackoffAfter(UpdateOf(p), p.initial, n);
    var x := p.initial * Power(p.multiplier, n);
    b.Some? ==> b.value == if x <= p.maxBackoff then x else p.maxBackoff
  }

  /** Every sleep that the limit allows follows the formula exactly when the first one
      is within the cap, since that one is never capped, or there is none. */
  lemma SleepsAreCappedPowers(p: RetryPolicy)
    requires 0.0 <= p.initial
    ensures (forall n: nat | n + 1 < p.maxAttempts :: FollowsFormula(p, n)) <==>
            p.maxAttempts <= 1 || p.initial <= p.maxBackoff
  {
    if p.initial <= p.maxBackoff {
      forall n: nat ensures FollowsFormula(p, n) {
        GeometricIsPower(p, n);
        if BackoffAfter(UpdateOf(p), p.initial, n).Some? {
          CappedGeometric(p, n);
        }
      }
    } else if p.maxAttempts > 1 {
      assert !FollowsFormula(p, 0);
    }
  }

  // ----- panics -----

  /** The field types of the policy: both durations are representable. */
  ghost predicate WellTyped(p: RetryPolicy) {
    IsDuration(p.initial) && IsDuration(p.maxBackoff)
  }

  /** What a caller can test before the call: the first product is a duration, and so
      is the cap's unless the backoff never grows. */
  predicate NeverOverflows(p: RetryPolicy) {
    || p.initial == 0.0
    || (&& 0.0 <= p.multiplier && IsDuration(p.initial * p.multiplier)
        && (p.multiplier <= 1.0 || IsDuration(p.maxBackoff * p.multiplier)))
  }

  /** The backoffs a safe policy goes through: each can be multiplied once more. */
  ghost predicate SafeBackoff(p: RetryPolicy, b: real) {
    && 0.0 <= b && IsDuration(b * p.multiplier)
    && (p.initial == 0.0 ==> b == 0.0)
  }

  lemma SafeBelow(p: RetryPolicy, a: real, b: real)
    requires 0.0 <= a <= b && 0.0 <= p.multiplier && IsDuration(b * p.multiplier)
    ensures IsDuration(a * p.multiplier)
  {
    ScaleLe(a, b, p.multiplier);
  }

  /** Where nothing starts, nothing grows. */
  lemma ZeroStep(p: RetryPolicy)
    requires WellTyped(p)
    ensures Rescaled(p, 0.0) == Some(0.0)
  {
  }

  lemma StepBelow(p: RetryPolicy, b: real, scaled: real, bound: real)
    requires scaled == b * p.multiplier && IsDuration(scaled) && IsDuration(p.maxBackoff)
    requires scaled <= bound || p.maxBackoff <= bound
    ensures Rescaled(p, b).Some? && 0.0 <= Rescaled(p, b).value <= bound
  {
  }

  lemma SafeStep(p: RetryPolicy, b: real)
    requires WellTyped(p) && NeverOverflows(p) && SafeBackoff(p, b)
    ensures Rescaled(p, b).Some? && SafeBackoff(p, Rescaled(p, b).value)
  {
    if p.initial == 0.0 {
      ZeroStep(p);
    } else if p.multiplier <= 1.0 {
      var scaled := b * p.multiplier;
      Shrinks(b, p.multiplier, scaled);
      StepBelow(p, b, scaled, b);
      SafeBelow(p, Rescaled(p, b).value, b);
    } else {
      StepBelow(p, b, b * p.multiplier, p.maxBackoff);
      SafeBelow(p, Rescaled(p, b).value, p.maxBackoff);
    }
  }

  lemma {:induction false} SafeForever(p: RetryPolicy, n: nat)
    requires WellTyped(p) && NeverOverflows(p)
    ensures var b := BackoffAfter(UpdateOf(p), p.initial, n); b.Some? && SafeBackoff(p, b.value)
  {
    if n != 0 {
      SafeForever(p, n - 1);
      SafeStep(p, BackoffAfter(UpdateOf(p), p.initial, n - 1).value);
    }
  }

  /** Bernoulli: the uncapped backoff grows at least linearly. */
  lemma {:induction false} GrowsLinearly(p: RetryPolicy, n: nat)
    requires 0.0 <= p.initial && 1.0 <= p.multiplier
    ensures Geometric(p, n) >= p.initial + n as real * Gain(p)
    ensures Geometric(p, n) >= p.initial
  {
    if n != 0 {
      GrowsLinearly(p, n - 1);
      LinearStep(Geometric(p, n - 1), p);
      assert n as real * Gain(p) == (n - 1) as real * Gain(p) + Gain(p);
    }
  }

  /** What the first step adds. */
  function Gain(p: RetryPolicy): real {
    p.initial * (p.multiplier - 1.0)
  }

  lemma LinearStep(x: real, p: RetryPolicy)
    requires 0.0 <= p.initial <= x && 1.0 <= p.multiplier
    ensures x * p.multiplier >= x + Gain(p)
  {
    ScaleLe(p.initial, x, p.multiplier - 1.0);
  }

  lemma Archimedes(gain: real, cap: real) returns (n: nat)
    requires 0.0 < gain && 0.0 <= cap
    ensures n as real * gain >= cap
  {
    var q := cap / gain;
    n := q.Floor + 1;
    ScaleLe(q, n as real, gain);
  }

  lemma PositiveProduct(a: real, b: real)
    requires 0.0 < a && 0.0 < b
    ensures 0.0 < a * b
  {
  }

  lemma CapIsAbove(p: RetryPolicy)
    requires WellTyped(p) && 0.0 <= p.multiplier
    requires IsDuration(p.initial * p.multiplier) && !IsDuration(p.maxBackoff * p.multiplier)
    ensures p.initial <= p.maxBackoff
  {
    if p.maxBackoff < p.initial {
      SafeBelow(p, p.maxBackoff, p.initial);
    }
  }

  lemma AtCap(p: RetryPolicy, n: nat)
    requires 0.0 <= p.initial <= p.maxBackoff <= Geometric(p, n)
    requires BackoffAfter(UpdateOf(p), p.initial, n).Some?
    ensures BackoffAfter(UpdateOf(p), p.initial, n) == Some(p.maxBackoff)
  {
    CappedGeometric(p, n);
  }

  lemma PastCap(p: RetryPolicy, n: nat)
    requires BackoffAfter(UpdateOf(p), p.initial, n) == Some(p.maxBackoff)
    requires !IsDuration(p.maxBackoff * p.multiplier)
    ensures BackoffAfter(UpdateOf(p), p.initial, n + 1).None?
  {
  }

  lemma ReachesCap(p: RetryPolicy) returns (n: nat)
    requires 0.0 < p.initial <= p.maxBackoff && 1.0 < p.multiplier
    ensures p.maxBackoff <= Geometric(p, n)
  {
    PositiveProduct(p.initial, p.multiplier - 1.0);
    n := Archimedes(Gain(p), p.maxBackoff);
    GrowsLinearly(p, n);
  }

  /** A growing backoff reaches a cap that cannot be multiplied, if it does not panic before. */
  lemma PanicsEventually(p: RetryPolicy) returns (n: nat)
    requires WellTyped(p) && 0.0 < p.initial && 1.0 < p.multiplier
    requires IsDuration(p.initial * p.multiplier) && !IsDuration(p.maxBackoff * p.multiplier)
    ensures BackoffAfter(UpdateOf(p), p.initial, n).None?
  {
    CapIsAbove(p);
    n := ReachesCap(p);
    if BackoffAfter(UpdateOf(p), p.initial, n).Some? {
      AtCap(p, n);
      PastCap(p, n);
      n := n + 1;
    }
  }

  /** The corollary for all limits: no number of updates panics exactly when the fields
      other than the limit pass the test. */
  lemma NeverPanicsIff(p: RetryPolicy)
    requires WellTyped(p)
    ensures (forall n: nat :: BackoffAfter(UpdateOf(p), p.initial, n).Some?) <==> NeverOverflows(p)
  {
    if NeverOverflows(p) {
      forall n: nat ensures BackoffAfter(UpdateOf(p), p.initial, n).Some? {
        SafeForever(p, n);
      }
    } else if IsDuration(p.initial * p.multiplier) {
      SignOfMultiplier(p.initial, p.multiplier);
      var n := PanicsEventually(p);
    } else {
      assert BackoffAfter(UpdateOf(p), p.initial, 0) == Some(p.initial);
      assert BackoffAfter(UpdateOf(p), p.initial, 1).None?;
    }
  }

  lemma SignOfMultiplier(x: real, m: real)
    requires 0.0 < x && 0.0 <= x * m
    ensures 0.0 <= m
  {
  }

  // ----- panics within the limit -----

  /** The exact test, with the policy's own limit: it makes an attempt, and it makes no
      update, or every update is safe, or the last one still is. */
  predicate SafeWithinLimit(p: RetryPolicy) {
    && p.maxAttempts >= 1
    && (|| p.maxAttempts == 1
        || NeverOverflows(p)
        || (1.0 < p.multiplier && IsDuration(Geometric(p, p.maxAttempts - 1))))
  }

  lemma {:induction false} GeometricMonotone(p: RetryPolicy, a: nat, b: nat)
    requires 0.0 <= p.initial && 1.0 <= p.multiplier && a <= b
    ensures 0.0 <= Geometric(p, a) <= Geometric(p, b)
  {
    GrowsLinearly(p, a);
    if a < b {
      GeometricMonotone(p, a, b - 1);
      Grows(Geometric(p, b - 1), p.multiplier);
    }
  }

  /** Below a cap that cannot be multiplied, the capped update is safe iff the uncapped one is. */
  lemma UncappedDecides(p: RetryPolicy, x: real, scaled: real)
    requires 0.0 <= x && IsDuration(p.maxBackoff) && 1.0 < p.multiplier && !IsDuration(p.maxBackoff * p.multiplier)
    requires scaled == x * p.multiplier
    ensures Rescaled(p, Min(x, p.maxBackoff)).Some? <==> IsDuration(scaled)
  {
    if p.maxBackoff < x {
      ScaleLe(p.maxBackoff, x, p.multiplier);
    }
  }

  lemma UpdateDecides(p: RetryPolicy, n: nat)
    requires WellTyped(p) && p.initial <= p.maxBackoff && 1.0 < p.multiplier
    requires !IsDuration(p.maxBackoff * p.multiplier) && BackoffAfter(UpdateOf(p), p.initial, n).Some?
    ensures BackoffAfter(UpdateOf(p), p.initial, n + 1).Some? <==> IsDuration(Geometric(p, n + 1))
  {
    GeometricMonotone(p, 0, n);
    CappedGeometric(p, n);
    UncappedDecides(p, Geometric(p, n), Geometric(p, n + 1));
    UpdateSnoc(p, n);
  }

  lemma {:induction false} SafeIffUncappedSafe(p: RetryPolicy, n: nat)
    requires WellTyped(p) && p.initial <= p.maxBackoff && 1.0 < p.multiplier
    requires !IsDuration(p.maxBackoff * p.multiplier)
    ensures BackoffAfter(UpdateOf(p), p.initial, n).Some? <==> IsDuration(Geometric(p, n))
  {
    if n != 0 {
      SafeIffUncappedSafe(p, n - 1);
      if BackoffAfter(UpdateOf(p), p.initial, n - 1).Some? {
        UpdateDecides(p, n - 1);
      } else {
        GeometricMonotone(p, n - 1, n);
      }
    }
  }

  lemma UpdateSnoc(p: RetryPolicy, n: nat)
    requires BackoffAfter(UpdateOf(p), p.initial, n).Some?
    ensures BackoffAfter(UpdateOf(p), p.initial, n + 1) == Rescaled(p, BackoffAfter(UpdateOf(p), p.initial, n).value)
  {
  }

  ghost predicate NoUpdatePanics(p: RetryPolicy) {
    forall n: nat | n < p.maxAttempts :: BackoffAfter(UpdateOf(p), p.initial, n).Some?
  }

  /** The growing case: the last product decides. */
  lemma GrowingWithinLimit(p: RetryPolicy)
    requires WellTyped(p) && p.initial <= p.maxBackoff && 1.0 < p.multiplier && p.maxAttempts >= 1
    requires !IsDuration(p.maxBackoff * p.multiplier)
    ensures NoUpdatePanics(p) <==> IsDuration(Geometric(p, p.maxAttempts - 1))
  {
    forall n: nat | n < p.maxAttempts
      ensures BackoffAfter(UpdateOf(p), p.initial, n).Some? <==> IsDuration(Geometric(p, n))
      ensures 0.0 <= Geometric(p, n) <= Geometric(p, p.maxAttempts - 1)
    {
      SafeIffUncappedSafe(p, n);
      GeometricMonotone(p, n, p.maxAttempts - 1);
    }
  }

  lemma FirstUpdateDecides(p: RetryPolicy)
    requires WellTyped(p) && p.maxAttempts > 1 && !IsDuration(p.initial * p.multiplier)
    ensures !NoUpdatePanics(p)
    ensures 1.0 < p.multiplier ==> !IsDuration(Geometric(p, p.maxAttempts - 1))
  {
    UpdateSnoc(p, 0);
    assert BackoffAfter(UpdateOf(p), p.initial, 1).None?;
    if 1.0 < p.multiplier {
      assert Geometric(p, 1) == p.initial * p.multiplier;
      GeometricMonotone(p, 1, p.maxAttempts - 1);
    }
  }

  lemma NoUpdatePanicsIff(p: RetryPolicy)
    requires WellTyped(p) && p.maxAttempts >= 1
    ensures NoUpdatePanics(p) <==> SafeWithinLimit(p)
  {
    if p.maxAttempts == 1 {
    } else if NeverOverflows(p) {
      forall n: nat | n < p.maxAttempts ensures BackoffAfter(UpdateOf(p), p.initial, n).Some? {
        SafeForever(p, n);
      }
    } else if IsDuration(p.initial * p.multiplier) {
      SignOfMultiplier(p.initial, p.multiplier);
      CapIsAbove(p);
      GrowingWithinLimit(p);
    } else {
      FirstUpdateDecides(p);
    }
  }

  /** A call returns, with a success or the last error, whatever the attempts yield,
      exactly when the policy passes the test. */
  lemma ReturnsForEveryOracleIff<T(!new), E(!new)>(p: RetryPolicy, e: E)
    requires WellTyped(p)
    ensures (forall f: nat -> Result<T, E> :: !Panics(p, f)) <==> SafeWithinLimit(p)
  {
    if p.maxAttempts >= 1 {
      NoUpdatePanicsIff(p);
      if !NoUpdatePanics(p) {
        var n: nat :| n < p.maxAttempts && BackoffAfter(UpdateOf(p), p.initial, n).None?;
        var failing: nat -> Result<T, E> := i => Err(e);
        assert PanicsBefore(UpdateOf(p), p.initial, p.maxAttempts, failing, n);
        assert Panics(p, failing);
      }
    } else {
      var failing: nat -> Result<T, E> := i => Err(e);
      assert Panics(p, failing);
    }
  }

  // ----- webhook delivery -----

  const SHIFT_WIDTH: nat := 64

  /** `1 << k` in a word of w bits; the shift count is taken modulo the width. */
  function ShiftedOne(k: nat, w: nat): nat
    requires w > 0
  {
    if k < w then Pow2(k) else ShiftedOne(k - w, w)
  }

  /** The seconds slept before attempt a starts. */
  function WaitedBefore(a: nat, w: nat): nat
    requires w > 0
  {
    if a == 0 then 0 else WaitedBefore(a - 1, w) + ShiftedOne(a - 1, w)
  }

  /** `deliver(a)` tells whether attempt a succeeds; `waited[a]` is the total time
      slept when attempt a starts. Attempts stop at the first success or after the
      last retry. */
  method DeliverWithRetry(deliver: nat -> bool, maxRetries: nat) returns (delivered: bool, waited: seq<nat>)
    ensures 0 < |waited| <= maxRetries + 1
    ensures forall a {:trigger waited[a]} | 0 <= a < |waited| :: waited[a] == WaitedBefore(a, SHIFT_WIDTH)
    ensures forall a | 0 <= a < |waited| - 1 :: !deliver(a)
    ensures delivered == deliver(|waited| - 1)
    ensures !delivered ==> |waited| == maxRetries + 1
  {
    var w := SHIFT_WIDTH;
    waited := [];
    var total := 0;
    for attempt := 0 to maxRetries + 1
      invariant |waited| == attempt
      invariant attempt == 0 ==> total == 0
      invariant attempt > 0 ==> total == WaitedBefore(attempt - 1, w)
      invariant forall a {:trigger waited[a]} | 0 <= a < attempt :: waited[a] == WaitedBefore(a, w)
      invariant forall a | 0 <= a < attempt :: !deliver(a)
    {
      if attempt > 0 {
        var delay := ShiftedOne(attempt - 1, w);
        total := total + delay;
      }
      waited := waited + [total];
      if deliver(attempt) {
        return true, waited;
      }
    }
    return false, waited;
  }

  /** The documented schedule: attempt a starts after 2^a - 1 seconds of waiting. */
  lemma {:induction false} Doubles(a: nat, w: nat)
    requires 0 < w && a <= w
    ensures WaitedBefore(a, w) == Pow2(a) - 1
  {
    if a != 0 {
      Doubles(a - 1, w);
    }
  }

  /** After as many attempts as the word has bits the delays start over at one second. */
  lemma {:induction false} StartsOver(a: nat, w: nat)
    requires 0 < w
    ensures WaitedBefore(w + a, w) == WaitedBefore(w, w) + WaitedBefore(a, w)
  {
    if a != 0 {
      StartsOver(a - 1, w);
    }
  }

  lemma {:induction false} Pow2Mono(a: nat, b: nat)
    requires a <= b
    ensures Pow2(a) <= Pow2(b)
  {
    if a < b {
      Pow2Mono(a, b - 1);
    }
  }

  lemma {:induction false} ShiftedAtMost(k: nat, w: nat)
    requires 0 < w
    ensures ShiftedOne(k, w) <= Pow2(k)
  {
    if k >= w {
      ShiftedAtMost(k - w, w);
      Pow2Mono(k - w, k);
    }
  }

  lemma {:induction false} FallsBehind(a: nat, w: nat)
    requires 0 < w < a
    ensures WaitedBefore(a, w) < Pow2(a) - 1
  {
    if a - 1 == w {
      Doubles(w, w);
      assert ShiftedOne(w, w) == ShiftedOne(0, w) == 1;
    } else {
      FallsBehind(a - 1, w);
      ShiftedAtMost(a - 1, w);
    }
  }

  /** The documented schedule holds exactly up to attempt 64. */
  lemma WaitedIsDoublingIff(a: nat)
    ensures WaitedBefore(a, SHIFT_WIDTH) == Pow2(a) - 1 <==> a <= 64
  {
    if a <= SHIFT_WIDTH {
      Doubles(a, SHIFT_WIDTH);
    } else {
      FallsBehind(a, SHIFT_WIDTH);
    }
  }
}
