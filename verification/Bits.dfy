/** Big-endian bit strings, and what shifting them through a 64-bit register does. */
module Bits {
  import opened Prelude

  function Pow2(n: nat): (p: nat)
    ensures p > 0
  {
    if n == 0 then 1 else 2 * Pow2(n - 1)
  }

  /** The number a bit string denotes, most significant bit first. */
  ghost function Value(b: seq<bool>): nat {
    if b == [] then 0 else 2 * Value(b[..|b| - 1]) + (if b[|b| - 1] then 1 else 0)
  }

  /** The w-bit representation of v. */
  ghost function BitsOf(v: nat, w: nat): (b: seq<bool>)
    ensures |b| == w
  {
    if w == 0 then [] else BitsOf(v / 2, w - 1) + [v % 2 == 1]
  }

  /** Where the i-th group of w bits starts, that is w * i. */
  ghost function Start(w: nat, i: nat): nat {
    if i == 0 then 0 else Start(w, i - 1) + w
  }

  /** The w-bit representations of the values, one after another. */
  ghost function Concat(vs: seq<nat>, w: nat): (b: seq<bool>)
    ensures |b| == Start(w, |vs|)
  {
    if vs == [] then [] else Concat(vs[..|vs| - 1], w) + BitsOf(vs[|vs| - 1], w)
  }

  ghost function Zeros(n: nat): seq<bool> {
    seq(n, i => false)
  }

  /** The i-th group of w bits. */
  ghost function Group(b: seq<bool>, w: nat, i: nat): nat
    requires Start(w, i + 1) <= |b|
  {
    Value(b[Start(w, i)..Start(w, i + 1)])
  }

  lemma StartIsProduct(w: nat, i: nat)
    ensures Start(w, i) == w * i
  {
    if i != 0 {
      StartIsProduct(w, i - 1);
      assert w * i == w * (i - 1) + w;
    }
  }

  lemma StartMonotone(w: nat, i: nat, j: nat)
    requires i <= j
    ensures Start(w, i) <= Start(w, j)
  {
  }

  lemma ValueBound(b: seq<bool>)
    ensures Value(b) < Pow2(|b|)
  {
  }

  lemma {:induction false} ValueOfBits(v: nat, w: nat)
    requires v < Pow2(w)
    ensures Value(BitsOf(v, w)) == v
  {
    if w != 0 {
      ValueOfBits(v / 2, w - 1);
      assert BitsOf(v, w)[..w - 1] == BitsOf(v / 2, w - 1);
    }
  }

  lemma {:induction false} BitsOfValue(b: seq<bool>)
    ensures BitsOf(Value(b), |b|) == b
  {
    if b != [] {
      BitsOfValue(b[..|b| - 1]);
    }
  }

  // ----- bit strings as numbers -----

  /** x * 2^s. */
  function Shift(x: nat, s: nat): nat {
    if s == 0 then x else 2 * Shift(x, s - 1)
  }

  /** The number whose w-bit digits are the values. */
  ghost function Num(vs: seq<nat>, w: nat): nat {
    if vs == [] then 0 else Shift(Num(vs[..|vs| - 1], w), w) + vs[|vs| - 1]
  }

  lemma NumSnoc(vs: seq<nat>, w: nat, v: nat)
    ensures Num(vs + [v], w) == Shift(Num(vs, w), w) + v
  {
    assert (vs + [v])[..|vs|] == vs;
  }

  lemma {:induction false} ValueJoin(a: seq<bool>, b: seq<bool>)
    ensures Value(a + b) == Shift(Value(a), |b|) + Value(b)
  {
    if b == [] {
      assert a + b == a;
    } else {
      assert (a + b)[..|a + b| - 1] == a + b[..|b| - 1];
      ValueJoin(a, b[..|b| - 1]);
    }
  }

  lemma {:induction false} ValueOfZeros(n: nat)
    ensures Value(Zeros(n)) == 0
  {
    if n != 0 {
      assert Zeros(n)[..n - 1] == Zeros(n - 1);
      ValueOfZeros(n - 1);
    }
  }

  ghost predicate Digits(vs: seq<nat>, w: nat) {
    forall i | 0 <= i < |vs| :: vs[i] < Pow2(w)
  }

  lemma {:induction false} NumIsValue(vs: seq<nat>, w: nat)
    requires Digits(vs, w)
    ensures Value(Concat(vs, w)) == Num(vs, w)
  {
    if vs != [] {
      var n := |vs| - 1;
      NumIsValue(vs[..n], w);
      ValueJoin(Concat(vs[..n], w), BitsOf(vs[n], w));
      ValueOfBits(vs[n], w);
    }
  }

  lemma SameBits(a: seq<bool>, b: seq<bool>)
    requires |a| == |b| && Value(a) == Value(b)
    ensures a == b
  {
    BitsOfValue(a);
    BitsOfValue(b);
  }

  // ----- grouping -----

  lemma {:induction false} ConcatSlice(vs: seq<nat>, w: nat, i: nat)
    requires i < |vs|
    ensures Start(w, i + 1) <= |Concat(vs, w)|
    ensures Concat(vs, w)[Start(w, i)..Start(w, i + 1)] == BitsOf(vs[i], w)
  {
    var n := |vs| - 1;
    StartMonotone(w, i + 1, |vs|);
    if i < n {
      ConcatSlice(vs[..n], w, i);
      SlicePrefix(Concat(vs[..n], w), BitsOf(vs[n], w), Start(w, i), Start(w, i + 1));
    }
  }

  lemma SlicePrefix(a: seq<bool>, b: seq<bool>, i: nat, j: nat)
    requires i <= j <= |a|
    ensures (a + b)[i..j] == a[i..j]
  {
  }

  lemma ConcatGroup(vs: seq<nat>, w: nat, i: nat)
    requires i < |vs| && vs[i] < Pow2(w)
    ensures Start(w, i + 1) <= |Concat(vs, w)| && Group(Concat(vs, w), w, i) == vs[i]
  {
    ConcatSlice(vs, w, i);
    ValueOfBits(vs[i], w);
  }

  ghost predicate IsGroup(b: seq<bool>, w: nat, i: nat, v: nat) {
    Start(w, i + 1) <= |b| && v == Group(b, w, i)
  }

  ghost predicate AreGroups(b: seq<bool>, w: nat, vs: seq<nat>) {
    Start(w, |vs|) <= |b| && forall i | 0 <= i < |vs| :: IsGroup(b, w, i, vs[i])
  }

  /** The leading groups of a bit string concatenate to the bits they cover. */
  lemma {:induction false} GroupsConcat(b: seq<bool>, w: nat, vs: seq<nat>)
    requires AreGroups(b, w, vs)
    ensures Concat(vs, w) == b[..Start(w, |vs|)]
  {
    if vs != [] {
      var n := |vs| - 1;
      GroupsConcat(b, w, vs[..n]);
      assert IsGroup(b, w, n, vs[n]);
      GroupBits(b, w, n);
    }
  }

  lemma GroupBits(b: seq<bool>, w: nat, i: nat)
    requires Start(w, i + 1) <= |b|
    ensures b[..Start(w, i + 1)] == b[..Start(w, i)] + BitsOf(Group(b, w, i), w)
  {
    BitsOfValue(b[Start(w, i)..Start(w, i + 1)]);
    SliceJoin(b, Start(w, i), Start(w, i + 1));
  }

  lemma SliceJoin(b: seq<bool>, i: nat, j: nat)
    requires i <= j <= |b|
    ensures b[..j] == b[..i] + b[i..j]
  {
  }

  // ----- the register -----

  /** `x << s` on a 64-bit register: bits above the 64th are lost. */
  function Shl(x: nat, s: nat): nat {
    Shift(x, s) % U64_MODULUS
  }

  /** `x >> s`. */
  function Shr(x: nat, s: nat): nat {
    if s == 0 then x else Shr(x / 2, s - 1)
  }

  lemma MulTwo(a: nat, p: nat)
    ensures 2 * (a * p) == a * (2 * p)
  {
  }

  lemma MulAtLeast(a: int, d: int)
    requires a >= 1 && d > 0
    ensures a * d >= d
  {
  }

  lemma DivModUnique(x: int, d: int, q: int, r: int)
    requires d > 0 && 0 <= r < d && x == q * d + r
    ensures x / d == q && x % d == r
  {
    var q', r' := x / d, x % d;
    assert x == d * q' + r';
    assert (q - q') * d == q * d - d * q';
    if q > q' {
      MulAtLeast(q - q', d);
    } else if q < q' {
      MulAtLeast(q' - q, d);
    }
  }

  lemma ModDouble(x: nat, m: nat)
    requires m > 0
    ensures x % (2 * m) == 2 * ((x / 2) % m) + x % 2
  {
    var q, r := (x / 2) / m, (x / 2) % m;
    assert x / 2 == q * m + r;
    MulTwo(q, m);
    DivModUnique(x, 2 * m, q, 2 * r + x % 2);
  }

  lemma ModAddMultiple(x: nat, c: nat, d: nat)
    requires d > 0
    ensures (x + c * d) % d == x % d
  {
    var q := x / d;
    assert x == q * d + x % d;
    assert x + c * d == (q + c) * d + x % d;
    DivModUnique(x + c * d, d, q + c, x % d);
  }

  lemma {:induction false} PowAdd(a: nat, b: nat)
    ensures Pow2(a + b) == Pow2(a) * Pow2(b)
  {
    if b != 0 {
      PowAdd(a, b - 1);
      MulTwo(Pow2(a), Pow2(b - 1));
    }
  }

  lemma Pow2Is64()
    ensures Pow2(64) == U64_MODULUS
  {
    assert Pow2(8) == 0x100;
    PowAdd(8, 8);
    PowAdd(16, 16);
    PowAdd(32, 32);
  }

  lemma ModOfMod(y: nat, v: nat, c: nat, d: nat)
    requires c > 0 && d > 0 && c * d > 0
    ensures (y % (c * d) + v) % d == (y + v) % d
  {
    var m := c * d;
    var q := y / m;
    assert y == q * m + y % m;
    assert q * m == (q * c) * d;
    ModAddMultiple(y % m + v, q * c, d);
  }

  /** Bits lost above the 64th do not show below it. */
  lemma WrapKeepsLow(y: nat, v: nat, m: nat)
    requires m <= 64
    ensures (y % U64_MODULUS + v) % Pow2(m) == (y + v) % Pow2(m)
  {
    Pow2Is64();
    PowAdd(64 - m, m);
    ModOfMod(y, v, Pow2(64 - m), Pow2(m));
  }

  /** The number in the low k bits. */
  function LowBits(x: nat, k: nat): nat {
    if k == 0 then 0 else 2 * LowBits(x / 2, k - 1) + x % 2
  }

  /** LowBits is the mask: `x & (2^k - 1)`. */
  lemma {:induction false} LowBitsIsMask(x: nat, k: nat)
    ensures LowBits(x, k) == x % Pow2(k)
  {
    if k != 0 {
      LowBitsIsMask(x / 2, k - 1);
      ModDouble(x, Pow2(k - 1));
    }
  }

  lemma LowMasks(x: nat)
    ensures LowBits(x, 5) == x % 32 && LowBits(x, 8) == x % 256
  {
    assert Pow2(5) == 32 && Pow2(8) == 256;
    LowBitsIsMask(x, 5);
    LowBitsIsMask(x, 8);
  }

  lemma {:induction false} LowBitsBound(x: nat, k: nat)
    ensures LowBits(x, k) < Pow2(k)
  {
    if k != 0 {
      LowBitsBound(x / 2, k - 1);
    }
  }

  lemma {:induction false} LowShift(x: nat, k: nat, v: nat, u: nat)
    requires v < Pow2(u)
    ensures LowBits(Shift(x, u) + v, k + u) == Shift(LowBits(x, k), u) + v
  {
    if u != 0 {
      LowShift(x, k, v / 2, u - 1);
      assert (Shift(x, u) + v) / 2 == Shift(x, u - 1) + v / 2;
    }
  }

  /** The register step of both loops, `buffer = (buffer << u) | v` with v below
      2^u, so that the bits or-ed in are free and `|` is `+`. The low k bits move
      up and v follows them, whatever stood above and whatever is lost. */
  lemma RegisterIn(buffer: nat, k: nat, v: nat, u: nat)
    requires v < Pow2(u) && k + u <= 64
    ensures LowBits(Shl(buffer, u) + v, k + u) == Shift(LowBits(buffer, k), u) + v
  {
    LowShift(buffer, k, v, u);
    WrapKeepsLow(Shift(buffer, u), v, k + u);
    LowBitsIsMask(Shift(buffer, u) + v, k + u);
    LowBitsIsMask(Shl(buffer, u) + v, k + u);
  }

  /** A number is its high part shifted back, plus its low bits. */
  lemma {:induction false} HighLow(x: nat, d: nat)
    ensures x == Shift(Shr(x, d), d) + LowBits(x, d)
  {
    if d != 0 {
      HighLow(x / 2, d - 1);
    }
  }

  lemma {:induction false} ShrShift(x: nat, u: nat, v: nat, d: nat)
    requires v < Pow2(u)
    ensures Shr(Shift(x, u) + v, d + u) == Shr(x, d)
  {
    if u != 0 {
      assert (Shift(x, u) + v) / 2 == Shift(x, u - 1) + v / 2;
      ShrShift(x, u - 1, v / 2, d);
    }
  }

  lemma {:induction false} ShrShr(x: nat, a: nat, b: nat)
    ensures Shr(Shr(x, a), b) == Shr(x, a + b)
  {
    if a != 0 {
      ShrShr(x / 2, a - 1, b);
    }
  }

  /** Numbers with the same low w + d bits have the same w bits above the low d. */
  lemma {:induction false} RegisterOut(x: nat, y: nat, w: nat, d: nat)
    requires LowBits(x, w + d) == LowBits(y, w + d)
    ensures LowBits(Shr(x, d), w) == LowBits(Shr(y, d), w) && LowBits(x, d) == LowBits(y, d)
  {
    if d != 0 {
      RegisterOut(x / 2, y / 2, w, d - 1);
    }
  }
}
