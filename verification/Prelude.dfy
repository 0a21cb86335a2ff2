/** Shared datatypes and machine-integer bounds. */
module Prelude {
  datatype Option<+T> = None | Some(value: T)

  datatype Result<+T, +E> = Ok(value: T) | Err(error: E)

  type Byte = x: int | 0 <= x < 256

  const U32_MODULUS: int := 0x1_0000_0000
  const U64_MODULUS: int := 0x1_0000_0000_0000_0000
  const I64_MIN: int := -0x8000_0000_0000_0000
  const I64_MAX: int := 0x7FFF_FFFF_FFFF_FFFF

  /** The numbers below k with a property. */
  ghost function Below(k: nat, p: nat -> bool): set<nat> {
    set n: nat | n < k && p(n)
  }

  lemma BelowSnoc(k: nat, p: nat -> bool, q: nat -> bool)
    requires forall n: nat | n < k :: p(n) <==> q(n)
    ensures |Below(k + 1, q)| == |Below(k, p)| + (if q(k) then 1 else 0)
  {
    assert Below(k + 1, q) == Below(k, p) + (if q(k) then {k} else {});
  }

  lemma SubsetSize<T>(a: set<T>, b: set<T>)
    requires a <= b
    ensures |a| <= |b|
  {
    assert b == a + (b - a);
  }
}
