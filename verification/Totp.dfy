/** TOTP codes: dynamic truncation (section 5.3 of RFC 4226) and the window of
    accepted time steps (section 5.2 of RFC 6238). */
module Totp {
  import opened Prelude
  import Base32
  import Bits

  /** An HMAC-SHA1 result. */
  type Mac = d: seq<Byte> | |d| == 20 witness seq(20, i => 0)

  type Key = seq<Byte>

  /** The big-endian number in a byte string. */
  function BigEndian(bytes: seq<Byte>): nat {
    if bytes == [] then 0 else 256 * BigEndian(bytes[..|bytes| - 1]) + bytes[|bytes| - 1]
  }

  /** `result[19] & 0x0f`. */
  function TruncationOffset(d: Mac): (offset: nat)
    ensures offset + 3 < 19
  {
    d[19] % 16
  }

  /** The four bytes shifted into place; they do not overlap, so `|` is `+`. */
  function Truncated(d: Mac): nat {
    var o := TruncationOffset(d);
    0x100_0000 * (d[o] as int % 128) + 0x1_0000 * d[o + 1] as int + 0x100 * d[o + 2] as int + d[o + 3] as int
  }

  /** The last w decimal digits of n. */
  function Digits(n: nat, w: nat): (ds: seq<nat>)
    ensures |ds| == w && forall i | 0 <= i < w :: ds[i] < 10
  {
    if w == 0 then [] else Digits(n / 10, w - 1) + [n % 10]
  }

  function DecimalValue(ds: seq<nat>): nat {
    if ds == [] then 0 else 10 * DecimalValue(ds[..|ds| - 1]) + ds[|ds| - 1]
  }

  function Pow10(w: nat): (p: nat)
    ensures p > 0
  {
    if w == 0 then 1 else 10 * Pow10(w - 1)
  }

  /** `{:06}` of the truncated value modulo a million. */
  function Code(d: Mac): seq<nat> {
    Digits(Truncated(d) % 1_000_000, 6)
  }

  lemma {:induction false} DigitsValue(n: nat, w: nat)
    requires n < Pow10(w)
    ensures DecimalValue(Digits(n, w)) == n
  {
    if w != 0 {
      DigitsValue(n / 10, w - 1);
      assert Digits(n, w)[..w - 1] == Digits(n / 10, w - 1);
    }
  }

  lemma BigEndian4(b: seq<Byte>)
    requires |b| == 4
    ensures BigEndian(b) == 0x100_0000 * b[0] as int + 0x1_0000 * b[1] as int + 0x100 * b[2] as int + b[3] as int
  {
    assert BigEndian(b[..3]) == 256 * BigEndian(b[..3][..2]) + b[2];
    assert BigEndian(b[..3][..2]) == 256 * BigEndian(b[..3][..2][..1]) + b[1];
    assert b[..3][..2][..1] == [b[0]];
  }

  lemma TruncatedIsWord(d: Mac)
    ensures var o := d[19] as int % 16; Truncated(d) == BigEndian(d[o..o + 4]) % 0x8000_0000
  {
    var o := TruncationOffset(d);
    BigEndian4(d[o..o + 4]);
  }

  /** The code is six digits long and denotes the big-endian word at the
      truncation offset, modulo 2^31 and then modulo a million. */
  lemma CodeIsTruncatedWord(d: Mac)
    ensures var o := d[19] as int % 16;
            && |Code(d)| == 6 && o + 4 <= 19
            && DecimalValue(Code(d)) == BigEndian(d[o..o + 4]) % 0x8000_0000 % 1_000_000
  {
    TruncatedIsWord(d);
    assert Pow10(6) == 1_000_000 by {
      assert Pow10(3) == 1000;
    }
    DigitsValue(Truncated(d) % 1_000_000, 6);
  }

  /** n / 10^k. */
  function Tens(n: nat, k: nat): nat {
    if k == 0 then n else Tens(n / 10, k - 1)
  }

  lemma {:induction false} DigitAt(n: nat, w: nat, i: nat)
    requires i < w
    ensures Digits(n, w)[i] == Tens(n, w - 1 - i) % 10
  {
    if i < w - 1 {
      DigitAt(n / 10, w - 1, i);
    }
  }

  lemma {:induction false} TensIsQuotient(n: nat, k: nat)
    ensures Tens(n, k) == n / Pow10(k)
  {
    if k != 0 {
      TensIsQuotient(n / 10, k - 1);
      DivDiv(n, Pow10(k - 1));
    }
  }

  lemma DivDiv(n: nat, p: nat)
    requires p > 0
    ensures n / 10 / p == n / (10 * p)
  {
    var q := n / 10 / p;
    var rest := n / 10 % p;
    assert n == 10 * (n / 10) + n % 10 && n / 10 == p * q + rest;
    assert n == (10 * p) * q + (10 * rest + n % 10);
    Bits.DivModUnique(n, 10 * p, q, 10 * rest + n % 10);
  }

  /** The digits one by one, most significant first. */
  lemma CodeDigits(d: Mac, i: nat)
    requires i < 6
    ensures var o := d[19] as int % 16;
            Code(d)[i] == BigEndian(d[o..o + 4]) % 0x8000_0000 % 1_000_000 / Pow10(5 - i) % 10
  {
    TruncatedIsWord(d);
    DigitAt(Truncated(d) % 1_000_000, 6, i);
    TensIsQuotient(Truncated(d) % 1_000_000, 5 - i);
  }

  // ----- the window -----

  function Counter(time: nat): nat {
    time / 30
  }

  function SaturatingSub(a: nat, b: nat): nat {
    if a >= b then a - b else 0
  }

  function SaturatingAdd(a: nat, b: nat): nat {
    if a + b < U64_MODULUS then a + b else U64_MODULUS - 1
  }

  predicate InWindow(c: nat, now: nat) {
    SaturatingSub(Counter(now), 1) <= c <= SaturatingAdd(Counter(now), 1)
  }

  /** `hmac(key, counter)` is left abstract. */
  ghost predicate VerifyTotp(hmac: (Key, nat) -> Mac, secretB32: seq<Byte>, code: seq<nat>, now: nat) {
    match Base32.Decoded(secretB32)
    case Err(_) => false
    case Ok(key) =>
      var lo, hi := SaturatingSub(Counter(now), 1), SaturatingAdd(Counter(now), 1);
      exists c | lo <= c <= hi :: Code(hmac(key, c)) == code
  }

  /** The executable check: decode the secret, then try every step of the window. */
  method CheckTotp(hmac: (Key, nat) -> Mac, secretB32: seq<Byte>, code: seq<nat>, now: nat) returns (ok: bool)
    ensures ok == VerifyTotp(hmac, secretB32, code, now)
  {
    var decoded := Base32.Decode(secretB32);
    if decoded.Err? {
      return false;
    }
    var lo, hi := SaturatingSub(Counter(now), 1), SaturatingAdd(Counter(now), 1);
    var c := lo;
    while c <= hi
      invariant lo <= c
      invariant forall k | lo <= k < c && k <= hi :: Code(hmac(decoded.value, k)) != code
      decreases if c <= hi then hi - c + 1 else 0
    {
      if Code(hmac(decoded.value, c)) == code {
        return true;
      }
      c := c + 1;
    }
    return false;
  }

  /** Exactly which times a clock reading of `now` accepts codes from: those from
      30 seconds before its own step began up to 60 seconds after. */
  lemma WindowExactly(t: nat, now: nat)
    requires now < U64_MODULUS
    ensures InWindow(t / 30, now) <==> now - now % 30 - 30 <= t < now - now % 30 + 60
  {
  }

  /** Every step has a time. */
  lemma StepTime(c: nat)
    ensures Counter(30 * c) == c
  {
  }

  /** A code is accepted exactly when the secret decodes and some time of the window,
      30 seconds before the current step to 60 seconds after its start, yields it. */
  lemma AcceptedIff(hmac: (Key, nat) -> Mac, secretB32: seq<Byte>, code: seq<nat>, now: nat)
    requires now < U64_MODULUS
    ensures VerifyTotp(hmac, secretB32, code, now) <==>
            && Base32.Decoded(secretB32).Ok?
            && exists t: nat :: now - now % 30 - 30 <= t < now - now % 30 + 60
                 && Code(hmac(Base32.Decoded(secretB32).value, t / 30)) == code
  {
    if VerifyTotp(hmac, secretB32, code, now) {
      var key := Base32.Decoded(secretB32).value;
      var c: nat :| InWindow(c, now) && Code(hmac(key, c)) == code;
      StepTime(c);
      WindowExactly(30 * c, now);
      assert Code(hmac(key, (30 * c) / 30)) == code;
    }
    if Base32.Decoded(secretB32).Ok? {
      var key := Base32.Decoded(secretB32).value;
      forall t: nat | now - now % 30 - 30 <= t < now - now % 30 + 60 && Code(hmac(key, t / 30)) == code
        ensures VerifyTotp(hmac, secretB32, code, now)
      {
        WindowExactly(t, now);
      }
    }
  }

  /** A code generated at t is accepted at every time within 30 seconds of it, for
      every text that decodes to the secret. */
  lemma AcceptedWithin30(hmac: (Key, nat) -> Mac, secretB32: seq<Byte>, key: Key, t: nat, now: nat)
    requires now < U64_MODULUS && t - 30 <= now <= t + 30 && Base32.Decoded(secretB32) == Ok(key)
    ensures VerifyTotp(hmac, secretB32, Code(hmac(key, t / 30)), now)
  {
    WindowExactly(t, now);
    assert InWindow(Counter(t), now);
  }

  /** In particular for the text that enrolment hands out. */
  lemma EnrolledSecretWorks(hmac: (Key, nat) -> Mac, key: Key, t: nat, now: nat)
    requires now < U64_MODULUS && t - 30 <= now <= t + 30
    ensures VerifyTotp(hmac, Base32.Encoded(key), Code(hmac(key, t / 30)), now)
  {
    Base32.RoundTrip(key);
    AcceptedWithin30(hmac, Base32.Encoded(key), key, t, now);
  }

  /** The step of a time at least 60 seconds away is not in the window. */
  lemma OutsideWindow(t: nat, now: nat)
    requires now < U64_MODULUS && (t + 60 <= now || now + 60 <= t)
    ensures !InWindow(t / 30, now)
  {
    WindowExactly(t, now);
  }
}
