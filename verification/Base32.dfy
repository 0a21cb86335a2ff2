/** The unpadded base32 codec of the TOTP secrets (section 6 of RFC 4648). */
module Base32 {
  import opened Prelude
  import opened Bits

  function Alphabet(i: nat): Byte
    requires i < 32
  {
    if i < 26 then 65 + i else 24 + i
  }

  /** The table is the one of RFC 4648. */
  lemma AlphabetIsRfc4648(i: nat)
    requires i < 32
    ensures "ABCDEFGHIJKLMNOPQRSTUVWXYZ234567"[i] as int == Alphabet(i)
  {
    var letters := "ABCDEFGHIJKLMNOPQRSTUVWXYZ234567";
    assert forall j: nat | j < 16 :: letters[j] as int == Alphabet(j);
    assert forall j: nat | 16 <= j < 32 :: letters[j] as int == Alphabet(j);
  }

  /** The place of a character in the alphabet. */
  function Position(ch: Byte): (r: Option<nat>)
    ensures r.Some? ==> r.value < 32 && Alphabet(r.value) == ch
    ensures r.None? ==> forall i: nat | i < 32 :: Alphabet(i) != ch
  {
    if 65 <= ch <= 90 then Some(ch - 65)
    else if 50 <= ch <= 55 then Some(ch - 24)
    else None
  }

  function Upper(ch: Byte): Byte {
    if 97 <= ch <= 122 then ch - 32 else ch
  }

  // ----- what the codec computes -----

  /** Characters needed for n bytes: the ceiling of 8n/5. */
  function CharCount(n: nat): nat {
    (8 * n + 4) / 5
  }

  /** The bit string of the bytes, zero-padded to whole groups of five. */
  ghost function Padded(bytes: seq<Byte>): (b: seq<bool>)
    ensures |b| == Start(5, CharCount(|bytes|))
  {
    StartIsProduct(8, |bytes|);
    StartIsProduct(5, CharCount(|bytes|));
    Concat(bytes, 8) + Zeros(5 * CharCount(|bytes|) - 8 * |bytes|)
  }

  ghost function Quintet(b: seq<bool>, i: nat): (g: nat)
    requires Start(5, i + 1) <= |b|
    ensures g < 32
  {
    ValueBound(b[Start(5, i)..Start(5, i + 1)]);
    Group(b, 5, i)
  }

  ghost function Octet(b: seq<bool>, i: nat): (g: Byte)
    requires Start(8, i + 1) <= |b|
  {
    ValueBound(b[Start(8, i)..Start(8, i + 1)]);
    Group(b, 8, i)
  }

  /** The i-th character encodes the i-th group of five bits. */
  ghost function Encoded(bytes: seq<Byte>): seq<Byte> {
    seq(CharCount(|bytes|), i requires 0 <= i < CharCount(|bytes|) =>
      StartMonotone(5, i + 1, CharCount(|bytes|));
      Alphabet(Quintet(Padded(bytes), i)))
  }

  predicate Valid(ch: Byte) {
    Position(Upper(ch)).Some?
  }

  predicate AllValid(text: seq<Byte>) {
    forall i | 0 <= i < |text| :: Valid(text[i])
  }

  ghost function Indices(text: seq<Byte>): (ix: seq<nat>)
    requires AllValid(text)
    ensures |ix| == |text| && forall i | 0 <= i < |ix| :: ix[i] < 32 && Alphabet(ix[i]) == Upper(text[i])
  {
    seq(|text|, i requires 0 <= i < |text| => Position(Upper(text[i])).value)
  }

  ghost function FirstInvalid(text: seq<Byte>): (ch: Byte)
    requires !AllValid(text)
    ensures !Valid(ch) && ch in text
  {
    if Valid(text[0]) then FirstInvalid(text[1..]) else text[0]
  }

  ghost function ByteCount(n: nat): nat {
    5 * n / 8
  }

  /** The bytes that the bits of the characters hold in full. */
  ghost function Payload(text: seq<Byte>): seq<Byte>
    requires AllValid(text)
  {
    var b := Concat(Indices(text), 5);
    seq(ByteCount(|text|), i requires 0 <= i < ByteCount(|text|) =>
      StartIsProduct(8, i + 1);
      StartIsProduct(5, |text|);
      Octet(b, i))
  }

  ghost function Decoded(text: seq<Byte>): Result<seq<Byte>, Byte> {
    if AllValid(text) then Ok(Payload(text)) else Err(FirstInvalid(text))
  }

  // ----- the loops -----

  /** The state of either loop. Of the number read so far, the w-bit digits
      written hold all but the last `bits` bits, and the register agrees with it
      on those. Nothing is said of the register's bits above. */
  ghost predicate Holding(vs: seq<nat>, w: nat, bits: nat, buffer: nat, all: nat) {
    Num(vs, w) == Shr(all, bits) && LowBits(buffer, bits) == LowBits(all, bits)
  }

  /** Taking one more input digit of u bits into the register. */
  lemma TakeIn(vs: seq<nat>, w: nat, bits: nat, buffer: nat, all: nat, v: nat, u: nat)
    requires Holding(vs, w, bits, buffer, all) && v < Pow2(u) && bits + u <= 64
    ensures Holding(vs, w, bits + u, Shl(buffer, u) + v, Shift(all, u) + v)
  {
    RegisterIn(buffer, bits, v, u);
    LowShift(all, bits, v, u);
    ShrShift(all, u, v, bits);
  }

  /** Moving one digit of w bits from the register to the output. */
  lemma PutOut(vs: seq<nat>, w: nat, bits: nat, buffer: nat, all: nat)
    requires Holding(vs, w, bits + w, buffer, all)
    ensures Holding(vs + [LowBits(Shr(buffer, bits), w)], w, bits, buffer, all)
  {
    RegisterOut(buffer, all, w, bits);
    HighLow(Shr(all, bits), w);
    ShrShr(all, bits, w);
    NumSnoc(vs, w, LowBits(Shr(all, bits), w));
  }

  ghost predicate Spelled(out: seq<Byte>, ix: seq<nat>) {
    |out| == |ix| && forall i | 0 <= i < |ix| :: ix[i] < 32 && out[i] == Alphabet(ix[i])
  }

  lemma SpelledSnoc(out: seq<Byte>, ix: seq<nat>, idx: nat)
    requires Spelled(out, ix) && idx < 32
    ensures Spelled(out + [Alphabet(idx)], ix + [idx])
  {
  }

  /** The encoder between bytes: k bytes read, the digits ix written. */
  ghost predicate Encoding(bytes: seq<Byte>, k: nat, ix: seq<nat>, bits: nat, buffer: nat) {
    && k <= |bytes| && 8 * k == 5 * |ix| + bits
    && Holding(ix, 5, bits, buffer, Num(bytes[..k], 8))
  }

  lemma EncodingTake(bytes: seq<Byte>, k: nat, ix: seq<nat>, bits: nat, buffer: nat)
    requires Encoding(bytes, k, ix, bits, buffer) && k < |bytes| && bits < 5
    ensures Encoding(bytes, k + 1, ix, bits + 8, Shl(buffer, 8) + bytes[k])
  {
    assert Pow2(8) == 256;
    TakeIn(ix, 5, bits, buffer, Num(bytes[..k], 8), bytes[k], 8);
    NumSnoc(bytes[..k], 8, bytes[k]);
    assert bytes[..k] + [bytes[k]] == bytes[..k + 1];
  }

  lemma EncodingPut(bytes: seq<Byte>, k: nat, ix: seq<nat>, bits: nat, buffer: nat)
    requires Encoding(bytes, k, ix, bits + 5, buffer)
    ensures Encoding(bytes, k, ix + [Shr(buffer, bits) % 32], bits, buffer)
  {
    LowMasks(Shr(buffer, bits));
    PutOut(ix, 5, bits, buffer, Num(bytes[..k], 8));
  }

  method Encode(bytes: seq<Byte>) returns (out: seq<Byte>)
    ensures out == Encoded(bytes)
  {
    out := [];
    var buffer: nat, bits: nat := 0, 0;
    ghost var ix: seq<nat> := [];
    for k := 0 to |bytes|
      invariant bits < 5 && Spelled(out, ix) && Encoding(bytes, k, ix, bits, buffer)
    {
      EncodingTake(bytes, k, ix, bits, buffer);
      buffer := Shl(buffer, 8) + bytes[k];
      bits := bits + 8;
      while bits >= 5
        invariant Spelled(out, ix) && Encoding(bytes, k + 1, ix, bits, buffer)
      {
        bits := bits - 5;
        EncodingPut(bytes, k + 1, ix, bits, buffer);
        var idx := Shr(buffer, bits) % 32;
        SpelledSnoc(out, ix, idx);
        out := out + [Alphabet(idx)];
        ix := ix + [idx];
      }
    }
    if bits > 0 {
      LastQuintet(bytes, ix, bits, buffer);
      var idx := Shl(buffer, 5 - bits) % 32;
      SpelledSnoc(out, ix, idx);
      out := out + [Alphabet(idx)];
      ix := ix + [idx];
    } else {
      NoQuintet(bytes, ix, buffer);
    }
    QuintetsAreEncoded(bytes, ix, out);
  }

  /** Every group is full, so nothing is padded. */
  lemma NoQuintet(bytes: seq<Byte>, ix: seq<nat>, buffer: nat)
    requires Encoding(bytes, |bytes|, ix, 0, buffer)
    ensures |ix| == CharCount(|bytes|)
    ensures Num(ix, 5) == Shift(Num(bytes, 8), 5 * |ix| - 8 * |bytes|)
  {
    assert bytes[..|bytes|] == bytes;
  }

  /** The final partial group is padded on the right with zero bits. */
  lemma LastQuintet(bytes: seq<Byte>, ix: seq<nat>, bits: nat, buffer: nat)
    requires Encoding(bytes, |bytes|, ix, bits, buffer) && 0 < bits < 5
    ensures var ix' := ix + [Shl(buffer, 5 - bits) % 32];
            && |ix'| == CharCount(|bytes|)
            && Num(ix', 5) == Shift(Num(bytes, 8), 5 * |ix'| - 8 * |bytes|)
  {
    assert bytes[..|bytes|] == bytes;
    LowMasks(Shl(buffer, 5 - bits));
    TakeIn(ix, 5, bits, buffer, Num(bytes, 8), 0, 5 - bits);
    HighLow(Shift(Num(bytes, 8), 5 - bits), 5);
    NumSnoc(ix, 5, Shl(buffer, 5 - bits) % 32);
  }

  lemma QuintetBits(bytes: seq<Byte>, ix: seq<nat>)
    requires |ix| == CharCount(|bytes|) && Num(ix, 5) == Shift(Num(bytes, 8), 5 * |ix| - 8 * |bytes|)
    requires Digits(ix, 5)
    ensures Concat(ix, 5) == Padded(bytes)
  {
    assert Pow2(8) == 256;
    var pad := Zeros(5 * |ix| - 8 * |bytes|);
    NumIsValue(ix, 5);
    NumIsValue(bytes, 8);
    ValueJoin(Concat(bytes, 8), pad);
    ValueOfZeros(|pad|);
    SameBits(Concat(ix, 5), Padded(bytes));
  }

  lemma QuintetsAreEncoded(bytes: seq<Byte>, ix: seq<nat>, out: seq<Byte>)
    requires |ix| == CharCount(|bytes|) && Num(ix, 5) == Shift(Num(bytes, 8), 5 * |ix| - 8 * |bytes|)
    requires Spelled(out, ix)
    ensures out == Encoded(bytes)
  {
    assert Pow2(5) == 32;
    QuintetBits(bytes, ix);
    forall i | 0 <= i < |ix|
      ensures out[i] == Encoded(bytes)[i]
    {
      ConcatGroup(ix, 5, i);
    }
  }

  /** The decoder between characters: k read, out written. */
  ghost predicate Decoding(text: seq<Byte>, k: nat, out: seq<nat>, bits: nat, buffer: nat) {
    && k <= |text| && AllValid(text[..k]) && 5 * k == 8 * |out| + bits
    && Holding(out, 8, bits, buffer, Num(Indices(text[..k]), 5))
  }

  lemma DecodingTake(text: seq<Byte>, k: nat, out: seq<nat>, bits: nat, buffer: nat)
    requires Decoding(text, k, out, bits, buffer) && k < |text| && bits < 8 && Valid(text[k])
    ensures var v := Position(Upper(text[k])).value;
            Decoding(text, k + 1, out, bits + 5, Shl(buffer, 5) + v)
  {
    var v := Position(Upper(text[k])).value;
    assert Pow2(5) == 32;
    TakeIn(out, 8, bits, buffer, Num(Indices(text[..k]), 5), v, 5);
    IndicesSnoc(text, k);
    NumSnoc(Indices(text[..k]), 5, v);
  }

  lemma DecodingPut(text: seq<Byte>, k: nat, out: seq<nat>, bits: nat, buffer: nat)
    requires Decoding(text, k, out, bits + 8, buffer)
    ensures Decoding(text, k, out + [Shr(buffer, bits) % 256], bits, buffer)
  {
    LowMasks(Shr(buffer, bits));
    PutOut(out, 8, bits, buffer, Num(Indices(text[..k]), 5));
  }

  method Decode(text: seq<Byte>) returns (r: Result<seq<Byte>, Byte>)
    ensures r == Decoded(text)
  {
    var out: seq<Byte> := [];
    var buffer: nat, bits: nat := 0, 0;
    for k := 0 to |text|
      invariant bits < 8 && Decoding(text, k, out, bits, buffer)
    {
      var idx := Position(Upper(text[k]));
      if idx.None? {
        FirstInvalidAt(text, k);
        return Err(text[k]);
      }
      DecodingTake(text, k, out, bits, buffer);
      buffer := Shl(buffer, 5) + idx.value;
      bits := bits + 5;
      assert Decoding(text, k + 1, out, bits, buffer);
      if bits >= 8 {
        bits := bits - 8;
        DecodingPut(text, k + 1, out, bits, buffer);
        out := out + [Shr(buffer, bits) % 256];
      }
    }
    DecodingDone(text, out, bits, buffer);
    r := Ok(out);
  }

  lemma DecodingDone(text: seq<Byte>, out: seq<Byte>, bits: nat, buffer: nat)
    requires Decoding(text, |text|, out, bits, buffer) && bits < 8
    ensures Decoded(text) == Ok(out)
  {
    assert text[..|text|] == text;
    var all := Num(Indices(text), 5);
    HighLow(all, bits);
    LowBitsBound(all, bits);
    OctetsArePayload(text, out, bits, LowBits(all, bits));
  }

  lemma IndicesSnoc(text: seq<Byte>, k: nat)
    requires k < |text| && AllValid(text[..k]) && Valid(text[k])
    ensures AllValid(text[..k + 1])
    ensures Indices(text[..k + 1]) == Indices(text[..k]) + [Position(Upper(text[k])).value]
  {
    assert forall i | 0 <= i < k :: text[..k + 1][i] == text[..k][i];
  }

  lemma OctetBits(text: seq<Byte>, out: seq<Byte>, bits: nat, rest: nat)
    requires AllValid(text) && 5 * |text| == 8 * |out| + bits && rest < Pow2(bits)
    requires Shift(Num(out, 8), bits) + rest == Num(Indices(text), 5)
    ensures Concat(out, 8) + BitsOf(rest, bits) == Concat(Indices(text), 5)
  {
    assert Pow2(5) == 32 && Pow2(8) == 256;
    StartIsProduct(5, |text|);
    StartIsProduct(8, |out|);
    NumIsValue(Indices(text), 5);
    NumIsValue(out, 8);
    ValueJoin(Concat(out, 8), BitsOf(rest, bits));
    ValueOfBits(rest, bits);
    SameBits(Concat(out, 8) + BitsOf(rest, bits), Concat(Indices(text), 5));
  }

  lemma OctetsArePayload(text: seq<Byte>, out: seq<Byte>, bits: nat, rest: nat)
    requires AllValid(text) && bits < 8 && 5 * |text| == 8 * |out| + bits && rest < Pow2(bits)
    requires Shift(Num(out, 8), bits) + rest == Num(Indices(text), 5)
    ensures out == Payload(text)
  {
    OctetBits(text, out, bits, rest);
    forall i | 0 <= i < |out|
      ensures out[i] == Payload(text)[i]
    {
      PayloadAt(text, i);
      assert Pow2(8) == 256;
      ConcatGroup(out, 8, i);
      SlicePrefix(Concat(out, 8), BitsOf(rest, bits), Start(8, i), Start(8, i + 1));
    }
  }

  lemma PayloadAt(text: seq<Byte>, i: nat)
    requires AllValid(text) && i < ByteCount(|text|)
    ensures Start(8, i + 1) <= |Concat(Indices(text), 5)|
    ensures Payload(text)[i] == Group(Concat(Indices(text), 5), 8, i)
  {
    StartIsProduct(5, |text|);
    StartIsProduct(8, i + 1);
  }

  lemma FirstInvalidAt(text: seq<Byte>, k: nat)
    requires k < |text| && AllValid(text[..k]) && !Valid(text[k])
    ensures Decoded(text) == Err(text[k])
  {
    if k != 0 {
      assert Valid(text[..k][0]);
      assert text[1..][..k - 1] == text[..k][1..];
      FirstInvalidAt(text[1..], k - 1);
    }
  }

  // ----- the codec as a whole -----

  /** Decoding an encoding returns the bytes, at every length. */
  lemma RoundTrip(bytes: seq<Byte>)
    ensures Decoded(Encoded(bytes)) == Ok(bytes)
  {
    EncodedNumber(bytes);
    OctetsArePayload(Encoded(bytes), bytes, 5 * CharCount(|bytes|) - 8 * |bytes|, 0);
  }

  /** The characters of an encoding carry exactly the padded bit string. */
  lemma EncodedIndices(bytes: seq<Byte>)
    ensures AllValid(Encoded(bytes)) && Concat(Indices(Encoded(bytes)), 5) == Padded(bytes)
  {
    var text, b := Encoded(bytes), Padded(bytes);
    forall i | 0 <= i < |text|
      ensures Valid(text[i]) && IsGroup(b, 5, i, Position(Upper(text[i])).value)
    {
      StartMonotone(5, i + 1, |text|);
      assert text[i] == Alphabet(Quintet(b, i));
    }
    GroupsConcat(b, 5, Indices(text));
  }

  /** Decoding fails exactly when some character is no letter of either case and no
      digit from 2 to 7; the output length is the floor of 5n/8. */
  lemma DecodeOutcome(text: seq<Byte>)
    ensures Decoded(text).Err? <==>
            exists i | 0 <= i < |text| :: !('A' as int <= text[i] <= 'Z' as int || 'a' as int <= text[i] <= 'z' as int
                                            || '2' as int <= text[i] <= '7' as int)
    ensures Decoded(text).Ok? ==> |Decoded(text).value| == 5 * |text| / 8
    ensures Decoded(text).Err? ==> Decoded(text).error in text
  {
    if Decoded(text).Err? {
      var i :| 0 <= i < |text| && !Valid(text[i]);
    }
  }

  /** The bits left over after the last whole byte. */
  ghost function Leftover(text: seq<Byte>): seq<bool>
    requires AllValid(text)
  {
    StartIsProduct(5, |text|);
    Concat(Indices(text), 5)[8 * ByteCount(|text|)..]
  }

  lemma PayloadPrefix(text: seq<Byte>)
    requires AllValid(text)
    ensures Start(8, |Payload(text)|) <= |Concat(Indices(text), 5)|
    ensures Concat(Payload(text), 8) == Concat(Indices(text), 5)[..Start(8, |Payload(text)|)]
  {
    var b, out: seq<nat> := Concat(Indices(text), 5), Payload(text);
    StartIsProduct(5, |text|);
    StartIsProduct(8, |out|);
    forall i | 0 <= i < |out|
      ensures IsGroup(b, 8, i, out[i])
    {
      PayloadAt(text, i);
    }
    GroupsConcat(b, 8, out);
  }

  lemma PayloadBits(text: seq<Byte>)
    requires AllValid(text)
    ensures Concat(Payload(text), 8) + Leftover(text) == Concat(Indices(text), 5)
    ensures |Leftover(text)| == 5 * |text| % 8
  {
    var b, k := Concat(Indices(text), 5), 8 * ByteCount(|text|);
    PayloadPrefix(text);
    StartIsProduct(5, |text|);
    StartIsProduct(8, ByteCount(|text|));
    assert b[..k] + b[k..] == b;
  }

  ghost predicate IsUpperOf(text: seq<Byte>, original: seq<Byte>) {
    && |text| == |original|
    && forall i | 0 <= i < |text| ::
         text[i] == if 'a' as int <= original[i] <= 'z' as int then original[i] - 32 else original[i]
  }

  /** Decoding ignores case. */
  lemma CaseIsIgnored(text: seq<Byte>, upper: seq<Byte>)
    requires IsUpperOf(upper, text) && AllValid(text)
    ensures AllValid(upper) && Decoded(upper) == Decoded(text)
  {
    assert forall i | 0 <= i < |text| :: Upper(upper[i]) == Upper(text[i]) && Valid(text[i]);
    assert Indices(upper) == Indices(text);
  }

  /** As numbers: the characters of an encoding are the base-32 digits of the bytes,
      read as a number to base 256 and shifted left by the padding. */
  lemma EncodedNumber(bytes: seq<Byte>)
    ensures var text, pad := Encoded(bytes), 5 * CharCount(|bytes|) - 8 * |bytes|;
            AllValid(text) && 0 <= pad < 5 && Num(Indices(text), 5) == Shift(Num(bytes, 8), pad)
  {
    EncodedIndices(bytes);
    PaddedNumber(bytes);
    IndicesNumber(Encoded(bytes));
  }

  lemma IndicesNumber(text: seq<Byte>)
    requires AllValid(text)
    ensures Num(Indices(text), 5) == Value(Concat(Indices(text), 5))
  {
    assert Pow2(5) == 32;
    NumIsValue(Indices(text), 5);
  }

  lemma BytesNumber(bytes: seq<Byte>)
    ensures Num(bytes, 8) == Value(Concat(bytes, 8))
  {
    assert Pow2(8) == 256;
    NumIsValue(bytes, 8);
  }

  lemma PaddedNumber(bytes: seq<Byte>)
    ensures Value(Padded(bytes)) == Shift(Num(bytes, 8), 5 * CharCount(|bytes|) - 8 * |bytes|)
  {
    var pad := Zeros(5 * CharCount(|bytes|) - 8 * |bytes|);
    BytesNumber(bytes);
    ValueJoin(Concat(bytes, 8), pad);
    ValueOfZeros(|pad|);
  }

  /** As numbers: what is decoded is the quotient of the characters' number by the
      weight of the left-over bits. */
  lemma DecodedNumber(text: seq<Byte>)
    requires AllValid(text)
    ensures var rest := Leftover(text);
            && |rest| == 5 * |text| % 8 && Value(rest) < Pow2(|rest|)
            && Num(Indices(text), 5) == Shift(Num(Payload(text), 8), |rest|) + Value(rest)
  {
    PayloadBits(text);
    IndicesNumber(text);
    BytesNumber(Payload(text));
    ValueJoin(Concat(Payload(text), 8), Leftover(text));
    ValueBound(Leftover(text));
  }

  lemma SameIndices(text: seq<Byte>, original: seq<Byte>)
    requires AllValid(text) && AllValid(original) && |text| == |original|
    requires forall i | 0 <= i < |text| :: Upper(text[i]) == text[i]
    ensures IsUpperOf(text, original) <==> Indices(text) == Indices(original)
  {
    if Indices(text) == Indices(original) {
      forall i | 0 <= i < |text|
        ensures text[i] == Upper(original[i])
      {
        assert Alphabet(Indices(text)[i]) == Upper(text[i]);
      }
    }
  }

  lemma ConcatInjective(a: seq<nat>, b: seq<nat>)
    requires |a| == |b| && (forall i | 0 <= i < |a| :: a[i] < 32 && b[i] < 32) && Concat(a, 5) == Concat(b, 5)
    ensures a == b
  {
    assert Pow2(5) == 32;
    forall i | 0 <= i < |a|
      ensures a[i] == b[i]
    {
      ConcatGroup(a, 5, i);
      ConcatGroup(b, 5, i);
    }
  }

  /** Re-encoding what was decoded gives the upper-cased input exactly when fewer
      than five bits were left over and all of them are zero. */
  lemma ReencodeExactly(text: seq<Byte>)
    requires AllValid(text)
    ensures IsUpperOf(Encoded(Payload(text)), text) <==>
            |Leftover(text)| < 5 && Leftover(text) == Zeros(|Leftover(text)|)
  {
    var out, rest := Payload(text), Leftover(text);
    var again := Encoded(out);
    PayloadBits(text);
    EncodedIndices(out);
    assert |again| == |text| <==> |rest| < 5;
    if |rest| < 5 {
      assert forall i | 0 <= i < |again| :: Upper(again[i]) == again[i];
      SameIndices(again, text);
      assert Padded(out) == Concat(out, 8) + Zeros(|rest|);
      if Padded(out) == Concat(Indices(text), 5) {
        ConcatInjective(Indices(again), Indices(text));
        assert rest == (Concat(out, 8) + rest)[|Concat(out, 8)|..];
        assert Zeros(|rest|) == (Concat(out, 8) + Zeros(|rest|))[|Concat(out, 8)|..];
      }
    }
  }
}
