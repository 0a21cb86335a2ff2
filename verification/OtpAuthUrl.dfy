/** Percent-encoding (section 2.1 of RFC 3986) and the provisioning URL. */
module OtpAuthUrl {
  import opened Prelude

  /** Letters, digits, `-`, `.`, `_`, `~` and `:` stand for themselves. */
  predicate Plain(b: Byte) {
    || 65 <= b <= 90 || 97 <= b <= 122 || 48 <= b <= 57
    || b == 45 || b == 46 || b == 95 || b == 126 || b == 58
  }

  function Hex(n: nat): char
    requires n < 16
  {
    if n < 10 then (48 + n) as char else (55 + n) as char
  }

  function EncodedByte(b: Byte): string {
    if Plain(b) then [b as char] else ['%', Hex(b / 16), Hex(b % 16)]
  }

  function Encoded(bytes: seq<Byte>): string {
    if bytes == [] then [] else EncodedByte(bytes[0]) + Encoded(bytes[1..])
  }

  /** Byte by byte: the characters of RFC 3986 that are never reserved, and the colon,
      stay; any other byte is a percent sign and two upper-case hexadecimal digits. */
  lemma EncodedByteIs(b: Byte)
    ensures var c := b as char;
            EncodedByte(b) ==
            if 'A' <= c <= 'Z' || 'a' <= c <= 'z' || '0' <= c <= '9' || c in "-._~:" then [c]
            else ['%', "0123456789ABCDEF"[b / 16], "0123456789ABCDEF"[b % 16]]
  {
    HexIs(b / 16);
    HexIs(b % 16);
  }

  lemma HexIs(n: nat)
    requires n < 16
    ensures Hex(n) == "0123456789ABCDEF"[n]
  {
    var digits := "0123456789ABCDEF";
    assert forall k: nat | k < 8 :: digits[k] as int == 48 + k || k > 7;
    assert n < 8 ==> digits[n] as int == 48 + n;
    assert 8 <= n < 10 ==> digits[n] as int == 48 + n;
    assert 10 <= n ==> digits[n] as int == 55 + n;
  }

  lemma {:induction false} EncodedSnoc(bytes: seq<Byte>, b: Byte)
    ensures Encoded(bytes + [b]) == Encoded(bytes) + EncodedByte(b)
  {
    if bytes == [] {
      assert bytes + [b] == [b];
      assert Encoded([b]) == EncodedByte(b) + Encoded([b][1..]);
    } else {
      assert (bytes + [b])[1..] == bytes[1..] + [b];
      EncodedSnoc(bytes[1..], b);
    }
  }

  method EncodeByte(b: Byte) returns (piece: string)
    ensures piece == EncodedByte(b)
  {
    if Plain(b) {
      piece := [b as char];
    } else if b == 32 {
      piece := "%20";
    } else {
      piece := ['%', Hex(b / 16), Hex(b % 16)];
    }
  }

  method UrlEncode(bytes: seq<Byte>) returns (out: string)
    ensures out == Encoded(bytes)
  {
    out := [];
    for i := 0 to |bytes|
      invariant out == Encoded(bytes[..i])
    {
      var piece := EncodeByte(bytes[i]);
      EncodedSnoc(bytes[..i], bytes[i]);
      assert bytes[..i] + [bytes[i]] == bytes[..i + 1];
      out := out + piece;
    }
    assert bytes[..|bytes|] == bytes;
  }

  // ----- decoding -----

  function HexValue(c: char): (r: Option<nat>)
    ensures r.Some? ==> r.value < 16
  {
    if '0' <= c <= '9' then Some(c as int - 48)
    else if 'A' <= c <= 'F' then Some(c as int - 55)
    else if 'a' <= c <= 'f' then Some(c as int - 87)
    else None
  }

  function Cons(b: Byte, rest: Option<seq<Byte>>): Option<seq<Byte>> {
    if rest.None? then None else Some([b] + rest.value)
  }

  /** The standard percent-decoder: `%` and two hexadecimal digits are one byte. */
  function Decoded(s: string): Option<seq<Byte>> {
    if s == [] then Some([])
    else if s[0] == '%' then
      if |s| < 3 || HexValue(s[1]).None? || HexValue(s[2]).None? then None
      else Cons(16 * HexValue(s[1]).value + HexValue(s[2]).value, Decoded(s[3..]))
    else if s[0] as int < 256 then Cons(s[0] as int, Decoded(s[1..]))
    else None
  }

  lemma DecodeByte(b: Byte, rest: string)
    ensures Decoded(EncodedByte(b) + rest) == Cons(b, Decoded(rest))
  {
    var s := EncodedByte(b) + rest;
    if Plain(b) {
      assert s[1..] == rest;
    } else {
      assert s[3..] == rest;
      assert HexValue(Hex(b / 16)) == Some(b / 16) && HexValue(Hex(b % 16)) == Some(b % 16);
    }
  }

  /** Percent-decoding an encoding returns the bytes. */
  lemma {:induction false} RoundTrip(bytes: seq<Byte>)
    ensures Decoded(Encoded(bytes)) == Some(bytes)
  {
    if bytes != [] {
      RoundTrip(bytes[1..]);
      DecodeByte(bytes[0], Encoded(bytes[1..]));
      assert bytes == [bytes[0]] + bytes[1..];
    }
  }

  /** `%`, `:` and the unreserved characters of RFC 3986. */
  predicate Safe(c: char) {
    || 'A' <= c <= 'Z' || 'a' <= c <= 'z' || '0' <= c <= '9'
    || c == '-' || c == '.' || c == '_' || c == '~' || c == ':' || c == '%'
  }

  lemma {:induction false} EncodedIsSafe(bytes: seq<Byte>)
    ensures forall i | 0 <= i < |Encoded(bytes)| :: Safe(Encoded(bytes)[i])
  {
    if bytes != [] {
      EncodedIsSafe(bytes[1..]);
    }
  }

  // ----- the URL -----

  /** The fields, with a separator between neighbours. */
  function Joined(fields: seq<string>, c: char): string
    requires fields != []
  {
    if |fields| == 1 then fields[0] else fields[0] + ([c] + Joined(fields[1..], c))
  }

  function Pair(key: string, value: string): string {
    key + (['='] + value)
  }

  function TotpFields(issuer: seq<Byte>, secret: seq<Byte>): seq<string> {
    [Pair("secret", Encoded(secret)), Pair("issuer", Encoded(issuer)),
     Pair("algorithm", "SHA1"), Pair("digits", "6"), Pair("period", "30")]
  }

  function TotpUrl(issuer: seq<Byte>, username: seq<Byte>, secret: seq<Byte>): string {
    ("otpauth://totp/" + Encoded(issuer + [58] + username))
    + (['?'] + Joined(TotpFields(issuer, secret), '&'))
  }

  /** The text before and after the first occurrence of a character. */
  function Cut(s: string, c: char): (r: Option<(string, string)>)
    ensures r.Some? ==> |r.value.1| < |s|
  {
    if s == [] then None
    else if s[0] == c then Some(([], s[1..]))
    else match Cut(s[1..], c)
      case None => None
      case Some(p) => Some(([s[0]] + p.0, p.1))
  }

  /** The fields of a text, separated by a character. */
  function Fields(s: string, c: char): seq<string>
    decreases |s|
  {
    match Cut(s, c)
    case None => [s]
    case Some(p) => [p.0] + Fields(p.1, c)
  }

  /** The fields of the query part of a URL. */
  function QueryFields(url: string): Option<seq<string>> {
    match Cut(url, '?')
    case None => None
    case Some(p) => Some(Fields(p.1, '&'))
  }

  ghost predicate Free(s: string, c: char) {
    forall i | 0 <= i < |s| :: s[i] != c
  }

  lemma {:induction false} CutAt(a: string, c: char, b: string)
    requires Free(a, c)
    ensures Cut(a + ([c] + b), c) == Some((a, b))
  {
    var s := a + ([c] + b);
    if a == [] {
      assert s[1..] == b;
    } else {
      CutAt(a[1..], c, b);
      assert s[1..] == a[1..] + ([c] + b);
      assert a == [a[0]] + a[1..];
    }
  }

  lemma {:induction false} CutNone(s: string, c: char)
    requires Free(s, c)
    ensures Cut(s, c) == None
  {
    if s != [] {
      CutNone(s[1..], c);
    }
  }

  /** Splitting undoes joining when no field holds the separator. */
  lemma {:induction false} FieldsOfJoined(fields: seq<string>, c: char)
    requires fields != [] && forall i | 0 <= i < |fields| :: Free(fields[i], c)
    ensures Fields(Joined(fields, c), c) == fields
  {
    if |fields| == 1 {
      CutNone(fields[0], c);
    } else {
      FieldsOfJoined(fields[1..], c);
      CutAt(fields[0], c, Joined(fields[1..], c));
      assert fields == [fields[0]] + fields[1..];
    }
  }

  lemma EncodedIsFree(bytes: seq<Byte>, c: char)
    requires !Safe(c)
    ensures Free(Encoded(bytes), c)
  {
    EncodedIsSafe(bytes);
  }

  lemma PairIsFree(key: string, value: string, c: char)
    requires Free(key, c) && Free(value, c) && c != '='
    ensures Free(Pair(key, value), c)
  {
  }

  lemma TotpFieldsAreFree(issuer: seq<Byte>, secret: seq<Byte>)
    ensures forall i | 0 <= i < 5 :: Free(TotpFields(issuer, secret)[i], '&')
  {
    EncodedIsFree(secret, '&');
    EncodedIsFree(issuer, '&');
    PairIsFree("secret", Encoded(secret), '&');
    PairIsFree("issuer", Encoded(issuer), '&');
    PairIsFree("algorithm", "SHA1", '&');
    PairIsFree("digits", "6", '&');
    PairIsFree("period", "30", '&');
  }

  /** The part before the query: the scheme, the type and a label that percent-decodes
      to issuer, colon and user name. */
  lemma LabelRoundTrip(issuer: seq<Byte>, username: seq<Byte>, secret: seq<Byte>)
    ensures var cut := Cut(TotpUrl(issuer, username, secret), '?');
            && cut.Some? && "otpauth://totp/" <= cut.value.0
            && Decoded(cut.value.0[15..]) == Some(issuer + [':' as int] + username)
  {
    var path := issuer + [58] + username;
    var head := "otpauth://totp/" + Encoded(path);
    assert Free(head, '?') by {
      EncodedIsFree(path, '?');
    }
    CutAt(head, '?', Joined(TotpFields(issuer, secret), '&'));
    RoundTrip(path);
    assert head[15..] == Encoded(path);
  }

  lemma UrlFields(issuer: seq<Byte>, username: seq<Byte>, secret: seq<Byte>)
    ensures QueryFields(TotpUrl(issuer, username, secret)) == Some(TotpFields(issuer, secret))
  {
    var path := "otpauth://totp/" + Encoded(issuer + [58] + username);
    assert Free(path, '?') by {
      EncodedIsFree(issuer + [58] + username, '?');
    }
    CutAt(path, '?', Joined(TotpFields(issuer, secret), '&'));
    TotpFieldsAreFree(issuer, secret);
    FieldsOfJoined(TotpFields(issuer, secret), '&');
  }

  /** The field is the key and the percent-encoding of the bytes. */
  ghost predicate Carries(field: string, key: string, bytes: seq<Byte>) {
    var pair := Cut(field, '=');
    pair.Some? && pair.value.0 == key && Decoded(pair.value.1) == Some(bytes)
  }

  lemma PairCarries(key: string, bytes: seq<Byte>)
    requires Free(key, '=')
    ensures Carries(Pair(key, Encoded(bytes)), key, bytes)
  {
    CutAt(key, '=', Encoded(bytes));
    RoundTrip(bytes);
  }

  lemma FixedFields()
    ensures Pair("algorithm", "SHA1") == "algorithm=SHA1"
    ensures Pair("digits", "6") == "digits=6" && Pair("period", "30") == "period=30"
  {
  }

  /** Parsing the URL gives its five fields back: a secret and an issuer whose values
      percent-decode to exactly what went in, whatever bytes they hold, and the three
      parameters of the code. */
  lemma UrlRoundTrip(issuer: seq<Byte>, username: seq<Byte>, secret: seq<Byte>)
    ensures var fields := QueryFields(TotpUrl(issuer, username, secret));
            && fields.Some? && |fields.value| == 5
            && Carries(fields.value[0], "secret", secret) && Carries(fields.value[1], "issuer", issuer)
            && fields.value[2..] == ["algorithm=SHA1", "digits=6", "period=30"]
  {
    UrlFields(issuer, username, secret);
    PairCarries("secret", secret);
    PairCarries("issuer", issuer);
    FixedFields();
  }
}
