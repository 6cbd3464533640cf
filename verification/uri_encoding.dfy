/**
 * Percent-encoding of a file name as `UriUtils.encode(name, UTF_8)` does it:
 * the name is written as UTF-8 (RFC 3629) and every octet that is not an
 * unreserved character of section 2.3 of RFC 3986 becomes `%XX` with
 * upper-case hexadecimal digits (section 2.1 of RFC 3986). The decoding side
 * is what a client applies to recover the name.
 */
module UriEncoding {
  import opened Wrappers

  type Byte = b: int | 0 <= b < 256

  /** The unreserved characters of section 2.3 of RFC 3986: ALPHA, DIGIT, `-`, `.`, `_`, `~`. */
  predicate IsUnreserved(c: char) {
    'A' <= c <= 'Z' || 'a' <= c <= 'z' || '0' <= c <= '9' || c == '-' || c == '.' || c == '_' || c == '~'
  }

  // ---------------------------------------------------------------- UTF-8

  /** The UTF-8 octets of one Unicode scalar value (section 3 of RFC 3629). */
  function Utf8Char(c: char): (r: seq<Byte>)
    ensures 1 <= |r| <= 4
  {
    var v := c as int;
    if v < 0x80 then [v]
    else if v < 0x800 then [0xC0 + v / 0x40, 0x80 + v % 0x40]
    else if v < 0x1_0000 then [0xE0 + v / 0x1000, 0x80 + v / 0x40 % 0x40, 0x80 + v % 0x40]
    else [0xF0 + v / 0x4_0000, 0x80 + v / 0x1000 % 0x40, 0x80 + v / 0x40 % 0x40, 0x80 + v % 0x40]
  }

  /** `String.getBytes(UTF_8)` for a string of scalar values. */
  function Utf8Encode(s: string): seq<Byte> {
    if s == [] then [] else Utf8Char(s[0]) + Utf8Encode(s[1..])
  }

  predicate IsContinuation(b: Byte) {
    0x80 <= b < 0xC0
  }

  /**
   * The scalar value at the head of `b` and the number of octets it takes, or
   * `None` for an ill-formed sequence (bad lead or continuation octet, an
   * overlong form, a surrogate, or a value past U+10FFFF).
   */
  function DecodeFirst(b: seq<Byte>): (r: Option<(char, nat)>)
    requires b != []
    ensures r.Some? ==> 1 <= r.value.1 <= |b|
  {
    var b0: int := b[0];
    if b0 < 0x80 then Some((b0 as char, 1))
    else if 0xC2 <= b0 < 0xE0 then
      if |b| >= 2 && IsContinuation(b[1]) then
        Some((((b0 - 0xC0) * 0x40 + (b[1] as int - 0x80)) as char, 2))
      else None
    else if 0xE0 <= b0 < 0xF0 then
      if |b| >= 3 && IsContinuation(b[1]) && IsContinuation(b[2]) then
        var v := (b0 - 0xE0) * 0x1000 + (b[1] as int - 0x80) * 0x40 + (b[2] as int - 0x80);
        if 0x800 <= v < 0xD800 || 0xE000 <= v then Some((v as char, 3)) else None
      else None
    else if 0xF0 <= b0 < 0xF5 then
      if |b| >= 4 && IsContinuation(b[1]) && IsContinuation(b[2]) && IsContinuation(b[3]) then
        var v := (b0 - 0xF0) * 0x4_0000 + (b[1] as int - 0x80) * 0x1000 + (b[2] as int - 0x80) * 0x40 + (b[3] as int - 0x80);
        if 0x1_0000 <= v < 0x11_0000 then Some((v as char, 4)) else None
      else None
    else None
  }

  /** Decodes a whole octet sequence as UTF-8. */
  function Utf8Decode(b: seq<Byte>): Option<string>
    decreases |b|
  {
    if b == [] then Some([])
    else match DecodeFirst(b)
      case None => None
      case Some((c, n)) =>
        match Utf8Decode(b[n..])
        case None => None
        case Some(rest) => Some([c] + rest)
  }

  /** The octets of one character decode back to that character, whatever follows them. */
  lemma DecodeFirstUtf8Char(c: char, rest: seq<Byte>)
    ensures DecodeFirst(Utf8Char(c) + rest) == Some((c, |Utf8Char(c)|))
  {
    var v := c as int;
    if v < 0x80 {
    } else if v < 0x800 {
      DecodeTwoOctets(c, rest);
    } else if v < 0x1_0000 {
      DecodeThreeOctets(c, rest);
    } else {
      DecodeFourOctets(c, rest);
    }
  }

  lemma DecodeTwoOctets(c: char, rest: seq<Byte>)
    requires 0x80 <= c as int < 0x800
    ensures DecodeFirst(Utf8Char(c) + rest) == Some((c, 2))
  {
    var v := c as int;
    var b := Utf8Char(c) + rest;
    assert b[0] == 0xC0 + v / 0x40 && b[1] == 0x80 + v % 0x40;
    assert (v / 0x40) * 0x40 + v % 0x40 == v;
  }

  lemma DecodeThreeOctets(c: char, rest: seq<Byte>)
    requires 0x800 <= c as int < 0x1_0000
    ensures DecodeFirst(Utf8Char(c) + rest) == Some((c, 3))
  {
    var v := c as int;
    var b := Utf8Char(c) + rest;
    assert b[0] == 0xE0 + v / 0x1000 && b[1] == 0x80 + v / 0x40 % 0x40 && b[2] == 0x80 + v % 0x40;
    assert v / 0x40 == (v / 0x1000) * 0x40 + v / 0x40 % 0x40;
    assert v == (v / 0x40) * 0x40 + v % 0x40;
  }

  lemma DecodeFourOctets(c: char, rest: seq<Byte>)
    requires 0x1_0000 <= c as int
    ensures DecodeFirst(Utf8Char(c) + rest) == Some((c, 4))
  {
    var v := c as int;
    var b := Utf8Char(c) + rest;
    assert b[0] == 0xF0 + v / 0x4_0000 && b[1] == 0x80 + v / 0x1000 % 0x40;
    assert b[2] == 0x80 + v / 0x40 % 0x40 && b[3] == 0x80 + v % 0x40;
    assert v / 0x1000 == (v / 0x4_0000) * 0x40 + v / 0x1000 % 0x40;
    assert v / 0x40 == (v / 0x1000) * 0x40 + v / 0x40 % 0x40;
    assert v == (v / 0x40) * 0x40 + v % 0x40;
  }

  /** UTF-8 decoding undoes UTF-8 encoding. */
  lemma {:induction false} Utf8RoundTrip(s: string)
    ensures Utf8Decode(Utf8Encode(s)) == Some(s)
    decreases |s|
  {
    if s != [] {
      var head := Utf8Char(s[0]);
      var b := Utf8Encode(s);
      DecodeFirstUtf8Char(s[0], Utf8Encode(s[1..]));
      assert b[|head|..] == Utf8Encode(s[1..]);
      Utf8RoundTrip(s[1..]);
      assert [s[0]] + s[1..] == s;
    }
  }

  // ---------------------------------------------------------------- percent-encoding

  function HexDigit(n: nat): char
    requires n < 16
  {
    if n < 10 then ('0' as int + n) as char else ('A' as int + n - 10) as char
  }

  /** The value of a hexadecimal digit of either case. */
  function HexValue(c: char): (r: Option<nat>)
    ensures r.Some? ==> r.value < 16
  {
    if '0' <= c <= '9' then Some(c as int - '0' as int)
    else if 'A' <= c <= 'F' then Some(c as int - 'A' as int + 10)
    else if 'a' <= c <= 'f' then Some(c as int - 'a' as int + 10)
    else None
  }

  /** One octet: kept as its ASCII character when unreserved, otherwise `%` and two hex digits. */
  function EncodeByte(x: Byte): string {
    if x < 0x80 && IsUnreserved(x as char) then [x as char]
    else ['%', HexDigit(x / 16), HexDigit(x % 16)]
  }

  /** Percent-encodes an octet sequence; only unreserved characters and `%` appear in the output. */
  function PercentEncode(b: seq<Byte>): (r: string)
    ensures forall k :: 0 <= k < |r| ==> IsUnreserved(r[k]) || r[k] == '%'
  {
    if b == [] then [] else EncodeByte(b[0]) + PercentEncode(b[1..])
  }

  /** `UriUtils.encode(s, UTF_8)`: only unreserved characters and `%` appear in the result. */
  function UriEncode(s: string): (r: string)
    ensures forall k :: 0 <= k < |r| ==> IsUnreserved(r[k]) || r[k] == '%'
  {
    PercentEncode(Utf8Encode(s))
  }

  /** Percent-decoding (section 2.1 of RFC 3986): `%XX` becomes the octet XX, an ASCII character its code. */
  function PercentDecode(s: string): Option<seq<Byte>>
    decreases |s|
  {
    if s == [] then Some([])
    else if s[0] == '%' then
      if |s| >= 3 && HexValue(s[1]).Some? && HexValue(s[2]).Some? then
        match PercentDecode(s[3..])
        case None => None
        case Some(rest) => Some([HexValue(s[1]).value * 16 + HexValue(s[2]).value] + rest)
      else None
    else if s[0] as int < 0x80 then
      match PercentDecode(s[1..])
      case None => None
      case Some(rest) => Some([s[0] as int] + rest)
    else None
  }

  /** Decoding the encoding of one octet yields that octet, whatever follows it. */
  lemma DecodeEncodedByte(x: Byte, t: string)
    ensures PercentDecode(EncodeByte(x) + t)
         == match PercentDecode(t)
            case None => None
            case Some(rest) => Some([x] + rest)
  {
    var s := EncodeByte(x) + t;
    if x < 0x80 && IsUnreserved(x as char) {
      assert s[1..] == t;
    } else {
      assert s[1] == HexDigit(x / 16) && s[2] == HexDigit(x % 16);
      assert s[3..] == t;
    }
  }

  /** Percent-decoding undoes percent-encoding. */
  lemma {:induction false} PercentRoundTrip(b: seq<Byte>)
    ensures PercentDecode(PercentEncode(b)) == Some(b)
    decreases |b|
  {
    if b != [] {
      PercentRoundTrip(b[1..]);
      DecodeEncodedByte(b[0], PercentEncode(b[1..]));
      assert [b[0]] + b[1..] == b;
    }
  }

  /** Recovers a name from its encoded form: percent-decoding followed by UTF-8 decoding. */
  function UriDecode(e: string): Option<string> {
    match PercentDecode(e)
    case None => None
    case Some(bytes) => Utf8Decode(bytes)
  }

  /** Every name is recovered exactly from its encoding, non-ASCII characters and spaces included. */
  lemma UriRoundTrip(s: string)
    ensures UriDecode(UriEncode(s)) == Some(s)
  {
    PercentRoundTrip(Utf8Encode(s));
    Utf8RoundTrip(s);
  }

  /** Distinct names have distinct encodings. */
  lemma UriEncodeInjective(s: string, t: string)
    requires UriEncode(s) == UriEncode(t)
    ensures s == t
  {
    UriRoundTrip(s);
    UriRoundTrip(t);
  }

  /** A name made only of unreserved characters is left as it is. */
  lemma {:induction false} UriEncodeUnreserved(s: string)
    requires forall k :: 0 <= k < |s| ==> IsUnreserved(s[k])
    ensures UriEncode(s) == s
    decreases |s|
  {
    if s != [] {
      UriEncodeUnreserved(s[1..]);
      assert Utf8Encode(s) == [s[0] as int] + Utf8Encode(s[1..]);
      assert [s[0]] + s[1..] == s;
    }
  }
}
