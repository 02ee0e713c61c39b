/** Percent-encoding of strings as the ECMAScript global functions
    `encodeURIComponent` and `decodeURIComponent` define it (ECMA-262,
    section 19.2.6, URI Handling Functions): every code point outside the
    unreserved set is written as the UTF-8 octets of that code point, each
    octet as `%` and two upper-case hexadecimal digits (RFC 3986, section 2.1).

    Strings are sequences of Unicode scalar values, so the lone UTF-16
    surrogates on which `encodeURIComponent` throws `URIError` cannot occur. */
module Uri {
  import opened Wrappers

  type Byte = b: int | 0 <= b < 0x100
  type Nibble = n: int | 0 <= n < 0x10

  /** The characters `encodeURIComponent` copies unchanged: the ASCII letters,
      the decimal digits and the marks `- _ . ! ~ * ' ( )`. */
  predicate IsUnreserved(c: char) {
    || ('A' <= c <= 'Z')
    || ('a' <= c <= 'z')
    || ('0' <= c <= '9')
    || c in "-_.!~*'()"
  }

  predicate IsUpperHex(c: char) {
    ('0' <= c <= '9') || ('A' <= c <= 'F')
  }

  predicate IsScalarValue(cp: int) {
    (0 <= cp < 0xD800) || (0xE000 <= cp < 0x11_0000)
  }

  // ---------------------------------------------------------------- encoding

  /** The upper-case hexadecimal digit for `n`. */
  function HexDigit(n: Nibble): (c: char)
    ensures IsUpperHex(c)
  {
    if n < 10 then ('0' as int + n) as char else ('A' as int + n - 10) as char
  }

  /** The UTF-8 octets of one code point: one to four octets, by the size of the code point. */
  function Utf8(c: char): (bs: seq<Byte>)
    ensures 1 <= |bs| <= 4
  {
    var cp := c as int;
    if cp < 0x80 then [cp]
    else if cp < 0x800 then [0xC0 + cp / 0x40, 0x80 + cp % 0x40]
    else if cp < 0x1_0000 then [0xE0 + cp / 0x1000, 0x80 + cp / 0x40 % 0x40, 0x80 + cp % 0x40]
    else [0xF0 + cp / 0x4_0000, 0x80 + cp / 0x1000 % 0x40, 0x80 + cp / 0x40 % 0x40, 0x80 + cp % 0x40]
  }

  /** One octet as a three-character escape `%XY`. */
  function Escape(b: Byte): (t: string)
    ensures |t| == 3 && t[0] == '%' && IsUpperHex(t[1]) && IsUpperHex(t[2])
  {
    ['%', HexDigit(b / 0x10), HexDigit(b % 0x10)]
  }

  function EscapeAll(bs: seq<Byte>): (t: string)
    ensures |t| == 3 * |bs|
    ensures IsWellEscaped(t)
  {
    if bs == [] then [] else
      var head, tail := Escape(bs[0]), EscapeAll(bs[1..]);
      WellEscapedConcat(head, tail);
      head + tail
  }

  function EncodeChar(c: char): (t: string)
    ensures IsWellEscaped(t)
  {
    if IsUnreserved(c) then [c] else EscapeAll(Utf8(c))
  }

  /** `encodeURIComponent(s)`: every unreserved character as it is, every other
      code point as its escaped UTF-8 octets. The result is made of unreserved
      characters and well-formed upper-case escapes only. */
  function EncodeURIComponent(s: string): (t: string)
    ensures IsWellEscaped(t)
  {
    if s == [] then [] else
      var head, tail := EncodeChar(s[0]), EncodeURIComponent(s[1..]);
      WellEscapedConcat(head, tail);
      head + tail
  }

  /** The output alphabet of `encodeURIComponent`: unreserved characters and
      `%`, where every `%` is followed by two upper-case hexadecimal digits. */
  ghost predicate IsWellEscaped(t: string) {
    && (forall i :: 0 <= i < |t| ==> IsUnreserved(t[i]) || t[i] == '%')
    && (forall i :: 0 <= i < |t| && t[i] == '%' ==> i + 2 < |t| && IsUpperHex(t[i + 1]) && IsUpperHex(t[i + 2]))
  }

  lemma WellEscapedConcat(a: string, b: string)
    requires IsWellEscaped(a) && IsWellEscaped(b)
    ensures IsWellEscaped(a + b)
  {
    var ab := a + b;
    forall i | 0 <= i < |ab| && ab[i] == '%'
      ensures i + 2 < |ab| && IsUpperHex(ab[i + 1]) && IsUpperHex(ab[i + 2])
    {
      if i >= |a| {
        assert ab[i] == b[i - |a|];
        assert ab[i + 1] == b[i + 1 - |a|] && ab[i + 2] == b[i + 2 - |a|];
      }
    }
  }

  /** None of the characters that would end or split a query parameter (`&`,
      `#`, `=`, `+`, space, double quote) survives encoding. */
  lemma EncodedHasNoDelimiters(s: string)
    ensures forall i :: 0 <= i < |EncodeURIComponent(s)| ==> EncodeURIComponent(s)[i] !in "&#=+ \""
  {
  }

  /** Encoding works character by character, so it distributes over concatenation. */
  lemma {:induction false} EncodeConcat(a: string, b: string)
    ensures EncodeURIComponent(a + b) == EncodeURIComponent(a) + EncodeURIComponent(b)
  {
    if a != [] {
      assert (a + b)[0] == a[0] && (a + b)[1..] == a[1..] + b;
      EncodeConcat(a[1..], b);
    } else {
      assert a + b == b;
    }
  }

  /** A string of unreserved characters encodes to itself. */
  lemma {:induction false} EncodeUnreserved(s: string)
    requires forall i :: 0 <= i < |s| ==> IsUnreserved(s[i])
    ensures EncodeURIComponent(s) == s
  {
    if s != [] {
      EncodeUnreserved(s[1..]);
      assert [s[0]] + s[1..] == s;
    }
  }

  // ---------------------------------------------------------------- decoding

  /** A hexadecimal digit of either case, as `decodeURIComponent` accepts. */
  function HexValue(c: char): (r: Option<Nibble>)
    ensures r.Some? <==> (IsUpperHex(c) || ('a' <= c <= 'f'))
  {
    if '0' <= c <= '9' then Some(c as int - '0' as int)
    else if 'A' <= c <= 'F' then Some(c as int - 'A' as int + 10)
    else if 'a' <= c <= 'f' then Some(c as int - 'a' as int + 10)
    else None
  }

  /** The octet of the escape `%XY` at the start of `t`, if `t` starts with one. */
  function EscapedByte(t: string): (r: Option<Byte>)
    ensures r.Some? ==> |t| >= 3 && t[0] == '%'
  {
    if |t| < 3 || t[0] != '%' then None
    else match (HexValue(t[1]), HexValue(t[2]))
      case (Some(hi), Some(lo)) => Some(hi as int * 0x10 + lo as int)
      case _ => None
  }

  /** The `n` octets of `n` consecutive escapes at the start of `t`. */
  function EscapedBytes(t: string, n: nat): (r: Option<seq<Byte>>)
    ensures r.Some? ==> |r.value| == n && 3 * n <= |t|
  {
    if n == 0 then Some([])
    else match EscapedByte(t)
      case None => None
      case Some(b) =>
        match EscapedBytes(t[3..], n - 1)
        case None => None
        case Some(bs) => Some([b] + bs)
  }

  /** The length of the UTF-8 sequence that `lead` starts: the number of its
      leading one bits, or one when its top bit is clear; 0 when it cannot
      start a sequence (a continuation octet, or more than four leading ones). */
  function SequenceLength(lead: Byte): (n: nat)
    ensures n <= 4
  {
    if lead < 0x80 then 1
    else if lead < 0xC0 then 0
    else if lead < 0xE0 then 2
    else if lead < 0xF0 then 3
    else if lead < 0xF8 then 4
    else 0
  }

  /** The payload bits of a UTF-8 sequence, put together. */
  function CodePoint(bs: seq<Byte>): int
    requires 1 <= |bs| <= 4
  {
    var b: seq<int> := bs;
    if |b| == 1 then b[0]
    else if |b| == 2 then (b[0] - 0xC0) * 0x40 + (b[1] - 0x80)
    else if |b| == 3 then (b[0] - 0xE0) * 0x1000 + (b[1] - 0x80) * 0x40 + (b[2] - 0x80)
    else (b[0] - 0xF0) * 0x4_0000 + (b[1] - 0x80) * 0x1000 + (b[2] - 0x80) * 0x40 + (b[3] - 0x80)
  }

  /** The code point whose UTF-8 encoding `bs` is. Anything else (an overlong
      form, a surrogate, a value above U+10FFFF, a bad continuation octet) is
      the `URIError` of `decodeURIComponent`. */
  function Utf8Decode(bs: seq<Byte>): (r: Option<char>)
    requires 1 <= |bs| <= 4
    ensures r.Some? ==> Utf8(r.value) == bs
  {
    var cp := CodePoint(bs);
    if IsScalarValue(cp) && Utf8(cp as char) == bs then Some(cp as char) else None
  }

  /** Decodes the run of escapes at the start of `t` that spells one code
      point, with the number of characters it takes. */
  function DecodeEscapes(t: string): (r: Option<(char, nat)>)
    requires |t| > 0 && t[0] == '%'
    ensures r.Some? ==> 3 <= r.value.1 <= |t|
  {
    match EscapedByte(t)
    case None => None
    case Some(lead) =>
      var n := SequenceLength(lead);
      if n == 0 then None
      else match EscapedBytes(t, n)
        case None => None
        case Some(bs) =>
          match Utf8Decode(bs)
          case None => None
          case Some(c) => Some((c, 3 * n))
  }

  /** `decodeURIComponent(t)`: `None` stands for the `URIError` it throws. */
  function DecodeURIComponent(t: string): Option<string>
    decreases |t|
  {
    if t == [] then Some([])
    else if t[0] != '%' then
      match DecodeURIComponent(t[1..])
      case None => None
      case Some(rest) => Some([t[0]] + rest)
    else
      match DecodeEscapes(t)
      case None => None
      case Some((c, k)) =>
        match DecodeURIComponent(t[k..])
        case None => None
        case Some(rest) => Some([c] + rest)
  }

  // ---------------------------------------------------------------- round trip

  lemma HexDigitValue(n: Nibble)
    ensures HexValue(HexDigit(n)) == Some(n)
  {
  }

  lemma EscapedByteOfEscape(b: Byte, rest: string)
    ensures EscapedByte(Escape(b) + rest) == Some(b)
  {
    var t := Escape(b) + rest;
    HexDigitValue(b / 0x10);
    HexDigitValue(b % 0x10);
    assert t[1] == HexDigit(b / 0x10) && t[2] == HexDigit(b % 0x10);
  }

  lemma {:induction false} EscapedBytesOfEscapeAll(bs: seq<Byte>, rest: string)
    ensures EscapedBytes(EscapeAll(bs) + rest, |bs|) == Some(bs)
  {
    if bs != [] {
      var tail := EscapeAll(bs[1..]) + rest;
      var t := Escape(bs[0]) + tail;
      assert EscapeAll(bs) + rest == t;
      EscapedByteOfEscape(bs[0], tail);
      assert t[3..] == tail;
      EscapedBytesOfEscapeAll(bs[1..], rest);
      assert EscapedBytes(t, |bs|) == Some([bs[0]] + bs[1..]);
      assert [bs[0]] + bs[1..] == bs;
    }
  }

  lemma SequenceLengthOfUtf8(c: char)
    ensures SequenceLength(Utf8(c)[0]) == |Utf8(c)|
  {
  }

  lemma CodePointOfUtf8(c: char)
    ensures CodePoint(Utf8(c)) == c as int
  {
    var cp := c as int;
    if cp >= 0x1_0000 {
      var a, b, d := cp / 0x40, cp / 0x1000, cp / 0x4_0000;
      assert cp == a * 0x40 + cp % 0x40;
      assert a == b * 0x40 + a % 0x40;
      assert b == d * 0x40 + b % 0x40;
      assert b == cp / 0x40 / 0x40 && d == b / 0x40;
    } else if cp >= 0x800 {
      var a, b := cp / 0x40, cp / 0x1000;
      assert cp == a * 0x40 + cp % 0x40;
      assert a == b * 0x40 + a % 0x40;
    }
  }

  lemma DecodeEscapesOfUtf8(c: char, rest: string)
    requires !IsUnreserved(c)
    ensures var t := EscapeAll(Utf8(c)) + rest;
      t[0] == '%' && DecodeEscapes(t) == Some((c, 3 * |Utf8(c)|))
  {
    var bs := Utf8(c);
    var t := EscapeAll(bs) + rest;
    assert t == Escape(bs[0]) + (EscapeAll(bs[1..]) + rest);
    EscapedByteOfEscape(bs[0], EscapeAll(bs[1..]) + rest);
    SequenceLengthOfUtf8(c);
    EscapedBytesOfEscapeAll(bs, rest);
    CodePointOfUtf8(c);
  }

  lemma DecodeEncodeChar(c: char, rest: string, decodedRest: string)
    requires DecodeURIComponent(rest) == Some(decodedRest)
    ensures DecodeURIComponent(EncodeChar(c) + rest) == Some([c] + decodedRest)
  {
    var t := EncodeChar(c) + rest;
    if IsUnreserved(c) {
      assert t[0] == c && t[1..] == rest;
    } else {
      DecodeEscapesOfUtf8(c, rest);
      assert t[3 * |Utf8(c)|..] == rest;
    }
  }

  /** Round trip: `decodeURIComponent(encodeURIComponent(s)) === s` for every string. */
  lemma {:induction false} DecodeEncode(s: string)
    ensures DecodeURIComponent(EncodeURIComponent(s)) == Some(s)
  {
    if s != [] {
      DecodeEncode(s[1..]);
      DecodeEncodeChar(s[0], EncodeURIComponent(s[1..]), s[1..]);
      assert [s[0]] + s[1..] == s;
    }
  }

  /** Encoding loses nothing: different strings have different encodings. */
  lemma EncodeInjective(s: string, s': string)
    ensures EncodeURIComponent(s) == EncodeURIComponent(s') <==> s == s'
  {
    DecodeEncode(s);
    DecodeEncode(s');
  }
}
