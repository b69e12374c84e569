/** UTF-8 (RFC 3629): the bytes of a string of Unicode scalar values, and the
    decoding that reads them back. */
module Utf8Encoding {
  import opened Wrappers

  newtype byte = x: int | 0 <= x < 256

  /** A continuation byte carrying six bits `v`. */
  function Cont(v: int): byte
    requires 0 <= v < 64
  {
    (0x80 + v) as byte
  }

  predicate IsCont(b: byte)
  {
    0x80 <= b < 0xC0
  }

  /** The UTF-8 bytes of one Unicode scalar value. */
  function Utf8Char(c: char): (bs: seq<byte>)
    ensures 1 <= |bs| <= 4
  {
    var n := c as int;
    if n < 0x80 then [n as byte]
    else if n < 0x800 then [(0xC0 + n / 64) as byte, Cont(n % 64)]
    else if n < 0x10000 then [(0xE0 + n / 4096) as byte, Cont(n / 64 % 64), Cont(n % 64)]
    else [(0xF0 + n / 262144) as byte, Cont(n / 4096 % 64), Cont(n / 64 % 64), Cont(n % 64)]
  }

  /** The UTF-8 bytes of a string: one to four bytes per character. */
  function Utf8(s: string): (bs: seq<byte>)
    ensures |s| <= |bs| <= 4 * |s|
  {
    if s == [] then [] else Utf8Char(s[0]) + Utf8(s[1..])
  }

  predicate IsScalar(n: int)
  {
    0 <= n < 0xD800 || 0xE000 <= n < 0x110000
  }

  /** Decodes the first character of `bs`: the character and how many bytes it took. */
  function DecodeChar(bs: seq<byte>): (r: Option<(char, nat)>)
    ensures r.Some? ==> 1 <= r.value.1 <= |bs|
  {
    if bs == [] then None
    else
      var b0 := bs[0] as int;
      if b0 < 0x80 then Some((b0 as char, 1))
      else if 0xC0 <= b0 < 0xE0 && 2 <= |bs| && IsCont(bs[1]) then
        var n := (b0 - 0xC0) * 64 + (bs[1] as int - 0x80);
        Some((n as char, 2))
      else if 0xE0 <= b0 < 0xF0 && 3 <= |bs| && IsCont(bs[1]) && IsCont(bs[2]) then
        var n := (b0 - 0xE0) * 4096 + (bs[1] as int - 0x80) * 64 + (bs[2] as int - 0x80);
        if IsScalar(n) then Some((n as char, 3)) else None
      else if 0xF0 <= b0 < 0xF8 && 4 <= |bs| && IsCont(bs[1]) && IsCont(bs[2]) && IsCont(bs[3]) then
        var n := (b0 - 0xF0) * 262144 + (bs[1] as int - 0x80) * 4096 + (bs[2] as int - 0x80) * 64 + (bs[3] as int - 0x80);
        if IsScalar(n) then Some((n as char, 4)) else None
      else None
  }

  function Utf8Decode(bs: seq<byte>): Option<string>
    decreases |bs|
  {
    if bs == [] then Some([])
    else match DecodeChar(bs)
      case None => None
      case Some((c, k)) =>
        match Utf8Decode(bs[k..])
        case None => None
        case Some(rest) => Some([c] + rest)
  }

  lemma DecodeCharOfEncoded(c: char, rest: seq<byte>)
    ensures DecodeChar(Utf8Char(c) + rest) == Some((c, |Utf8Char(c)|))
  {
    var n := c as int;
    if n < 0x80 {
    } else if n < 0x800 {
      DecodeTwo(c, rest);
    } else if n < 0x10000 {
      DecodeThree(c, rest);
    } else {
      DecodeFour(c, rest);
    }
  }

  lemma DecodeTwo(c: char, rest: seq<byte>)
    requires 0x80 <= c as int < 0x800
    ensures DecodeChar(Utf8Char(c) + rest) == Some((c, 2))
  {
    var n := c as int;
    var q, r := n / 64, n % 64;
    assert n == q * 64 + r;
    var bs := Utf8Char(c) + rest;
    assert bs[0] as int == 0xC0 + q && bs[1] as int == 0x80 + r;
  }

  lemma DecodeThree(c: char, rest: seq<byte>)
    requires 0x800 <= c as int < 0x10000
    ensures DecodeChar(Utf8Char(c) + rest) == Some((c, 3))
  {
    var n := c as int;
    var q, m, r := n / 4096, n / 64 % 64, n % 64;
    assert n == q * 4096 + m * 64 + r;
    var bs := Utf8Char(c) + rest;
    assert bs[0] as int == 0xE0 + q && bs[1] as int == 0x80 + m && bs[2] as int == 0x80 + r;
  }

  lemma DecodeFour(c: char, rest: seq<byte>)
    requires 0x10000 <= c as int
    ensures DecodeChar(Utf8Char(c) + rest) == Some((c, 4))
  {
    var n := c as int;
    var q, h, m, r := n / 262144, n / 4096 % 64, n / 64 % 64, n % 64;
    assert n == q * 262144 + h * 4096 + m * 64 + r;
    var bs := Utf8Char(c) + rest;
    assert bs[0] as int == 0xF0 + q && bs[1] as int == 0x80 + h;
    assert bs[2] as int == 0x80 + m && bs[3] as int == 0x80 + r;
  }

  /** UTF-8 decoding undoes UTF-8 encoding. */
  lemma {:induction false} Utf8RoundTrip(s: string)
    ensures Utf8Decode(Utf8(s)) == Some(s)
    decreases |s|
  {
    if s != [] {
      var bs := Utf8(s);
      DecodeCharOfEncoded(s[0], Utf8(s[1..]));
      assert bs[|Utf8Char(s[0])|..] == Utf8(s[1..]);
      Utf8RoundTrip(s[1..]);
      assert s == [s[0]] + s[1..];
    }
  }
}

/** `encodeURIComponent` (section 19.2.6 of ECMA-262) and its inverse: a string is
    turned into UTF-8 bytes, and every byte that is not an unreserved ASCII
    character is written as '%' and two upper-case hex digits (percent-encoding,
    section 2.1 of RFC 3986). */
module PercentEncoding {
  import opened Wrappers
  import opened Utf8Encoding

  /** The characters `encodeURIComponent` leaves alone: letters, digits and - _ . ! ~ * ' ( ). */
  predicate IsUnreserved(c: char)
  {
    || 'A' <= c <= 'Z' || 'a' <= c <= 'z' || '0' <= c <= '9'
    || c == '-' || c == '_' || c == '.' || c == '!' || c == '~' || c == '*' || c == '\'' || c == '(' || c == ')'
  }

  /** Every character of `s` is unreserved. */
  predicate AllUnreserved(s: string)
  {
    forall i :: 0 <= i < |s| ==> IsUnreserved(s[i])
  }

  predicate IsUpperHex(c: char)
  {
    '0' <= c <= '9' || 'A' <= c <= 'F'
  }

  function HexDigit(v: int): char
    requires 0 <= v < 16
  {
    if v < 10 then ('0' as int + v) as char else ('A' as int + v - 10) as char
  }

  /** The value of a hex digit; both cases are accepted when decoding. */
  function HexValue(c: char): Option<int>
  {
    if '0' <= c <= '9' then Some(c as int - '0' as int)
    else if 'A' <= c <= 'F' then Some(c as int - 'A' as int + 10)
    else if 'a' <= c <= 'f' then Some(c as int - 'a' as int + 10)
    else None
  }

  /** A byte that is an unreserved ASCII character stays that character;
      any other byte becomes a %XX triplet. */
  function EncodeByte(b: byte): string
  {
    if b < 0x80 && IsUnreserved(b as int as char) then [b as int as char]
    else ['%', HexDigit(b as int / 16), HexDigit(b as int % 16)]
  }

  /** Percent-encoding of a byte sequence: one or three characters per byte. */
  function PercentEncode(bs: seq<byte>): (r: string)
    ensures |bs| <= |r| <= 3 * |bs|
  {
    if bs == [] then [] else EncodeByte(bs[0]) + PercentEncode(bs[1..])
  }

  /** `encodeURIComponent`: never shorter than the text, and at most twelve
      characters (four %XX triplets) per character. */
  function EncodeUriComponent(s: string): (r: string)
    ensures |s| <= |r| <= 12 * |s|
  {
    PercentEncode(Utf8(s))
  }

  /** Unreserved characters pass through; every other byte is written as '%'
      followed by two upper-case hex digits that denote it. */
  lemma EncodeByteForm(b: byte)
    ensures var r := EncodeByte(b);
      && (|r| == 1 <==> b < 0x80 && IsUnreserved(b as int as char))
      && (|r| == 1 ==> r[0] as int == b as int)
      && (|r| != 1 ==> |r| == 3 && r[0] == '%' && IsUpperHex(r[1]) && IsUpperHex(r[2]) &&
                       HexValue(r[1]).Some? && HexValue(r[2]).Some? &&
                       HexValue(r[1]).value * 16 + HexValue(r[2]).value == b as int)
  {
  }

  /** The shape of an encoded string: unreserved characters and %XX triplets. */
  predicate WellFormed(s: string)
    decreases |s|
  {
    if s == [] then true
    else if IsUnreserved(s[0]) then WellFormed(s[1..])
    else |s| >= 3 && s[0] == '%' && IsUpperHex(s[1]) && IsUpperHex(s[2]) && WellFormed(s[3..])
  }

  lemma {:induction false} PercentEncodeWellFormed(bs: seq<byte>)
    ensures WellFormed(PercentEncode(bs))
    decreases |bs|
  {
    if bs != [] {
      PercentEncodeWellFormed(bs[1..]);
      var e := EncodeByte(bs[0]);
      var t := PercentEncode(bs[1..]);
      EncodeByteForm(bs[0]);
      if |e| == 1 {
        assert (e + t)[1..] == t;
      } else {
        assert (e + t)[3..] == t;
      }
    }
  }

  /** A well-formed encoding holds no character other than unreserved ones and '%'. */
  lemma {:induction false} WellFormedCharacters(s: string)
    requires WellFormed(s)
    ensures forall i :: 0 <= i < |s| ==> IsUnreserved(s[i]) || s[i] == '%'
    decreases |s|
  {
    if s != [] {
      if IsUnreserved(s[0]) {
        WellFormedCharacters(s[1..]);
        assert forall i :: 1 <= i < |s| ==> s[i] == s[1..][i - 1];
      } else {
        WellFormedCharacters(s[3..]);
        assert forall i :: 3 <= i < |s| ==> s[i] == s[3..][i - 3];
      }
    }
  }

  /** Whatever the input, the encoding cannot contain a URI or header-field
      delimiter, so user text cannot add a parameter to the URL. */
  lemma NoDelimiters(s: string)
    ensures var e := EncodeUriComponent(s);
      '&' !in e && '=' !in e && '?' !in e && '#' !in e
  {
    PercentEncodeWellFormed(Utf8(s));
    WellFormedCharacters(EncodeUriComponent(s));
  }

  /** Percent-decoding to bytes: a %XX triplet is one byte, any other character
      stands for its own UTF-8 bytes. */
  function PercentDecode(s: string): Option<seq<byte>>
    decreases |s|
  {
    if s == [] then Some([])
    else if s[0] == '%' then
      if |s| < 3 || HexValue(s[1]).None? || HexValue(s[2]).None? then None
      else match PercentDecode(s[3..])
        case None => None
        case Some(rest) => Some([(HexValue(s[1]).value * 16 + HexValue(s[2]).value) as byte] + rest)
    else match PercentDecode(s[1..])
      case None => None
      case Some(rest) => Some(Utf8Char(s[0]) + rest)
  }

  /** `decodeURIComponent`, for well-formed input. */
  function DecodeUriComponent(s: string): Option<string>
  {
    match PercentDecode(s)
    case None => None
    case Some(bs) => Utf8Decode(bs)
  }

  lemma {:induction false} PercentRoundTrip(bs: seq<byte>)
    ensures PercentDecode(PercentEncode(bs)) == Some(bs)
    decreases |bs|
  {
    if bs != [] {
      PercentRoundTrip(bs[1..]);
      var e := EncodeByte(bs[0]);
      var t := PercentEncode(bs[1..]);
      EncodeByteForm(bs[0]);
      if |e| == 1 {
        assert (e + t)[1..] == t;
      } else {
        assert (e + t)[3..] == t;
      }
      assert bs == [bs[0]] + bs[1..];
    }
  }

  /** Decoding recovers the original text exactly. */
  lemma DecodeEncode(s: string)
    ensures DecodeUriComponent(EncodeUriComponent(s)) == Some(s)
  {
    PercentRoundTrip(Utf8(s));
    Utf8RoundTrip(s);
  }

  lemma {:induction false} Utf8Append(a: string, b: string)
    ensures Utf8(a + b) == Utf8(a) + Utf8(b)
    decreases |a|
  {
    if a == [] {
      assert a + b == b;
    } else {
      assert (a + b)[0] == a[0] && (a + b)[1..] == a[1..] + b;
      Utf8Append(a[1..], b);
    }
  }

  lemma {:induction false} PercentEncodeAppend(a: seq<byte>, b: seq<byte>)
    ensures PercentEncode(a + b) == PercentEncode(a) + PercentEncode(b)
    decreases |a|
  {
    if a == [] {
      assert a + b == b;
    } else {
      assert (a + b)[0] == a[0] && (a + b)[1..] == a[1..] + b;
      PercentEncodeAppend(a[1..], b);
    }
  }

  /** Encoding distributes over concatenation. */
  lemma EncodeAppend(a: string, b: string)
    ensures EncodeUriComponent(a + b) == EncodeUriComponent(a) + EncodeUriComponent(b)
  {
    Utf8Append(a, b);
    PercentEncodeAppend(Utf8(a), Utf8(b));
  }

  /** Text made only of unreserved characters is its own encoding. */
  lemma {:induction false} EncodeUnreserved(s: string)
    requires AllUnreserved(s)
    ensures EncodeUriComponent(s) == s
    decreases |s|
  {
    if s != [] {
      EncodeUnreserved(s[1..]);
      assert Utf8(s) == [s[0] as int as byte] + Utf8(s[1..]);
      assert (Utf8(s))[1..] == Utf8(s[1..]);
      assert s == [s[0]] + s[1..];
    }
  }
}
