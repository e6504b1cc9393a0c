/** Percent-encoding as Python's `urllib.parse.quote` / `quote_plus` perform it
    (section 2.1 of RFC 3986 over the UTF-8 bytes of the text), and the decoding
    a form-style query parser applies to a parameter value. */
module Quote {
  import opened Common

  type Byte = b: int | 0 <= b < 256

  // ---------------------------------------------------------------- UTF-8

  /** The UTF-8 bytes of one Unicode scalar value. */
  function Utf8Char(c: char): (bs: seq<Byte>)
    ensures 1 <= |bs| <= 4
    ensures (c as int < 0x80) <==> |bs| == 1
    ensures |bs| == 1 ==> bs[0] == c as int
    ensures forall k :: 1 <= k < |bs| ==> 0x80 <= bs[k] < 0xC0
  {
    var cp := c as int;
    if cp < 0x80 then [cp]
    else if cp < 0x800 then [0xC0 + cp / 64, 0x80 + cp % 64]
    else if cp < 0x10000 then [0xE0 + cp / 4096, 0x80 + (cp / 64) % 64, 0x80 + cp % 64]
    else [0xF0 + cp / 262144, 0x80 + (cp / 4096) % 64, 0x80 + (cp / 64) % 64, 0x80 + cp % 64]
  }

  /** `s.encode('utf-8')` */
  function Utf8(s: string): seq<Byte>
    decreases |s|
  {
    if s == [] then [] else Utf8Char(s[0]) + Utf8(s[1..])
  }

  predicate IsContinuation(b: Byte) {
    0x80 <= b < 0xC0
  }

  /** Length and scalar value of the well-formed UTF-8 sequence at the head of `bs`, if any. */
  function DecodeHead(bs: seq<Byte>): (r: Option<(nat, char)>)
    ensures r.Some? ==> 1 <= r.value.0 <= |bs|
  {
    if bs == [] then None
    else if bs[0] < 0x80 then Some((1, bs[0] as char))
    else if 0xC2 <= bs[0] < 0xE0 && |bs| >= 2 && IsContinuation(bs[1]) then
      Some((2, ((bs[0] as int - 0xC0) * 64 + (bs[1] as int - 0x80)) as char))
    else if 0xE0 <= bs[0] < 0xF0 && |bs| >= 3 && IsContinuation(bs[1]) && IsContinuation(bs[2]) then
      var cp := (bs[0] as int - 0xE0) * 4096 + (bs[1] as int - 0x80) * 64 + (bs[2] as int - 0x80);
      if 0x800 <= cp && !(0xD800 <= cp < 0xE000) then Some((3, cp as char)) else None
    else if 0xF0 <= bs[0] < 0xF5 && |bs| >= 4 && IsContinuation(bs[1]) && IsContinuation(bs[2]) && IsContinuation(bs[3]) then
      var cp := (bs[0] as int - 0xF0) * 262144 + (bs[1] as int - 0x80) * 4096 + (bs[2] as int - 0x80) * 64 + (bs[3] as int - 0x80);
      if 0x10000 <= cp < 0x110000 then Some((4, cp as char)) else None
    else None
  }

  /** `bs.decode('utf-8', errors='replace')`; an ill-formed byte becomes U+FFFD. */
  function Utf8Decode(bs: seq<Byte>): string
    decreases |bs|
  {
    if bs == [] then []
    else match DecodeHead(bs)
      case Some((n, c)) => [c] + Utf8Decode(bs[n..])
      case None => ['\U{FFFD}'] + Utf8Decode(bs[1..])
  }

  /** The bytes of one character decode back to that character. */
  lemma DecodeHeadOfChar(c: char, rest: seq<Byte>)
    ensures DecodeHead(Utf8Char(c) + rest) == Some((|Utf8Char(c)|, c))
  {
    var cp := c as int;
    if cp < 0x80 {
    } else if cp < 0x800 {
      DecodeTwo(c, rest);
    } else if cp < 0x10000 {
      DecodeThree(c, rest);
    } else {
      DecodeFour(c, rest);
    }
  }

  lemma DecodeTwo(c: char, rest: seq<Byte>)
    requires 0x80 <= c as int < 0x800
    ensures DecodeHead(Utf8Char(c) + rest) == Some((2, c))
  {
    var cp := c as int;
    var bs := Utf8Char(c) + rest;
    assert bs[0] as int == 0xC0 + cp / 64 && bs[1] as int == 0x80 + cp % 64;
    assert (bs[0] as int - 0xC0) * 64 + (bs[1] as int - 0x80) == cp;
  }

  lemma DecodeThree(c: char, rest: seq<Byte>)
    requires 0x800 <= c as int < 0x10000
    ensures DecodeHead(Utf8Char(c) + rest) == Some((3, c))
  {
    var cp := c as int;
    var bs := Utf8Char(c) + rest;
    var q := cp / 64;
    var a, b, d := cp / 4096, q % 64, cp % 64;
    assert cp == q * 64 + d;
    assert q / 64 == a;
    assert q == a * 64 + b;
    assert bs[0] as int == 0xE0 + a && bs[1] as int == 0x80 + b && bs[2] as int == 0x80 + d;
    assert 0xE0 <= bs[0] < 0xF0;
    assert (bs[0] as int - 0xE0) * 4096 + (bs[1] as int - 0x80) * 64 + (bs[2] as int - 0x80) == cp;
  }

  lemma DecodeFour(c: char, rest: seq<Byte>)
    requires 0x10000 <= c as int
    ensures DecodeHead(Utf8Char(c) + rest) == Some((4, c))
  {
    var cp := c as int;
    var bs := Utf8Char(c) + rest;
    assert cp < 0x110000;
    var q := cp / 64;
    var r := cp / 4096;
    var a, b, d, e := cp / 262144, r % 64, q % 64, cp % 64;
    assert cp == q * 64 + e;
    assert q / 64 == r;
    assert q == r * 64 + d;
    assert r / 64 == a;
    assert r == a * 64 + b;
    assert bs[0] as int == 0xF0 + a && bs[1] as int == 0x80 + b && bs[2] as int == 0x80 + d && bs[3] as int == 0x80 + e;
    assert 0xF0 <= bs[0] < 0xF5;
    assert (bs[0] as int - 0xF0) * 262144 + (bs[1] as int - 0x80) * 4096 + (bs[2] as int - 0x80) * 64 + (bs[3] as int - 0x80) == cp;
  }

  /** Decoding undoes encoding. */
  lemma {:induction false} Utf8RoundTrip(s: string)
    ensures Utf8Decode(Utf8(s)) == s
    decreases |s|
  {
    if s != [] {
      var head := Utf8Char(s[0]);
      DecodeHeadOfChar(s[0], Utf8(s[1..]));
      assert (head + Utf8(s[1..]))[|head|..] == Utf8(s[1..]);
      Utf8RoundTrip(s[1..]);
    }
  }

  // ------------------------------------------------------- percent-encoding

  /** The characters `quote` never escapes: ALPHA, DIGIT, `_`, `.`, `-`, `~`
      (the unreserved set of section 2.3 of RFC 3986). */
  predicate IsUnreserved(b: int) {
    ('A' as int <= b <= 'Z' as int) || ('a' as int <= b <= 'z' as int)
    || ('0' as int <= b <= '9' as int)
    || b == '_' as int || b == '.' as int || b == '-' as int || b == '~' as int
  }

  function HexDigit(n: int): (c: char)
    requires 0 <= n < 16
    ensures IsHexDigit(c)
  {
    if n < 10 then ('0' as int + n) as char else ('A' as int + n - 10) as char
  }

  predicate IsHexDigit(c: char) {
    ('0' <= c <= '9') || ('A' <= c <= 'F') || ('a' <= c <= 'f')
  }

  function HexValue(c: char): (n: int)
    requires IsHexDigit(c)
    ensures 0 <= n < 16
  {
    if '0' <= c <= '9' then c as int - '0' as int
    else if 'A' <= c <= 'F' then c as int - 'A' as int + 10
    else c as int - 'a' as int + 10
  }

  lemma HexValueOfDigit(n: int)
    requires 0 <= n < 16
    ensures HexValue(HexDigit(n)) == n
  {
  }

  /** How a byte is written: `quote(s, safe='/')` keeps `/`; `quote_plus(s, safe='')`
      writes a space as `+` and escapes `/`. */
  datatype Style = PathSafe | FormPlus

  function QuoteByte(b: Byte, style: Style): (r: string)
    ensures r == "+" || |r| == 1 || |r| == 3
    ensures |r| == 3 ==>
      r[0] == '%' && IsHexDigit(r[1]) && IsHexDigit(r[2]) && HexValue(r[1]) * 16 + HexValue(r[2]) == b
    ensures |r| == 1 && r != "+" ==> r[0] as int == b && (IsUnreserved(b) || b == '/' as int)
    ensures r == "+" ==> style == FormPlus && b == ' ' as int
  {
    if IsUnreserved(b) || (style == PathSafe && b == '/' as int) then [b as char]
    else if style == FormPlus && b == ' ' as int then "+"
    else
      HexValueOfDigit(b / 16);
      HexValueOfDigit(b % 16);
      ['%', HexDigit(b / 16), HexDigit(b % 16)]
  }

  /** A character that percent-encoding can emit. */
  predicate IsEncodedChar(c: char) {
    IsUnreserved(c as int) || c == '/' || c == '%' || c == '+'
  }

  function QuoteBytes(bs: seq<Byte>, style: Style): (r: string)
    ensures forall i :: 0 <= i < |r| ==> IsEncodedChar(r[i])
    ensures style == PathSafe ==> '+' !in r
    decreases |bs|
  {
    if bs == [] then [] else QuoteByte(bs[0], style) + QuoteBytes(bs[1..], style)
  }

  /** `urllib.parse.quote(s)` with its default safe set `/`. */
  function Quote(s: string): string {
    QuoteBytes(Utf8(s), PathSafe)
  }

  /** `urllib.parse.quote_plus(s, safe='')`, as `urlencode` applies it to keys and values. */
  function QuotePlus(s: string): string {
    QuoteBytes(Utf8(s), FormPlus)
  }

  // -------------------------------------------------------------- decoding

  /** Percent-decoding to bytes as a form-style query parser does it: `%XY` is a byte,
      `+` is a space, any other character stands for its own UTF-8 bytes. */
  function PercentDecode(s: string): seq<Byte>
    decreases |s|
  {
    if s == [] then []
    else if s[0] == '%' && |s| >= 3 && IsHexDigit(s[1]) && IsHexDigit(s[2]) then
      [HexValue(s[1]) * 16 + HexValue(s[2])] + PercentDecode(s[3..])
    else if s[0] == '+' then [' ' as int] + PercentDecode(s[1..])
    else Utf8Char(s[0]) + PercentDecode(s[1..])
  }

  /** The value a query parser hands to the program for an encoded parameter. */
  function FormDecode(s: string): string {
    Utf8Decode(PercentDecode(s))
  }

  lemma {:induction false} PercentDecodeQuoted(bs: seq<Byte>, style: Style)
    ensures PercentDecode(QuoteBytes(bs, style)) == bs
    decreases |bs|
  {
    if bs != [] {
      var head := QuoteByte(bs[0], style);
      var tail := QuoteBytes(bs[1..], style);
      PercentDecodeQuoted(bs[1..], style);
      var s := head + tail;
      if |head| == 3 {
        assert s[3..] == tail;
      } else {
        assert s[1..] == tail;
      }
    }
  }

  /** Decoding a `quote`d text gives the text back: the proxy recovers the exact target URL
      from the `url` parameter it produced. */
  lemma QuoteRoundTrip(s: string)
    ensures FormDecode(Quote(s)) == s
  {
    PercentDecodeQuoted(Utf8(s), PathSafe);
    Utf8RoundTrip(s);
  }

  /** The same for `quote_plus`, as used for the search-form parameters. */
  lemma QuotePlusRoundTrip(s: string)
    ensures FormDecode(QuotePlus(s)) == s
  {
    PercentDecodeQuoted(Utf8(s), FormPlus);
    Utf8RoundTrip(s);
  }
}
