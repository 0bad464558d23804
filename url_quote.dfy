/** `urllib.parse.quote(name, encoding='UTF-8')` as `get_tieba_sign_url`
    calls it (the default `safe='/'`): the name is encoded as UTF-8 and
    every byte outside the unreserved characters and '/' becomes `%XX`
    with upper-case hexadecimal digits. The inverse, percent-decoding
    followed by UTF-8 decoding, is defined here to state the round trip. */
module UrlQuote {
  import opened Common

  newtype byte = x: int | 0 <= x < 256

  // ---------------------------------------------------------------------
  // UTF-8.

  /** The UTF-8 encoding of one Unicode scalar value. */
  function Utf8Char(c: char): (r: seq<byte>)
    ensures 1 <= |r| <= 4
  {
    var cp := c as int;
    if cp < 0x80 then [cp as byte]
    else if cp < 0x800 then [(0xC0 + cp / 0x40) as byte, (0x80 + cp % 0x40) as byte]
    else if cp < 0x1_0000 then
      [(0xE0 + cp / 0x1000) as byte, (0x80 + cp / 0x40 % 0x40) as byte, (0x80 + cp % 0x40) as byte]
    else
      [(0xF0 + cp / 0x4_0000) as byte, (0x80 + cp / 0x1000 % 0x40) as byte,
       (0x80 + cp / 0x40 % 0x40) as byte, (0x80 + cp % 0x40) as byte]
  }

  function Utf8Encode(s: string): seq<byte> {
    if s == [] then [] else Utf8Char(s[0]) + Utf8Encode(s[1..])
  }

  predicate IsContinuation(b: byte) {
    0x80 <= b < 0xC0
  }

  /** The character encoded at the start of `bs` and the number of bytes it
      takes, or `None` where `bs` does not start with a well-formed,
      shortest-form encoding. */
  function DecodeOne(bs: seq<byte>): (r: Option<(char, nat)>)
    requires |bs| > 0
    ensures r.Some? ==> 1 <= r.value.1 <= |bs|
  {
    var b0 := bs[0] as int;
    if b0 < 0x80 then Some((b0 as char, 1))
    else if 0xC0 <= b0 < 0xE0 && |bs| >= 2 && IsContinuation(bs[1]) then
      var cp := (b0 - 0xC0) * 0x40 + (bs[1] as int - 0x80);
      if cp >= 0x80 then Some((cp as char, 2)) else None
    else if 0xE0 <= b0 < 0xF0 && |bs| >= 3 && IsContinuation(bs[1]) && IsContinuation(bs[2]) then
      var cp := (b0 - 0xE0) * 0x1000 + (bs[1] as int - 0x80) * 0x40 + (bs[2] as int - 0x80);
      if cp >= 0x800 && !(0xD800 <= cp < 0xE000) then Some((cp as char, 3)) else None
    else if 0xF0 <= b0 < 0xF8 && |bs| >= 4 && IsContinuation(bs[1]) && IsContinuation(bs[2])
      && IsContinuation(bs[3])
    then
      var cp := (b0 - 0xF0) * 0x4_0000 + (bs[1] as int - 0x80) * 0x1000 + (bs[2] as int - 0x80) * 0x40
        + (bs[3] as int - 0x80);
      if 0x1_0000 <= cp < 0x11_0000 then Some((cp as char, 4)) else None
    else None
  }

  function Utf8Decode(bs: seq<byte>): Option<string>
    decreases |bs|
  {
    if bs == [] then Some("")
    else
      match DecodeOne(bs)
      case None => None
      case Some(d) =>
        match Utf8Decode(bs[d.1..])
        case None => None
        case Some(rest) => Some([d.0] + rest)
  }

  lemma DecodeOneChar(c: char, rest: seq<byte>)
    ensures DecodeOne(Utf8Char(c) + rest) == Some((c, |Utf8Char(c)|))
  {
    var cp := c as int;
    if cp < 0x80 {
    } else if cp < 0x800 {
      DecodeTwo(c, rest);
    } else if cp < 0x1_0000 {
      DecodeThree(c, rest);
    } else {
      DecodeFour(c, rest);
    }
  }

  lemma DecodeTwo(c: char, rest: seq<byte>)
    requires 0x80 <= c as int < 0x800
    ensures DecodeOne(Utf8Char(c) + rest) == Some((c, 2))
  {
    var cp := c as int;
    var bs := Utf8Char(c) + rest;
    assert bs[0] as int == 0xC0 + cp / 0x40 && bs[1] as int == 0x80 + cp % 0x40;
    assert (cp / 0x40) * 0x40 + cp % 0x40 == cp;
  }

  lemma DecodeThree(c: char, rest: seq<byte>)
    requires 0x800 <= c as int < 0x1_0000
    ensures DecodeOne(Utf8Char(c) + rest) == Some((c, 3))
  {
    var cp := c as int;
    var bs := Utf8Char(c) + rest;
    assert bs[0] as int == 0xE0 + cp / 0x1000;
    assert bs[1] as int == 0x80 + cp / 0x40 % 0x40 && bs[2] as int == 0x80 + cp % 0x40;
    assert (cp / 0x1000) * 0x1000 + (cp / 0x40 % 0x40) * 0x40 + cp % 0x40 == cp;
  }

  lemma DecodeFour(c: char, rest: seq<byte>)
    requires 0x1_0000 <= c as int
    ensures DecodeOne(Utf8Char(c) + rest) == Some((c, 4))
  {
    var cp := c as int;
    var bs := Utf8Char(c) + rest;
    assert bs[0] as int == 0xF0 + cp / 0x4_0000;
    assert bs[1] as int == 0x80 + cp / 0x1000 % 0x40;
    assert bs[2] as int == 0x80 + cp / 0x40 % 0x40 && bs[3] as int == 0x80 + cp % 0x40;
    var hi := cp / 0x1000;
    assert hi * 0x1000 + (cp / 0x40 % 0x40) * 0x40 + cp % 0x40 == cp;
    assert (hi / 0x40) * 0x40 + hi % 0x40 == hi;
    assert hi / 0x40 == cp / 0x4_0000;
  }

  /** Decoding undoes encoding. */
  lemma {:induction false} Utf8RoundTrip(s: string)
    ensures Utf8Decode(Utf8Encode(s)) == Some(s)
    decreases |s|
  {
    if s != [] {
      var head := Utf8Char(s[0]);
      var rest := Utf8Encode(s[1..]);
      DecodeOneChar(s[0], rest);
      assert (head + rest)[|head|..] == rest;
      Utf8RoundTrip(s[1..]);
      assert s == [s[0]] + s[1..];
    }
  }

  // ---------------------------------------------------------------------
  // Percent-encoding.

  /** The characters `quote` never escapes: letters, digits and `_.-~`. */
  predicate AlwaysSafe(c: char) {
    ('A' <= c <= 'Z') || ('a' <= c <= 'z') || ('0' <= c <= '9') || c == '_' || c == '.' || c == '-' || c == '~'
  }

  /** `safe='/'`, the default. */
  predicate SafeByte(b: byte) {
    AlwaysSafe(b as int as char) || b as int == '/' as int
  }

  const HEX_DIGITS := "0123456789ABCDEF"

  /** A character `quote` can produce. */
  predicate QuotedChar(c: char) {
    AlwaysSafe(c) || c == '/' || c == '%'
  }

  function QuoteByte(b: byte): (r: string)
    ensures forall i :: 0 <= i < |r| ==> QuotedChar(r[i])
  {
    if SafeByte(b) then [b as int as char]
    else ['%', HEX_DIGITS[b / 16], HEX_DIGITS[b % 16]]
  }

  function QuoteBytes(bs: seq<byte>): (r: string)
    ensures forall i :: 0 <= i < |r| ==> QuotedChar(r[i])
  {
    if bs == [] then "" else QuoteByte(bs[0]) + QuoteBytes(bs[1..])
  }

  /** `urllib.parse.quote(s, encoding='UTF-8')`. Every character of the
      result is unreserved, '/' or '%', so a quoted name cannot end the
      query parameter it is placed in. */
  function Quote(s: string): (r: string)
    ensures forall i :: 0 <= i < |r| ==> QuotedChar(r[i])
  {
    QuoteBytes(Utf8Encode(s))
  }

  /** Quoting leaves a string of unreserved characters as it is. */
  lemma {:induction false} QuoteSafe(s: string)
    requires forall i :: 0 <= i < |s| ==> AlwaysSafe(s[i])
    ensures Quote(s) == s
    decreases |s|
  {
    if s != [] {
      assert AlwaysSafe(s[0]);
      assert Utf8Char(s[0]) == [s[0] as int as byte];
      QuoteSafe(s[1..]);
      assert s == [s[0]] + s[1..];
    }
  }

  function HexValue(c: char): Option<nat> {
    if '0' <= c <= '9' then Some(c as int - '0' as int)
    else if 'A' <= c <= 'F' then Some(c as int - 'A' as int + 10)
    else if 'a' <= c <= 'f' then Some(c as int - 'a' as int + 10)
    else None
  }

  lemma HexValueOfDigit(i: nat)
    requires i < 16
    ensures HexValue(HEX_DIGITS[i]) == Some(i)
  {
  }

  function Prepend(b: byte, r: Option<seq<byte>>): Option<seq<byte>> {
    match r
    case None => None
    case Some(bs) => Some([b] + bs)
  }

  /** Percent-decoding to bytes: `%XX` is one byte, any other ASCII
      character is itself, and anything else cannot have come from `quote`. */
  function UnquoteBytes(q: string): Option<seq<byte>>
    decreases |q|
  {
    if q == [] then Some([])
    else if q[0] == '%' && |q| >= 3 && HexValue(q[1]).Some? && HexValue(q[2]).Some? then
      var v := 16 * HexValue(q[1]).value + HexValue(q[2]).value;
      Prepend(v as byte, UnquoteBytes(q[3..]))
    else if q[0] as int < 0x80 then Prepend(q[0] as int as byte, UnquoteBytes(q[1..]))
    else None
  }

  /** `urllib.parse.unquote`, as far as the round trip needs it. */
  function Unquote(q: string): Option<string> {
    match UnquoteBytes(q)
    case None => None
    case Some(bs) => Utf8Decode(bs)
  }

  lemma UnquoteByte(b: byte, rest: string)
    ensures UnquoteBytes(QuoteByte(b) + rest) == Prepend(b, UnquoteBytes(rest))
  {
    var q := QuoteByte(b) + rest;
    if SafeByte(b) {
      assert q[0] == b as int as char && q[1..] == rest;
    } else {
      HexValueOfDigit(b as int / 16);
      HexValueOfDigit(b as int % 16);
      assert q[3..] == rest;
    }
  }

  lemma {:induction false} UnquoteQuoteBytes(bs: seq<byte>)
    ensures UnquoteBytes(QuoteBytes(bs)) == Some(bs)
    decreases |bs|
  {
    if bs != [] {
      UnquoteByte(bs[0], QuoteBytes(bs[1..]));
      UnquoteQuoteBytes(bs[1..]);
      assert bs == [bs[0]] + bs[1..];
    }
  }

  /** `unquote(quote(s)) == s` for every string. */
  lemma UnquoteQuote(s: string)
    ensures Unquote(Quote(s)) == Some(s)
  {
    UnquoteQuoteBytes(Utf8Encode(s));
    Utf8RoundTrip(s);
  }

  /** Quoting is injective: different forum names give different query values. */
  lemma QuoteInjective(s: string, t: string)
    requires Quote(s) == Quote(t)
    ensures s == t
  {
    UnquoteQuote(s);
    UnquoteQuote(t);
  }
}
