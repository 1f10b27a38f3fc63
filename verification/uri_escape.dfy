/** `Uri.EscapeDataString`: percent-encoding of a credential as in RFC 3986
    sections 2.1 and 2.3. Unreserved characters stay; every other character
    is written as the UTF-8 bytes of RFC 3629, each as `%` and two
    upper-case hexadecimal digits. */
module UriEscape {
  import opened Opt

  /** An octet of the UTF-8 encoding. */
  type Octet = x: int | 0 <= x < 256

  type Octets = seq<Octet>

  /** ALPHA / DIGIT / "-" / "." / "_" / "~" (RFC 3986 section 2.3). */
  predicate IsUnreserved(c: char)
  {
    ('A' <= c <= 'Z') || ('a' <= c <= 'z') || ('0' <= c <= '9') || c == '-' || c == '.' || c == '_' || c == '~'
  }

  predicate IsHexDigit(c: char)
  {
    ('0' <= c <= '9') || ('A' <= c <= 'F') || ('a' <= c <= 'f')
  }

  function HexDigit(n: nat): (c: char)
    requires n < 16
    ensures IsHexDigit(c) && IsUnreserved(c)
  {
    if n < 10 then ('0' as int + n) as char else ('A' as int + n - 10) as char
  }

  function HexValue(c: char): (n: nat)
    requires IsHexDigit(c)
    ensures n < 16
  {
    if '0' <= c <= '9' then c as int - '0' as int
    else if 'A' <= c <= 'F' then c as int - 'A' as int + 10
    else c as int - 'a' as int + 10
  }

  lemma HexRoundTrip(n: nat)
    requires n < 16
    ensures HexValue(HexDigit(n)) == n
  {
  }

  /** The UTF-8 encoding of one Unicode scalar value (RFC 3629 section 3). */
  function Utf8(c: char): (bs: Octets)
    ensures 1 <= |bs| <= 4
    ensures c as int < 0x80 ==> bs == [c as int]
  {
    var n := c as int;
    if n < 0x80 then [n]
    else if n < 0x800 then [(0xC0 + n / 0x40), (0x80 + n % 0x40)]
    else if n < 0x1_0000 then
      [(0xE0 + n / 0x1000), (0x80 + (n / 0x40) % 0x40), (0x80 + n % 0x40)]
    else
      [(0xF0 + n / 0x4_0000), (0x80 + (n / 0x1000) % 0x40),
       (0x80 + (n / 0x40) % 0x40), (0x80 + n % 0x40)]
  }

  /** The UTF-8 encoding of a string. */
  function Utf8String(s: string): Octets
    decreases |s|
  {
    if |s| == 0 then [] else Utf8(s[0]) + Utf8String(s[1..])
  }

  /** `%XY` for each octet. */
  function PercentOctets(bs: Octets): (t: string)
    ensures |t| == 3 * |bs|
    ensures forall i :: 0 <= i < |t| ==> t[i] == '%' || IsUnreserved(t[i])
    decreases |bs|
  {
    if |bs| == 0 then []
    else
      var b := bs[0];
      ['%', HexDigit(b / 16), HexDigit(b % 16)] + PercentOctets(bs[1..])
  }

  function EscapeChar(c: char): string
  {
    if IsUnreserved(c) then [c] else PercentOctets(Utf8(c))
  }

  /** The escaped form contains only unreserved characters and `%`, so in
      particular no `:`, `@` or `/`; a string of unreserved characters is
      left as it is. */
  function Escape(s: string): (t: string)
    ensures forall i :: 0 <= i < |t| ==> t[i] == '%' || IsUnreserved(t[i])
    ensures (forall i :: 0 <= i < |s| ==> IsUnreserved(s[i])) ==> t == s
    decreases |s|
  {
    if |s| == 0 then [] else EscapeChar(s[0]) + Escape(s[1..])
  }

  /** Escaped text never contains the delimiters of a URL's user information. */
  lemma EscapedHasNoDelimiters(s: string)
    ensures ':' !in Escape(s) && '@' !in Escape(s) && '/' !in Escape(s)
  {
  }

  /** One decoded byte and the number of characters it was written with. */
  datatype Unit = Unit(byte: Octet, width: nat)

  /** Decode the first unit of `t`: an unreserved character stands for its
      own byte, `%XY` for the byte with that hexadecimal value; anything else
      is not escaped text. */
  function DecodeUnit(t: string): (u: Option<Unit>)
    requires |t| > 0
    ensures u.Some? ==> 1 <= u.value.width <= |t|
  {
    if t[0] == '%' then
      if |t| >= 3 && IsHexDigit(t[1]) && IsHexDigit(t[2]) then
        Some(Unit((HexValue(t[1]) * 16 + HexValue(t[2])), 3))
      else None
    else if IsUnreserved(t[0]) then Some(Unit(t[0] as int, 1))
    else None
  }

  /** Percent-decoding of a whole string, unit by unit. */
  function PercentDecode(t: string): Option<Octets>
    decreases |t|
  {
    if |t| == 0 then Some([])
    else match DecodeUnit(t)
      case None => None
      case Some(u) =>
        match PercentDecode(t[u.width..])
        case None => None
        case Some(tail) => Some([u.byte] + tail)
  }

  /** One `%XY` triple decodes to its byte. */
  lemma DecodeOneByte(b: Octet, rest: string)
    ensures PercentDecode(['%', HexDigit(b / 16), HexDigit(b % 16)] + rest) ==
      match PercentDecode(rest) case None => None case Some(tail) => Some([b] + tail)
  {
    var n := b;
    var t := ['%', HexDigit(n / 16), HexDigit(n % 16)] + rest;
    assert t[0] == '%' && t[1] == HexDigit(n / 16) && t[2] == HexDigit(n % 16);
    HexPairValue(b);
    assert DecodeUnit(t) == Some(Unit(b, 3));
    assert t[3..] == rest;
  }

  lemma HexPairValue(b: Octet)
    ensures (HexValue(HexDigit(b / 16)) * 16 + HexValue(HexDigit(b % 16))) == b
  {
    var n := b;
    HexRoundTrip(n / 16);
    HexRoundTrip(n % 16);
    assert n / 16 * 16 + n % 16 == n;
  }

  lemma {:induction false} DecodePercentOctets(bs: Octets, rest: string)
    ensures PercentDecode(PercentOctets(bs) + rest) ==
      match PercentDecode(rest) case None => None case Some(tail) => Some(bs + tail)
    decreases |bs|
  {
    if |bs| == 0 {
      assert PercentOctets(bs) + rest == rest;
      match PercentDecode(rest)
      case None =>
      case Some(tail) =>
        assert bs + tail == tail;
    } else {
      var n := bs[0];
      var head := ['%', HexDigit(n / 16), HexDigit(n % 16)];
      assert PercentOctets(bs) + rest == head + (PercentOctets(bs[1..]) + rest);
      DecodeOneByte(bs[0], PercentOctets(bs[1..]) + rest);
      DecodePercentOctets(bs[1..], rest);
      match PercentDecode(rest)
      case None =>
      case Some(tail) =>
        assert [bs[0]] + (bs[1..] + tail) == bs + tail;
    }
  }

  /** Round trip: decoding the escaped text gives back the UTF-8 bytes of
      the original string. */
  lemma {:induction false} EscapeRoundTrip(s: string)
    ensures PercentDecode(Escape(s)) == Some(Utf8String(s))
    decreases |s|
  {
    if |s| > 0 {
      EscapeRoundTrip(s[1..]);
      var c := s[0];
      if IsUnreserved(c) {
        assert Escape(s) == [c] + Escape(s[1..]);
        assert (Escape(s))[1..] == Escape(s[1..]);
      } else {
        DecodePercentOctets(Utf8(c), Escape(s[1..]));
      }
    }
  }
}
