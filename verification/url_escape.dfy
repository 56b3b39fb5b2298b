/** Go's `url.QueryEscape`, the library call the manager applies to a new
    session id before writing it into a cookie. The manager operations take
    the escaping function as a parameter and assume nothing about it; this
    concrete model exists to show what that call does to the `=` every
    minted id ends with. */
module UrlEscape {
  import opened GoTypes

  /** Characters `QueryEscape` leaves as they are: letters, digits and `-_.~`. */
  predicate IsUnreserved(c: char) {
    || 'A' <= c <= 'Z'
    || 'a' <= c <= 'z'
    || '0' <= c <= '9'
    || c == '-' || c == '_' || c == '.' || c == '~'
  }

  function HexDigit(n: int): char
    requires 0 <= n < 16
  {
    "0123456789ABCDEF"[n]
  }

  /** UTF-8 encoding of one Unicode scalar value. */
  function Utf8(c: char): (bytes: seq<Byte>)
    ensures 1 <= |bytes| <= 4
  {
    var cp := c as int;
    if cp < 0x80 then [cp]
    else if cp < 0x800 then [0xC0 + cp / 0x40, 0x80 + cp % 0x40]
    else if cp < 0x1_0000 then [0xE0 + cp / 0x1000, 0x80 + (cp / 0x40) % 0x40, 0x80 + cp % 0x40]
    else [0xF0 + cp / 0x4_0000, 0x80 + (cp / 0x1000) % 0x40, 0x80 + (cp / 0x40) % 0x40, 0x80 + cp % 0x40]
  }

  /** `%XX` for each byte, upper-case hexadecimal. */
  function PercentEncode(bytes: seq<Byte>): (s: string)
    ensures |s| == 3 * |bytes|
  {
    if bytes == [] then ""
    else ['%', HexDigit(bytes[0] / 16), HexDigit(bytes[0] % 16)] + PercentEncode(bytes[1..])
  }

  /** How one character is written in a query component. */
  function EscapeChar(c: char): (s: string)
    ensures IsUnreserved(c) ==> s == [c]
    ensures c == ' ' ==> s == "+"
    ensures !IsUnreserved(c) && c != ' ' ==> |s| >= 3 && s[0] == '%'
  {
    if IsUnreserved(c) then [c]
    else if c == ' ' then "+"
    else PercentEncode(Utf8(c))
  }

  /** `url.QueryEscape`: each character escaped in turn. */
  function QueryEscape(s: string): (e: string)
    ensures |e| >= |s|
    ensures (forall i :: 0 <= i < |s| ==> IsUnreserved(s[i])) ==> e == s
    decreases |s|
  {
    if s == [] then ""
    else QueryEscape(s[..|s| - 1]) + EscapeChar(s[|s| - 1])
  }

  /** A string ending in the base 64 pad `=` escapes to one ending in `%3D`. */
  lemma EscapedPadEndsInPercent3D(s: string)
    requires |s| > 0 && s[|s| - 1] == '='
    ensures var e := QueryEscape(s);
      |e| >= 3 && e[|e| - 3..] == "%3D"
  {
    assert Utf8('=') == [0x3D];
    assert EscapeChar('=') == "%3D";
  }
}
