/**
 * Go's url.PathEscape, which the package URL builders use: every character that may not appear
 * as such in a path segment (section 3.3 of RFC 3986) is replaced by its UTF-8 bytes, each
 * written as '%' and two upper-case hex digits.
 */
module GoUrl {

  predicate IsAlnum(c: char) { 'a' <= c <= 'z' || 'A' <= c <= 'Z' || '0' <= c <= '9' }

  /**
   * The characters url.PathEscape keeps: the unreserved ones and the reserved ones a path
   * segment allows; '/', ';', ',' and '?' are escaped.
   */
  predicate SegmentSafe(c: char) {
    IsAlnum(c) || c == '-' || c == '_' || c == '.' || c == '~'
    || c == '$' || c == '&' || c == '+' || c == ':' || c == '=' || c == '@'
  }

  /** The UTF-8 encoding of one character. */
  function Utf8(c: char): (bs: seq<nat>)
    ensures 1 <= |bs| <= 4
    ensures forall i :: 0 <= i < |bs| ==> bs[i] < 256
    ensures c as int < 0x80 ==> bs == [c as int]
  {
    var n := c as int;
    if n < 0x80 then [n]
    else if n < 0x800 then [0xC0 + n / 64, 0x80 + n % 64]
    else if n < 0x10000 then [0xE0 + n / 4096, 0x80 + n / 64 % 64, 0x80 + n % 64]
    else [0xF0 + n / 262144, 0x80 + n / 4096 % 64, 0x80 + n / 64 % 64, 0x80 + n % 64]
  }

  predicate IsUpperHex(c: char) { '0' <= c <= '9' || 'A' <= c <= 'F' }

  /** The upper-case hex digit of a value below 16. */
  function UpperHexDigit(d: nat): (c: char)
    requires d < 16
    ensures IsUpperHex(c)
  {
    if d < 10 then ('0' as int + d) as char else ('A' as int + d - 10) as char
  }

  function UpperHexValue(c: char): (d: nat)
    requires IsUpperHex(c)
    ensures d < 16 && UpperHexDigit(d) == c
  {
    if '0' <= c <= '9' then c as int - '0' as int else c as int - 'A' as int + 10
  }

  lemma UpperHexDigitValue(d: nat)
    requires d < 16
    ensures UpperHexValue(UpperHexDigit(d)) == d
  {
  }

  /** Each byte as "%XX". */
  function PercentBytes(bs: seq<nat>): (r: string)
    requires forall i :: 0 <= i < |bs| ==> bs[i] < 256
    ensures |r| == 3 * |bs|
    ensures forall i :: 0 <= i < |r| ==> r[i] == '%' || IsUpperHex(r[i])
  {
    if bs == [] then "" else ['%', UpperHexDigit(bs[0] / 16), UpperHexDigit(bs[0] % 16)] + PercentBytes(bs[1..])
  }

  function EscapeChar(c: char): (r: string)
    ensures |r| >= 1
    ensures forall i :: 0 <= i < |r| ==> r[i] == '%' || IsUpperHex(r[i]) || r[i] == c
    ensures SegmentSafe(c) <==> r == [c]
  {
    if SegmentSafe(c) then [c] else PercentBytes(Utf8(c))
  }

  /** url.PathEscape. */
  function PathEscape(s: string): (r: string)
    ensures |r| >= |s|
    ensures forall i :: 0 <= i < |r| ==> r[i] != '/'
  {
    if s == [] then "" else EscapeChar(s[0]) + PathEscape(s[1..])
  }

  predicate AllSafe(s: string) { forall i :: 0 <= i < |s| ==> SegmentSafe(s[i]) }

  /** A string of safe characters is its own escape. */
  lemma {:induction false} PathEscapeSafe(s: string)
    requires AllSafe(s)
    ensures PathEscape(s) == s
  {
    if s != [] {
      PathEscapeSafe(s[1..]);
      assert s == [s[0]] + s[1..];
    }
  }

  /** Any character outside the safe set changes the string. */
  lemma {:induction false} PathEscapeChanges(s: string)
    requires !AllSafe(s)
    ensures PathEscape(s) != s
  {
    if SegmentSafe(s[0]) {
      PathEscapeChanges(s[1..]);
      assert PathEscape(s) == [s[0]] + PathEscape(s[1..]);
      assert s == [s[0]] + s[1..];
    } else {
      assert |PathEscape(s)| > |s|;
    }
  }

  /**
   * The decoding of "%XX" triples back to characters; on ASCII text (one byte per character) it
   * undoes PathEscape.
   */
  function PathUnescape(s: string): string
  {
    if |s| >= 3 && s[0] == '%' && IsUpperHex(s[1]) && IsUpperHex(s[2]) then
      [(16 * UpperHexValue(s[1]) + UpperHexValue(s[2])) as char] + PathUnescape(s[3..])
    else if s == [] then ""
    else [s[0]] + PathUnescape(s[1..])
  }

  predicate IsAscii(s: string) { forall i :: 0 <= i < |s| ==> s[i] as int < 0x80 }

  lemma UnescapeOne(b: nat, rest: string)
    requires b < 256
    ensures PathUnescape(['%', UpperHexDigit(b / 16), UpperHexDigit(b % 16)] + rest) == [b as char] + PathUnescape(rest)
  {
    var t := ['%', UpperHexDigit(b / 16), UpperHexDigit(b % 16)] + rest;
    UpperHexDigitValue(b / 16);
    UpperHexDigitValue(b % 16);
    assert t[3..] == rest;
  }

  lemma UnescapeSafe(c: char, rest: string)
    requires SegmentSafe(c)
    ensures PathUnescape([c] + rest) == [c] + PathUnescape(rest)
  {
    assert ([c] + rest)[1..] == rest;
  }

  /** Unescaping an escaped ASCII string gives it back, so escaping is injective on ASCII. */
  lemma {:induction false} PathEscapeRoundTrip(s: string)
    requires IsAscii(s)
    ensures PathUnescape(PathEscape(s)) == s
  {
    if s != [] {
      PathEscapeRoundTrip(s[1..]);
      var c := s[0];
      if SegmentSafe(c) {
        UnescapeSafe(c, PathEscape(s[1..]));
      } else {
        assert EscapeChar(c) == ['%', UpperHexDigit(c as int / 16), UpperHexDigit(c as int % 16)];
        UnescapeOne(c as int, PathEscape(s[1..]));
      }
      assert s == [c] + s[1..];
    }
  }
}
