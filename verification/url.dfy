/** Percent-decoding as done by Python's `urllib.parse.unquote`, restricted
    to escapes that name ASCII characters, and the matching encoder. */
module Url {

  predicate IsHexDigit(ch: char) {
    ('0' <= ch <= '9') || ('a' <= ch <= 'f') || ('A' <= ch <= 'F')
  }

  function HexValue(ch: char): (v: nat)
    requires IsHexDigit(ch)
    ensures v < 16
  {
    if '0' <= ch <= '9' then ch as int - '0' as int
    else if 'a' <= ch <= 'f' then ch as int - 'a' as int + 10
    else ch as int - 'A' as int + 10
  }

  /** `s` starts with an escape `%XX` that names an ASCII character. */
  predicate AsciiEscapeAt(s: string) {
    |s| >= 3 && s[0] == '%' && IsHexDigit(s[1]) && IsHexDigit(s[2]) && HexValue(s[1]) < 8
  }

  /** `unquote(s)`: each `%XX` escape naming an ASCII character becomes that
      character; every other character, a `%` that starts no escape among
      them, is kept. */
  function Unquote(s: string): string
    decreases |s|
  {
    if |s| == 0 then ""
    else if AsciiEscapeAt(s) then
      [(16 * HexValue(s[1]) + HexValue(s[2])) as char] + Unquote(s[3..])
    else [s[0]] + Unquote(s[1..])
  }

  predicate IsAscii(s: string) {
    forall k :: 0 <= k < |s| ==> s[k] < 128 as char
  }

  /** The characters a URL carries without escaping. */
  predicate Unreserved(ch: char) {
    ('A' <= ch <= 'Z') || ('a' <= ch <= 'z') || ('0' <= ch <= '9')
    || ch == '-' || ch == '.' || ch == '_' || ch == '~'
  }

  function HexChar(n: nat): (ch: char)
    requires n < 16
    ensures IsHexDigit(ch) && HexValue(ch) == n
  {
    "0123456789ABCDEF"[n]
  }

  /** Percent-encodes every character of ASCII text that is not unreserved. */
  function Quote(s: string): (r: string)
    requires IsAscii(s)
    ensures IsAscii(r)
    decreases |s|
  {
    if |s| == 0 then ""
    else
      var v := s[0] as int;
      var piece := if Unreserved(s[0]) then [s[0]] else ['%', HexChar(v / 16), HexChar(v % 16)];
      piece + Quote(s[1..])
  }

  /** A name without `%` is left as it is. */
  lemma {:induction false} UnquotePlain(s: string)
    requires '%' !in s
    ensures Unquote(s) == s
    decreases |s|
  {
    if |s| > 0 {
      UnquotePlain(s[1..]);
      assert s == [s[0]] + s[1..];
    }
  }

  /** Decoding an escape produced for an ASCII character. */
  lemma UnquoteEscape(ch: char, rest: string)
    requires ch < 128 as char
    ensures Unquote(['%', HexChar(ch as int / 16), HexChar(ch as int % 16)] + rest) == [ch] + Unquote(rest)
  {
    var v := ch as int;
    var piece := ['%', HexChar(v / 16), HexChar(v % 16)];
    assert (piece + rest)[3..] == rest;
    assert AsciiEscapeAt(piece + rest);
    assert (16 * (v / 16) + v % 16) as char == ch;
  }

  /** Decoding an unreserved character, which is never `%`. */
  lemma UnquotePlainChar(ch: char, rest: string)
    requires Unreserved(ch)
    ensures Unquote([ch] + rest) == [ch] + Unquote(rest)
  {
    assert ([ch] + rest)[1..] == rest;
  }

  /** Decoding undoes encoding for ASCII text. */
  lemma {:induction false} UnquoteQuote(s: string)
    requires IsAscii(s)
    ensures Unquote(Quote(s)) == s
    decreases |s|
  {
    if |s| > 0 {
      UnquoteQuote(s[1..]);
      if Unreserved(s[0]) {
        UnquotePlainChar(s[0], Quote(s[1..]));
      } else {
        UnquoteEscape(s[0], Quote(s[1..]));
      }
      assert s == [s[0]] + s[1..];
    }
  }
}
