/**
 * Percent-decoding as `urllib.parse.unquote` performs it, and the matching
 * encoder. A `%` followed by two hexadecimal digits becomes the character
 * with that code; any other `%` is kept literally.
 */
module Percent {

  predicate IsHex(c: char) {
    '0' <= c <= '9' || 'a' <= c <= 'f' || 'A' <= c <= 'F'
  }

  function HexVal(c: char): (n: nat)
    requires IsHex(c)
    ensures n < 16
  {
    if '0' <= c <= '9' then (c - '0') as nat
    else if 'a' <= c <= 'f' then (c - 'a') as nat + 10
    else (c - 'A') as nat + 10
  }

  /** Upper-case hexadecimal digit, as `urllib.parse.quote` writes it. */
  function HexDigit(n: nat): (c: char)
    requires n < 16
    ensures IsHex(c) && HexVal(c) == n
  {
    if n < 10 then ('0' as int + n) as char else ('A' as int + n - 10) as char
  }

  /** `urllib.parse.unquote(s)`. */
  function Unquote(s: string): (r: string)
    ensures |r| <= |s|
    decreases |s|
  {
    if |s| == 0 then ""
    else if s[0] == '%' && |s| >= 3 && IsHex(s[1]) && IsHex(s[2]) then
      [(16 * HexVal(s[1]) + HexVal(s[2])) as char] + Unquote(s[3..])
    else
      [s[0]] + Unquote(s[1..])
  }

  /** Characters `urllib.parse.quote` never escapes. */
  predicate Unreserved(c: char) {
    'a' <= c <= 'z' || 'A' <= c <= 'Z' || '0' <= c <= '9' || c == '_' || c == '.' || c == '-' || c == '~' || c == '/'
  }

  /**
   * Escapes every reserved character with a code below 256 as `%XX`; other
   * characters pass through unchanged.
   */
  function Quote(s: string): (r: string)
    ensures Escaped(r)
    decreases |s|
  {
    if |s| == 0 then ""
    else if Unreserved(s[0]) || s[0] as int >= 256 then
      EscapedPlain(s[0], Quote(s[1..]));
      [s[0]] + Quote(s[1..])
    else
      var n := s[0] as int;
      EscapedEscape(HexDigit(n / 16), HexDigit(n % 16), Quote(s[1..]));
      "%" + [HexDigit(n / 16), HexDigit(n % 16)] + Quote(s[1..])
  }

  /** Every `%` starts a complete two-digit escape. */
  predicate Escaped(r: string) {
    forall k :: 0 <= k < |r| && r[k] == '%' ==> k + 2 < |r| && IsHex(r[k + 1]) && IsHex(r[k + 2])
  }

  lemma EscapedPlain(c: char, q: string)
    requires c != '%' && Escaped(q)
    ensures Escaped([c] + q)
  {
    var w := [c] + q;
    forall k | 0 < k < |w| ensures w[k] == q[k - 1] {
    }
  }

  lemma EscapedEscape(a: char, b: char, q: string)
    requires IsHex(a) && IsHex(b) && Escaped(q)
    ensures Escaped("%" + [a, b] + q)
  {
    var w := "%" + [a, b] + q;
    assert w[1] == a && w[2] == b;
    forall k | 3 <= k < |w| ensures w[k] == q[k - 3] {
    }
  }

  lemma UnquotePlainHead(c: char, q: string)
    requires c != '%'
    ensures Unquote([c] + q) == [c] + Unquote(q)
  {
    assert ([c] + q)[1..] == q;
  }

  lemma UnquoteEscapeHead(a: char, b: char, q: string)
    requires IsHex(a) && IsHex(b)
    ensures Unquote("%" + [a, b] + q) == [(16 * HexVal(a) + HexVal(b)) as char] + Unquote(q)
  {
    var w := "%" + [a, b] + q;
    assert w[0] == '%' && w[1] == a && w[2] == b;
    assert w[3..] == q;
  }

  /** Decoding undoes encoding, for every string. */
  lemma {:induction false} UnquoteQuote(s: string)
    ensures Unquote(Quote(s)) == s
    decreases |s|
  {
    if |s| > 0 {
      UnquoteQuote(s[1..]);
      if Unreserved(s[0]) || s[0] as int >= 256 {
        UnquoteQuotePlain(s);
      } else {
        UnquoteQuoteEscaped(s);
      }
    }
  }

  lemma UnquoteQuotePlain(s: string)
    requires |s| > 0 && (Unreserved(s[0]) || s[0] as int >= 256)
    requires Unquote(Quote(s[1..])) == s[1..]
    ensures Unquote(Quote(s)) == s
  {
    UnquotePlainHead(s[0], Quote(s[1..]));
    assert s == [s[0]] + s[1..];
  }

  lemma UnquoteQuoteEscaped(s: string)
    requires |s| > 0 && !(Unreserved(s[0]) || s[0] as int >= 256)
    requires Unquote(Quote(s[1..])) == s[1..]
    ensures Unquote(Quote(s)) == s
  {
    var n := s[0] as int;
    assert 16 * (n / 16) + n % 16 == n;
    UnquoteEscapeHead(HexDigit(n / 16), HexDigit(n % 16), Quote(s[1..]));
    assert (16 * HexVal(HexDigit(n / 16)) + HexVal(HexDigit(n % 16))) as char == s[0];
    assert s == [s[0]] + s[1..];
  }

  /** A string without `%` is its own decoding. */
  lemma {:induction false} UnquoteNoPercent(s: string)
    requires forall k :: 0 <= k < |s| ==> s[k] != '%'
    ensures Unquote(s) == s
    decreases |s|
  {
    if |s| > 0 {
      UnquoteNoPercent(s[1..]);
      assert s == [s[0]] + s[1..];
    }
  }

  /** An escape that is not followed by two hex digits is kept literally. */
  lemma UnquoteKeepsBadEscape()
    ensures Unquote("%%41") == "%A"
    ensures Unquote("%zz") == "%zz"
  {
    assert !IsHex("%%41"[1]);
    assert "%%41"[1..] == "%41";
    assert "%41"[3..] == "";
    assert Unquote("%41") == "A";
    assert "%zz"[1..] == "zz";
    assert "zz"[1..] == "z";
    assert "z"[1..] == "";
  }
}
