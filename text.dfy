/**
 * String.prototype.trim as the search handler uses it: it strips the ECMAScript
 * WhiteSpace and LineTerminator characters from both ends of the input.
 */
module Text {

  /** ECMAScript WhiteSpace (TAB, VT, FF, ZWNBSP and every Zs) or LineTerminator (LF, CR, LS, PS). */
  predicate IsWhitespace(c: char)
  {
    c == '\t' || c == '\n' || c == '\U{B}' || c == '\U{C}' || c == '\r' || c == ' ' ||
    c == '\U{A0}' || c == '\U{1680}' || ('\U{2000}' <= c <= '\U{200A}') ||
    c == '\U{2028}' || c == '\U{2029}' || c == '\U{202F}' || c == '\U{205F}' ||
    c == '\U{3000}' || c == '\U{FEFF}'
  }

  predicate AllWhitespace(s: string)
  {
    forall k :: 0 <= k < |s| ==> IsWhitespace(s[k])
  }

  /** Number of whitespace characters at the front of `s`. */
  function LeadingCount(s: string): (n: nat)
    ensures n <= |s|
    ensures AllWhitespace(s[..n])
    ensures n < |s| ==> !IsWhitespace(s[n])
  {
    if |s| == 0 || !IsWhitespace(s[0]) then 0
    else
      var n := 1 + LeadingCount(s[1..]);
      assert s[..n] == [s[0]] + s[1..][..n - 1];
      n
  }

  /** Number of whitespace characters at the back of `s`. */
  function TrailingCount(s: string): (n: nat)
    ensures n <= |s|
    ensures AllWhitespace(s[|s| - n..])
    ensures n < |s| ==> !IsWhitespace(s[|s| - n - 1])
  {
    if |s| == 0 || !IsWhitespace(s[|s| - 1]) then 0
    else
      var n := 1 + TrailingCount(s[..|s| - 1]);
      assert s[|s| - n..] == s[..|s| - 1][|s| - n..] + [s[|s| - 1]];
      n
  }

  /**
   * The trimmed string: it neither starts nor ends with whitespace, and it is
   * empty exactly when `s` is all whitespace (TrimIsSlice says where it sits in `s`).
   */
  function Trim(s: string): (r: string)
    ensures r == "" <==> AllWhitespace(s)
    ensures r != "" ==> !IsWhitespace(r[0]) && !IsWhitespace(r[|r| - 1])
    ensures |r| <= |s|
  {
    var i := LeadingCount(s);
    if i == |s| then
      assert s[..i] == s;
      ""
    else
      var n := TrailingCount(s);
      assert |s| - n > i;
      var r := s[i..|s| - n];
      assert r[0] == s[i] && r[|r| - 1] == s[|s| - n - 1];
      r
  }

  /** The trimmed string is the piece of `s` left after cutting only whitespace from either end. */
  lemma TrimIsSlice(s: string)
    ensures var i, r := LeadingCount(s), Trim(s);
            && i + |r| <= |s| && r == s[i..i + |r|]
            && AllWhitespace(s[..i]) && AllWhitespace(s[i + |r|..])
  {
    var i, r := LeadingCount(s), Trim(s);
    if i == |s| {
      assert r == "" && s[..i] == s;
    } else {
      var n := TrailingCount(s);
      assert r == s[i..|s| - n];
      assert i + |r| == |s| - n;
    }
  }
}
