/**
 * Python's `str.strip()` with no argument: remove the leading and trailing characters
 * for which `str.isspace()` holds.
 */
module Strings {

  /** The code points Python's `str.isspace()` accepts. */
  predicate IsWhitespace(c: char) {
    || c == ' '
    || ('\t' <= c <= '\r')
    || ('\U{1C}' <= c <= '\U{1F}')
    || c == '\U{85}' || c == '\U{A0}' || c == '\U{1680}'
    || ('\U{2000}' <= c <= '\U{200A}')
    || c == '\U{2028}' || c == '\U{2029}' || c == '\U{202F}' || c == '\U{205F}' || c == '\U{3000}'
  }

  /** Every character of s[lo..hi] is whitespace. */
  predicate WhitespaceIn(s: string, lo: int, hi: int)
    requires 0 <= lo <= hi <= |s|
  {
    forall k :: lo <= k < hi ==> IsWhitespace(s[k])
  }

  predicate AllWhitespace(s: string) {
    WhitespaceIn(s, 0, |s|)
  }

  /** The number of whitespace characters `s` starts with. */
  function LeadingWhitespace(s: string): (n: nat)
    ensures n <= |s| && WhitespaceIn(s, 0, n)
    ensures n < |s| ==> !IsWhitespace(s[n])
  {
    if s != [] && IsWhitespace(s[0]) then
      var m := LeadingWhitespace(s[1..]);
      assert forall k :: 1 <= k < m + 1 ==> s[k] == s[1..][k - 1];
      m + 1
    else
      0
  }

  /** The index at which the trailing run of whitespace of `s` begins. */
  function TrailingStart(s: string): (j: nat)
    ensures j <= |s| && WhitespaceIn(s, j, |s|)
    ensures j > 0 ==> !IsWhitespace(s[j - 1])
  {
    if s != [] && IsWhitespace(s[|s| - 1]) then
      var j := TrailingStart(s[..|s| - 1]);
      assert forall k :: j <= k < |s| - 1 ==> s[k] == s[..|s| - 1][k];
      j
    else
      |s|
  }

  /**
   * `s.strip()`: the result is a slice of `s` with only whitespace before and after it,
   * it neither starts nor ends with whitespace, and it is empty exactly when `s` is all
   * whitespace.
   */
  function Strip(s: string): (r: string)
    ensures exists i, j :: 0 <= i <= j <= |s| && r == s[i..j] && WhitespaceIn(s, 0, i) && WhitespaceIn(s, j, |s|)
    ensures r == [] || (!IsWhitespace(r[0]) && !IsWhitespace(r[|r| - 1]))
    ensures r == [] <==> AllWhitespace(s)
  {
    var i := LeadingWhitespace(s);
    var t := s[i..];
    var j := TrailingStart(t);
    assert t[..j] == s[i..i + j];
    assert WhitespaceIn(s, i + j, |s|) by {
      assert forall k :: i + j <= k < |s| ==> s[k] == t[k - i];
    }
    if i == |s| then
      t[..j]
    else
      assert t[0] == s[i];
      assert j > 0;
      assert !AllWhitespace(s) by { assert !IsWhitespace(s[i]); }
      t[..j]
  }

  /** A string that already neither starts nor ends with whitespace is left alone. */
  lemma {:induction false} StripTrimmed(s: string)
    requires s == [] || (!IsWhitespace(s[0]) && !IsWhitespace(s[|s| - 1]))
    ensures Strip(s) == s
  {
  }

  /** Whitespace appended to a string does not change what strip() gives. */
  lemma {:induction false} StripAppendWhitespace(s: string, c: char)
    requires IsWhitespace(c)
    ensures Strip(s + [c]) == Strip(s)
  {
    var s' := s + [c];
    if AllWhitespace(s) {
      assert forall k :: 0 <= k < |s| ==> s'[k] == s[k];
      assert AllWhitespace(s');
    } else {
      var i := LeadingWhitespace(s);
      LeadingWhitespaceAppend(s, [c]);
      var t := s[i..];
      assert s'[i..] == t + [c];
      assert TrailingStart(t + [c]) == TrailingStart(t) by {
        assert (t + [c])[..|t + [c]| - 1] == t;
      }
    }
  }

  /** A string with a non-whitespace character has the same leading whitespace whatever follows it. */
  lemma {:induction false} LeadingWhitespaceAppend(s: string, t: string)
    requires !AllWhitespace(s)
    ensures LeadingWhitespace(s + t) == LeadingWhitespace(s)
  {
    assert (s + t)[0] == s[0];
    if IsWhitespace(s[0]) {
      assert (s + t)[1..] == s[1..] + t;
      assert !AllWhitespace(s[1..]) by {
        var k :| 0 <= k < |s| && !IsWhitespace(s[k]);
        assert s[1..][k - 1] == s[k];
      }
      LeadingWhitespaceAppend(s[1..], t);
    }
  }
}
