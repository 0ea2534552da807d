/** Python's `str.strip()` with no argument: removes every leading and every
    trailing whitespace character, where "whitespace" is the set of characters
    for which `str.isspace()` holds. */
module Strings {

  /** The characters `str.isspace()` accepts: the ASCII controls TAB..CR and
      FS..US, SPACE, NEL, NO-BREAK SPACE, and the Unicode space separators,
      line separator and paragraph separator. */
  predicate IsWhitespace(c: char) {
    || ('\U{9}' <= c <= '\U{D}')
    || ('\U{1C}' <= c <= '\U{20}')
    || c == '\U{85}'
    || c == '\U{A0}'
    || c == '\U{1680}'
    || ('\U{2000}' <= c <= '\U{200A}')
    || c == '\U{2028}'
    || c == '\U{2029}'
    || c == '\U{202F}'
    || c == '\U{205F}'
    || c == '\U{3000}'
  }

  predicate AllWhitespace(s: string) {
    forall k :: 0 <= k < |s| ==> IsWhitespace(s[k])
  }

  /** Neither the first nor the last character of `r` is whitespace. */
  predicate TrimmedEdges(r: string) {
    r == [] || (!IsWhitespace(r[0]) && !IsWhitespace(r[|r| - 1]))
  }

  /** Number of whitespace characters at the front of `s`. */
  function LeadingWhitespace(s: string): (n: nat)
    ensures n <= |s|
    ensures AllWhitespace(s[..n])
    ensures n < |s| ==> !IsWhitespace(s[n])
  {
    if |s| > 0 && IsWhitespace(s[0]) then
      var n' := LeadingWhitespace(s[1..]);
      assert s[..1 + n'] == [s[0]] + s[1..][..n'];
      1 + n'
    else
      0
  }

  /** Number of whitespace characters at the back of `s`. */
  function TrailingWhitespace(s: string): (n: nat)
    ensures n <= |s|
    ensures AllWhitespace(s[|s| - n..])
    ensures n < |s| ==> !IsWhitespace(s[|s| - 1 - n])
  {
    if |s| > 0 && IsWhitespace(s[|s| - 1]) then
      var p := s[..|s| - 1];
      var n' := TrailingWhitespace(p);
      assert s[|s| - (1 + n')..] == p[|p| - n'..] + [s[|s| - 1]];
      1 + n'
    else
      0
  }

  /** `s[i..j]` is the part of `s` that survives stripping: everything before
      `i` and from `j` on is whitespace, and the kept part starts and ends with
      a non-whitespace character (or is empty). */
  predicate StripBounds(s: string, i: int, j: int) {
    && 0 <= i <= j <= |s|
    && AllWhitespace(s[..i])
    && AllWhitespace(s[j..])
    && TrimmedEdges(s[i..j])
  }

  /** Reference definition of stripping, independent of how `Strip` computes. */
  ghost predicate IsStripOf(s: string, r: string) {
    exists i, j :: StripBounds(s, i, j) && r == s[i..j]
  }

  function Strip(s: string): (r: string)
    ensures IsStripOf(s, r)
    ensures TrimmedEdges(r)
    ensures |r| <= |s|
  {
    var i := LeadingWhitespace(s);
    var t := s[i..];
    var j := |t| - TrailingWhitespace(t);
    assert t[..j] == s[i..i + j];
    assert s[i + j..] == t[j..];
    assert StripBounds(s, i, i + j);
    t[..j]
  }

  /** At most one string is a strip of `s`, so `Strip` is exactly the
      reference definition. */
  lemma {:induction false} StripBoundsUnique(s: string, i1: int, j1: int, i2: int, j2: int)
    requires StripBounds(s, i1, j1) && StripBounds(s, i2, j2)
    ensures s[i1..j1] == s[i2..j2]
  {
    StripBoundsFacts(s, i1, j1);
    StripBoundsFacts(s, i2, j2);
  }

  lemma StripBoundsFacts(s: string, i: int, j: int)
    requires StripBounds(s, i, j)
    ensures forall k :: 0 <= k < i ==> IsWhitespace(s[k])
    ensures forall k :: j <= k < |s| ==> IsWhitespace(s[k])
    ensures i < j ==> !IsWhitespace(s[i]) && !IsWhitespace(s[j - 1])
  {
    assert forall k :: 0 <= k < i ==> s[k] == s[..i][k];
    assert forall k :: j <= k < |s| ==> s[k] == s[j..][k - j];
    if i < j {
      assert s[i] == s[i..j][0] && s[j - 1] == s[i..j][j - 1 - i];
    }
  }

  lemma StripIsUnique(s: string, r: string)
    requires IsStripOf(s, r)
    ensures r == Strip(s)
  {
    var i1, j1 :| StripBounds(s, i1, j1) && r == s[i1..j1];
    var i2, j2 :| StripBounds(s, i2, j2) && Strip(s) == s[i2..j2];
    StripBoundsUnique(s, i1, j1, i2, j2);
  }

  /** `Strip(s)` is empty exactly when every character of `s` is whitespace. */
  lemma StripEmptyIff(s: string)
    ensures Strip(s) == [] <==> AllWhitespace(s)
  {
    var r := Strip(s);
    assert IsStripOf(s, r);
    var i, j :| StripBounds(s, i, j) && r == s[i..j];
    if r == [] {
      forall k | 0 <= k < |s|
        ensures IsWhitespace(s[k])
      {
        if k < i {
          assert s[k] == s[..i][k];
        } else {
          assert s[k] == s[j..][k - j];
        }
      }
    } else {
      assert s[i] == s[i..j][0];
    }
  }

  /** A string whose ends are not whitespace is its own strip. */
  lemma StripOfTrimmed(r: string)
    requires TrimmedEdges(r)
    ensures Strip(r) == r
  {
    assert r[..0] == [] && r[|r|..] == [] && r[0..|r|] == r;
    assert StripBounds(r, 0, |r|);
    StripIsUnique(r, r);
  }

  /** Stripping twice is the same as stripping once. */
  lemma StripIdempotent(s: string)
    ensures Strip(Strip(s)) == Strip(s)
  {
    StripOfTrimmed(Strip(s));
  }
}
