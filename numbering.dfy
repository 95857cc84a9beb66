/**
 * The numbered-heading test of `classify_heading_level` (pdf_extractor.py:172): a prefix such as
 * `1.`, `2.3`, `4)` or `5:` followed by optional whitespace and a letter. The pattern as written in
 * the source does not compile (see the RegexFinding module); this is the language it evidently
 * means, `^\d+[.):][\d.):]*\s*[A-Za-z]`, matched at the start of the text.
 */
module Numbering {
  import opened Strings

  predicate IsSeparator(c: char) {
    c == '.' || c == ')' || c == ':'
  }

  /** A character of the numbering prefix after its first separator: a digit or a separator. */
  predicate IsNumberingChar(c: char) {
    IsDigit(c) || IsSeparator(c)
  }

  /** The length of the longest prefix of `s` whose characters all satisfy `p`. */
  function RunLength(s: string, p: char -> bool): (n: nat)
    ensures n <= |s|
    ensures forall i :: 0 <= i < n ==> p(s[i])
    ensures n == |s| || !p(s[n])
  {
    if s != [] && p(s[0]) then 1 + RunLength(s[1..], p) else 0
  }

  /**
   * The matcher: the digits, one separator, the rest of the numbering prefix and the whitespace are
   * each taken as a maximal run, and a letter must come next.
   */
  predicate IsNumberedHeading(s: string) {
    var d := RunLength(s, IsDigit);
    1 <= d < |s| && IsSeparator(s[d]) &&
      var rest := s[d + 1..];
      var n := RunLength(rest, IsNumberingChar);
      var sp := RunLength(rest[n..], IsSpace);
      n + sp < |rest| && IsLetter(rest[n + sp])
  }

  /**
   * The regular expression read position by position: digits before `i` (at least one), a separator
   * at `i`, digits and separators strictly between `i` and `j`, whitespace from `j` up to `k`, and a
   * letter at `k`. Any such split is a match, whatever the backtracking.
   */
  ghost predicate ShapeAt(s: string, i: int, j: int, k: int) {
    && 1 <= i < j <= k < |s|
    && (forall m :: 0 <= m < i ==> IsDigit(s[m]))
    && IsSeparator(s[i])
    && (forall m :: i < m < j ==> IsNumberingChar(s[m]))
    && (forall m :: j <= m < k ==> IsSpace(s[m]))
    && IsLetter(s[k])
  }

  /** A run ends exactly where the predicate first fails. */
  lemma RunLengthAt(s: string, p: char -> bool, n: nat)
    requires n < |s| && !p(s[n]) && forall i :: 0 <= i < n ==> p(s[i])
    ensures RunLength(s, p) == n
  {
  }

  /** The matcher accepts a text exactly when the pattern matches some prefix of it. */
  lemma NumberedHeadingShape(s: string)
    ensures IsNumberedHeading(s) <==> exists i, j, k :: ShapeAt(s, i, j, k)
  {
    if IsNumberedHeading(s) {
      var d := RunLength(s, IsDigit);
      var rest := s[d + 1..];
      var n := RunLength(rest, IsNumberingChar);
      var sp := RunLength(rest[n..], IsSpace);
      ShapeFromRuns(s, d, n, sp);
    }
    if i, j, k :| ShapeAt(s, i, j, k) {
      RunsFromShape(s, i, j, k);
    }
  }

  lemma ShapeFromRuns(s: string, d: nat, n: nat, sp: nat)
    requires d == RunLength(s, IsDigit) && 1 <= d < |s| && IsSeparator(s[d])
    requires n == RunLength(s[d + 1..], IsNumberingChar)
    requires sp == RunLength(s[d + 1..][n..], IsSpace)
    requires n + sp < |s[d + 1..]| && IsLetter(s[d + 1..][n + sp])
    ensures ShapeAt(s, d, d + 1 + n, d + 1 + n + sp)
  {
    var rest := s[d + 1..];
    forall m | d < m < d + 1 + n
      ensures IsNumberingChar(s[m])
    {
      assert s[m] == rest[m - d - 1];
    }
    forall m | d + 1 + n <= m < d + 1 + n + sp
      ensures IsSpace(s[m])
    {
      assert s[m] == rest[n..][m - d - 1 - n];
    }
    assert s[d + 1 + n + sp] == rest[n + sp];
  }

  lemma RunsFromShape(s: string, i: int, j: int, k: int)
    requires ShapeAt(s, i, j, k)
    ensures IsNumberedHeading(s)
  {
    DigitRunFromShape(s, i, j, k);
    NumberingRunFromShape(s, i, j, k);
    SpaceRunFromShape(s, i, j, k);
    assert s[i + 1..][j - i - 1 + (k - j)] == s[k];
  }

  lemma DigitRunFromShape(s: string, i: int, j: int, k: int)
    requires ShapeAt(s, i, j, k)
    ensures RunLength(s, IsDigit) == i
  {
    RunLengthAt(s, IsDigit, i);
  }

  lemma NumberingRunFromShape(s: string, i: int, j: int, k: int)
    requires ShapeAt(s, i, j, k)
    ensures RunLength(s[i + 1..], IsNumberingChar) == j - i - 1
  {
    assert !IsNumberingChar(s[j]);
    RunFromOffset(s, IsNumberingChar, i + 1, j);
  }

  lemma SpaceRunFromShape(s: string, i: int, j: int, k: int)
    requires ShapeAt(s, i, j, k)
    ensures RunLength(s[i + 1..][j - i - 1..], IsSpace) == k - j
  {
    assert s[i + 1..][j - i - 1..] == s[j..];
    RunFromOffset(s, IsSpace, j, k);
  }

  /** A run that starts at `start` and first fails at `end`, seen from `start`. */
  lemma RunFromOffset(s: string, p: char -> bool, start: nat, end: nat)
    requires start <= end < |s| && !p(s[end]) && forall m :: start <= m < end ==> p(s[m])
    ensures RunLength(s[start..], p) == end - start
  {
    var t := s[start..];
    assert forall m :: 0 <= m < end - start ==> t[m] == s[start + m];
    RunLengthAt(t, p, end - start);
  }
}
