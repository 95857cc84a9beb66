/** The optional-value wrapper used for the extractor's `Optional[...]` results. */
module Options {

  datatype Option<+T> = None | Some(value: T) {

    /** `x or default` for an optional value, as `title or ""` does. */
    function GetOr(default: T): T {
      match this
      case Some(v) => v
      case None => default
    }
  }
}

/**
 * The Python `str` operations the outline engine relies on, over ASCII.
 * A character above 127 is treated as a non-space, non-word, uncased character.
 */
module Strings {

  /** `str.isspace` (and the regular-expression class `\s`) on ASCII: space, `\t` `\n` `\v` `\f` `\r`
    * and the four separators 0x1c-0x1f. */
  predicate IsSpace(c: char) {
    c == ' ' || '\t' <= c <= '\r' || '\U{1C}' <= c <= '\U{1F}'
  }

  predicate IsDigit(c: char) {
    '0' <= c <= '9'
  }

  predicate IsUpperChar(c: char) {
    'A' <= c <= 'Z'
  }

  predicate IsLowerChar(c: char) {
    'a' <= c <= 'z'
  }

  predicate IsLetter(c: char) {
    IsUpperChar(c) || IsLowerChar(c)
  }

  /** The regular-expression class `\w` on ASCII. */
  predicate IsWordChar(c: char) {
    IsLetter(c) || IsDigit(c) || c == '_'
  }

  function LowerChar(c: char): char {
    if IsUpperChar(c) then (c as int + 32) as char else c
  }

  /** `str.lower()` */
  function Lower(s: string): (r: string)
    ensures |r| == |s|
  {
    if s == [] then [] else [LowerChar(s[0])] + Lower(s[1..])
  }

  /** `str.lower()` maps each character on its own. */
  lemma {:induction false} LowerAt(s: string)
    ensures forall i :: 0 <= i < |s| ==> Lower(s)[i] == LowerChar(s[i])
  {
    if s != [] {
      LowerAt(s[1..]);
      assert forall i :: 0 < i < |s| ==> Lower(s)[i] == Lower(s[1..])[i - 1];
    }
  }

  /** `str.lstrip()`: drops the leading run of whitespace. */
  function StripLeft(s: string): (r: string)
    ensures |r| <= |s| && r == s[|s| - |r|..]
    ensures r == [] ==> s == [] || IsSpace(s[|s| - 1])
    ensures r == [] || !IsSpace(r[0])
  {
    if s != [] && IsSpace(s[0]) then StripLeft(s[1..]) else s
  }

  /** `str.rstrip()`: drops the trailing run of whitespace. */
  function StripRight(s: string): (r: string)
    ensures |r| <= |s| && r == s[..|r|]
    ensures r == [] ==> s == [] || IsSpace(s[0])
    ensures r == [] || !IsSpace(r[|r| - 1])
  {
    if s != [] && IsSpace(s[|s| - 1]) then StripRight(s[..|s| - 1]) else s
  }

  /** `str.strip()` */
  function Strip(s: string): (r: string)
    ensures |r| <= |s|
    ensures r == [] || (!IsSpace(r[0]) && !IsSpace(r[|r| - 1]))
    ensures (s == [] || (!IsSpace(s[0]) && !IsSpace(s[|s| - 1]))) ==> r == s
  {
    StripRight(StripLeft(s))
  }

  /** `StripLeft` drops whitespace and nothing else. */
  lemma {:induction false} StripLeftDropsSpaces(s: string)
    ensures forall k :: 0 <= k < |s| - |StripLeft(s)| ==> IsSpace(s[k])
  {
    if s != [] && IsSpace(s[0]) {
      StripLeftDropsSpaces(s[1..]);
      forall k | 1 <= k < |s| - |StripLeft(s)|
        ensures IsSpace(s[k])
      {
        assert s[k] == s[1..][k - 1];
      }
    }
  }

  /** `StripRight` drops whitespace and nothing else. */
  lemma {:induction false} StripRightDropsSpaces(s: string)
    ensures forall k :: |StripRight(s)| <= k < |s| ==> IsSpace(s[k])
  {
    if s != [] && IsSpace(s[|s| - 1]) {
      StripRightDropsSpaces(s[..|s| - 1]);
      forall k | |StripRight(s)| <= k < |s| - 1
        ensures IsSpace(s[k])
      {
        assert s[k] == s[..|s| - 1][k];
      }
    }
  }

  /**
   * What `Strip` keeps is the run of `s` that starts at offset `i`, character
   * for character, with only whitespace before and after it.
   */
  lemma StripContent(s: string, i: nat)
    requires i == |s| - |StripLeft(s)|
    ensures i + |Strip(s)| <= |s|
    ensures forall k :: 0 <= k < |Strip(s)| ==> Strip(s)[k] == s[i + k]
    ensures forall k :: 0 <= k < i ==> IsSpace(s[k])
    ensures forall k :: i + |Strip(s)| <= k < |s| ==> IsSpace(s[k])
  {
    assert Strip(s) == StripRight(StripLeft(s));
    StripLeftDropsSpaces(s);
    StripRightInSlice(StripLeft(s), s, i);
  }

  lemma StripRightInSlice(l: string, s: string, i: nat)
    requires i <= |s| && l == s[i..]
    ensures i + |StripRight(l)| <= |s|
    ensures forall k :: 0 <= k < |StripRight(l)| ==> StripRight(l)[k] == s[i + k]
    ensures forall k :: i + |StripRight(l)| <= k < |s| ==> IsSpace(s[k])
  {
    var r := StripRight(l);
    StripRightDropsSpaces(l);
    forall k | 0 <= k < |r|
      ensures r[k] == s[i + k]
    {
      assert r[k] == l[k];
    }
    forall k | i + |r| <= k < |s|
      ensures IsSpace(s[k])
    {
      assert s[k] == l[k - i];
    }
  }

  predicate StartsWith(s: string, prefix: string) {
    |prefix| <= |s| && s[..|prefix|] == prefix
  }

  /** `sub` occurs in `s` at position `i`. */
  ghost predicate OccursAt(s: string, sub: string, i: int) {
    0 <= i <= |s| - |sub| && s[i..i + |sub|] == sub
  }

  /** `sub in s`: the substring test, scanning the start positions from the left. */
  predicate Contains(s: string, sub: string)
    decreases |s|
  {
    StartsWith(s, sub) || (s != [] && Contains(s[1..], sub))
  }

  /** The scan finds `sub` exactly when it occurs somewhere in `s`. */
  lemma {:induction false} ContainsMeans(s: string, sub: string)
    ensures Contains(s, sub) <==> exists i :: OccursAt(s, sub, i)
    decreases |s|
  {
    if StartsWith(s, sub) {
      assert OccursAt(s, sub, 0);
    } else if s != [] {
      ContainsStep(s, sub);
      ContainsMeans(s[1..], sub);
    }
  }

  /** An occurrence past the first position of `s` is an occurrence in `s[1..]`, and back. */
  lemma ContainsStep(s: string, sub: string)
    requires s != [] && !StartsWith(s, sub)
    ensures (exists i :: OccursAt(s, sub, i)) <==> (exists i :: OccursAt(s[1..], sub, i))
  {
    var t := s[1..];
    if i :| OccursAt(s, sub, i) {
      assert i != 0 by {
        assert s[..|sub|] == s[0..0 + |sub|];
      }
      var u, w := t[i - 1..i - 1 + |sub|], s[i..i + |sub|];
      forall m | 0 <= m < |sub|
        ensures u[m] == w[m]
      {
        assert u[m] == t[i - 1 + m] == s[i + m];
      }
      assert u == w;
      assert OccursAt(t, sub, i - 1);
    }
    if i :| OccursAt(t, sub, i) {
      var u, w := s[i + 1..i + 1 + |sub|], t[i..i + |sub|];
      forall m | 0 <= m < |sub|
        ensures u[m] == w[m]
      {
        assert u[m] == s[i + 1 + m] == t[i + m];
      }
      assert u == w;
      assert OccursAt(s, sub, i + 1);
    }
  }

  /** `s.count(c)` for a one-character `c`. */
  function Count(s: string, c: char): (n: nat)
    ensures n <= |s|
    ensures n == 0 <==> c !in s
    ensures n == multiset(s)[c]
  {
    if s == [] then 0
    else
      assert c in s <==> s[0] == c || c in s[1..];
      assert s == [s[0]] + s[1..];
      assert multiset(s) == multiset{s[0]} + multiset(s[1..]);
      (if s[0] == c then 1 else 0) + Count(s[1..], c)
  }

  /** `str.isupper()`: at least one cased character, and no lower-case one. */
  predicate IsUpper(s: string) {
    (exists i :: 0 <= i < |s| && IsUpperChar(s[i])) && forall i :: 0 <= i < |s| ==> !IsLowerChar(s[i])
  }

  /**
   * `str.istitle()` as CPython scans it: an upper-case letter may not follow a cased one, a lower-case
   * letter must follow a cased one, and at least one letter occurs. `prevCased` says whether the
   * character before `s` was a letter, `cased` whether a letter has been seen.
   */
  predicate IsTitleFrom(s: string, prevCased: bool, cased: bool) {
    if s == [] then cased
    else if IsUpperChar(s[0]) then !prevCased && IsTitleFrom(s[1..], true, true)
    else if IsLowerChar(s[0]) then prevCased && IsTitleFrom(s[1..], true, true)
    else IsTitleFrom(s[1..], false, cased)
  }

  predicate IsTitle(s: string) {
    IsTitleFrom(s, false, false)
  }

  predicate HasLetter(s: string) {
    exists i :: 0 <= i < |s| && IsLetter(s[i])
  }

  /** An upper-case letter never follows a letter (`prevCased`: the character before `s` is one). */
  ghost predicate UpperRule(s: string, prevCased: bool) {
    && (s != [] && IsUpperChar(s[0]) ==> !prevCased)
    && forall i :: 0 < i < |s| && IsUpperChar(s[i]) ==> !IsLetter(s[i - 1])
  }

  /** A lower-case letter always follows a letter. */
  ghost predicate LowerRule(s: string, prevCased: bool) {
    && (s != [] && IsLowerChar(s[0]) ==> prevCased)
    && forall i :: 0 < i < |s| && IsLowerChar(s[i]) ==> IsLetter(s[i - 1])
  }

  /** The title-case rule stated position by position. */
  ghost predicate TitleCased(s: string) {
    HasLetter(s) && UpperRule(s, false) && LowerRule(s, false)
  }

  /** The scan of `str.istitle()` decides exactly the position-by-position title-case rule. */
  lemma IsTitleMeansTitleCased(s: string)
    ensures IsTitle(s) <==> TitleCased(s)
  {
    IsTitleFromCharacterised(s, false, false);
  }

  lemma {:induction false} IsTitleFromCharacterised(s: string, prevCased: bool, cased: bool)
    ensures IsTitleFrom(s, prevCased, cased) <==>
      (cased || HasLetter(s)) && UpperRule(s, prevCased) && LowerRule(s, prevCased)
    decreases |s|
  {
    if s != [] {
      var t := s[1..];
      var nowCased := IsLetter(s[0]);
      IsTitleFromCharacterised(t, nowCased, cased || nowCased);
      assert forall i :: 0 < i < |s| ==> s[i] == t[i - 1];
      assert HasLetter(s) <==> nowCased || HasLetter(t) by {
        if i :| 0 <= i < |s| && IsLetter(s[i]) {
          if i > 0 { assert IsLetter(t[i - 1]); }
        }
        if i :| 0 <= i < |t| && IsLetter(t[i]) {
          assert IsLetter(s[i + 1]);
        }
      }
      UpperRuleStep(s, prevCased);
      LowerRuleStep(s, prevCased);
    }
  }

  lemma UpperRuleStep(s: string, prevCased: bool)
    requires s != []
    ensures UpperRule(s, prevCased) <==>
      (IsUpperChar(s[0]) ==> !prevCased) && UpperRule(s[1..], IsLetter(s[0]))
  {
    var t := s[1..];
    if (IsUpperChar(s[0]) ==> !prevCased) && UpperRule(t, IsLetter(s[0])) {
      forall i | 0 < i < |s| && IsUpperChar(s[i])
        ensures !IsLetter(s[i - 1])
      {
        assert s[i] == t[i - 1];
      }
    }
  }

  lemma LowerRuleStep(s: string, prevCased: bool)
    requires s != []
    ensures LowerRule(s, prevCased) <==>
      (IsLowerChar(s[0]) ==> prevCased) && LowerRule(s[1..], IsLetter(s[0]))
  {
    var t := s[1..];
    if (IsLowerChar(s[0]) ==> prevCased) && LowerRule(t, IsLetter(s[0])) {
      forall i | 0 < i < |s| && IsLowerChar(s[i])
        ensures IsLetter(s[i - 1])
      {
        assert s[i] == t[i - 1];
      }
    }
  }

  /** Python's `<=` on strings: lexicographic by code point, a proper prefix first. */
  predicate LexLe(a: string, b: string) {
    a == [] || (b != [] && (a[0] < b[0] || (a[0] == b[0] && LexLe(a[1..], b[1..]))))
  }

  lemma {:induction false} LexLeTotal(a: string, b: string)
    ensures LexLe(a, b) || LexLe(b, a)
  {
    if a != [] && b != [] && a[0] == b[0] {
      LexLeTotal(a[1..], b[1..]);
    }
  }

  lemma {:induction false} LexLeTransitive(a: string, b: string, c: string)
    requires LexLe(a, b) && LexLe(b, c)
    ensures LexLe(a, c)
  {
    if a != [] && a[0] == b[0] && b[0] == c[0] {
      LexLeTransitive(a[1..], b[1..], c[1..]);
    }
  }

  lemma {:induction false} LexLeAntisymmetric(a: string, b: string)
    requires LexLe(a, b) && LexLe(b, a)
    ensures a == b
  {
    if a != [] {
      LexLeAntisymmetric(a[1..], b[1..]);
    }
  }
}
