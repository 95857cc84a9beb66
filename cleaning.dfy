/**
 * `clean_heading_text` (pdf_extractor.py:103-112): the normalisation applied to every title candidate
 * and to every heading before it is emitted.
 */
module Cleaning {
  import opened Strings
  import opened Seqs

  /** Every whitespace character is a plain space and no two whitespace characters are adjacent. */
  predicate SpacesAreSingle(s: string) {
    s == [] ||
      ((IsSpace(s[0]) ==> s[0] == ' ' && (|s| > 1 ==> !IsSpace(s[1]))) && SpacesAreSingle(s[1..]))
  }

  /** `re.sub(r'\s+', ' ', s)`: each maximal run of whitespace becomes one space. */
  function CollapseWhitespace(s: string): (r: string)
    ensures r == [] <==> s == []
    ensures s != [] ==> (IsSpace(r[0]) <==> IsSpace(s[0]))
    ensures s != [] && !IsSpace(s[0]) ==> r[0] == s[0]
    ensures s != [] ==> (IsSpace(r[|r| - 1]) <==> IsSpace(s[|s| - 1]))
    ensures SpacesAreSingle(r)
    ensures |r| <= |s|
    decreases |s|
  {
    if s == [] then []
    else if IsSpace(s[0]) then
      var rest := StripLeft(s);
      assert rest == [] ==> IsSpace(s[|s| - 1]);
      assert rest != [] ==> rest[|rest| - 1] == s[|s| - 1];
      [' '] + CollapseWhitespace(rest)
    else
      [s[0]] + CollapseWhitespace(s[1..])
  }

  /** Leading whitespace before a non-space start is exactly what `lstrip` removes. */
  lemma {:induction false} StripLeftAfterSpaces(w: string, b: string)
    requires forall k :: 0 <= k < |w| ==> IsSpace(w[k])
    requires b == [] || !IsSpace(b[0])
    ensures StripLeft(w + b) == b
  {
    if w == [] {
      assert w + b == b;
    } else {
      assert (w + b)[0] == w[0];
      assert (w + b)[1..] == w[1..] + b;
      StripLeftAfterSpaces(w[1..], b);
    }
  }

  /** `lstrip` of a text ending in a non-space character stops inside it. */
  lemma {:induction false} StripLeftOfConcat(a: string, b: string)
    requires a != [] && !IsSpace(a[|a| - 1])
    ensures StripLeft(a + b) == StripLeft(a) + b
  {
    assert (a + b)[0] == a[0];
    if IsSpace(a[0]) {
      assert (a + b)[1..] == a[1..] + b;
      StripLeftOfConcat(a[1..], b);
    }
  }

  /** A whitespace run in front of a word, or at the end, becomes exactly one space. */
  lemma CollapseRun(w: string, b: string)
    requires w != [] && forall k :: 0 <= k < |w| ==> IsSpace(w[k])
    requires b == [] || !IsSpace(b[0])
    ensures CollapseWhitespace(w + b) == [' '] + CollapseWhitespace(b)
  {
    assert (w + b)[0] == w[0];
    StripLeftAfterSpaces(w, b);
  }

  /**
   * Collapsing works piece by piece across a cut made right after a non-space character; with
   * CollapseRun and CollapseKeepsSpacesSingle this pins the result down on every input.
   */
  lemma {:induction false} CollapseConcat(a: string, b: string)
    requires a == [] || !IsSpace(a[|a| - 1])
    ensures CollapseWhitespace(a + b) == CollapseWhitespace(a) + CollapseWhitespace(b)
    decreases |a|
  {
    if a == [] {
      assert a + b == b;
    } else if IsSpace(a[0]) {
      var rest := StripLeft(a);
      assert rest != [] && rest[|rest| - 1] == a[|a| - 1];
      CollapseConcat(rest, b);
      assert CollapseWhitespace(a + b) == [' '] + CollapseWhitespace(rest + b) by {
        HeadOfConcat(a, b);
        StripLeftOfConcat(a, b);
      }
      ConcatAssociates([' '], CollapseWhitespace(rest), CollapseWhitespace(b));
    } else {
      CollapseConcat(a[1..], b);
      assert CollapseWhitespace(a + b) == [a[0]] + CollapseWhitespace(a[1..] + b) by {
        HeadOfConcat(a, b);
      }
      ConcatAssociates([a[0]], CollapseWhitespace(a[1..]), CollapseWhitespace(b));
    }
  }

  /** The non-whitespace characters of `s`, in order. */
  function NonSpaces(s: string): (r: string)
    ensures |r| <= |s|
    ensures forall k :: 0 <= k < |r| ==> !IsSpace(r[k])
  {
    if s == [] then [] else (if IsSpace(s[0]) then [] else [s[0]]) + NonSpaces(s[1..])
  }

  lemma {:induction false} StripLeftKeepsNonSpaces(s: string)
    ensures NonSpaces(StripLeft(s)) == NonSpaces(s)
  {
    if s != [] && IsSpace(s[0]) {
      StripLeftKeepsNonSpaces(s[1..]);
    }
  }

  /** Collapsing keeps every non-whitespace character, in order, and adds none. */
  lemma {:induction false} CollapseKeepsNonSpaces(s: string)
    ensures NonSpaces(CollapseWhitespace(s)) == NonSpaces(s)
    decreases |s|
  {
    if s != [] {
      var r := CollapseWhitespace(s);
      if IsSpace(s[0]) {
        var rest := StripLeft(s);
        StripLeftKeepsNonSpaces(s);
        CollapseKeepsNonSpaces(rest);
        assert r == [' '] + CollapseWhitespace(rest);
        assert r[1..] == CollapseWhitespace(rest);
      } else {
        CollapseKeepsNonSpaces(s[1..]);
        assert r == [s[0]] + CollapseWhitespace(s[1..]);
        assert r[1..] == CollapseWhitespace(s[1..]);
      }
    }
  }

  /** A character of the class `[\d\W]`: a digit or anything that is not a word character. */
  predicate IsDigitOrNonWord(c: char) {
    IsDigit(c) || !IsWordChar(c)
  }

  /** `re.sub(r'^[\d\W]*', '', s)`: drops the leading run of digits and non-word characters. */
  function DropLeadingDigitsAndSymbols(s: string): (r: string)
    ensures |r| <= |s| && r == s[|s| - |r|..]
    ensures r == [] || !IsDigitOrNonWord(r[0])
  {
    if s != [] && IsDigitOrNonWord(s[0]) then DropLeadingDigitsAndSymbols(s[1..]) else s
  }

  /** Only digits and non-word characters are dropped. */
  lemma {:induction false} DropRemovesOnlyDigitsAndSymbols(s: string)
    ensures var r := DropLeadingDigitsAndSymbols(s);
      forall i :: 0 <= i < |s| - |r| ==> IsDigitOrNonWord(s[i])
  {
    if s != [] && IsDigitOrNonWord(s[0]) {
      DropRemovesOnlyDigitsAndSymbols(s[1..]);
      assert forall i :: 0 < i < |s| ==> s[i] == s[1..][i - 1];
    }
  }

  predicate IsLineBreakOrTab(c: char) {
    c == '\n' || c == '\r' || c == '\t'
  }

  /** `re.sub(r'[\n\r\t]', ' ', s)` */
  function ReplaceLineBreaksAndTabs(s: string): (r: string)
    ensures |r| == |s|
  {
    if s == [] then [] else [if IsLineBreakOrTab(s[0]) then ' ' else s[0]] + ReplaceLineBreaksAndTabs(s[1..])
  }

  /** Each line break or tab becomes a space; every other character stays. */
  lemma {:induction false} ReplaceAt(s: string)
    ensures forall i :: 0 <= i < |s| ==>
      ReplaceLineBreaksAndTabs(s)[i] == if IsLineBreakOrTab(s[i]) then ' ' else s[i]
  {
    if s != [] {
      ReplaceAt(s[1..]);
      assert forall i :: 0 < i < |s| ==> ReplaceLineBreaksAndTabs(s)[i] == ReplaceLineBreaksAndTabs(s[1..])[i - 1];
    }
  }

  /**
   * What the cleaner promises: no surrounding whitespace, only single plain spaces inside (so no
   * line break and no tab), and a first character that is neither a digit nor a non-word
   * character, that is, a letter or an underscore.
   */
  predicate IsCleanText(s: string) {
    && (s == [] || (!IsSpace(s[0]) && !IsSpace(s[|s| - 1])))
    && SpacesAreSingle(s)
    && (s == [] || IsLetter(s[0]) || s[0] == '_')
  }

  /**
   * The cleaner strips the text, collapses its whitespace runs and drops its leading run of digits
   * and non-word characters. The source then replaces line breaks and tabs by spaces and strips
   * again; neither step can change the text by then (CleanHeadingTextSteps), so the definition stops
   * after the third step.
   */
  function CleanHeadingText(text: string): string {
    DropLeadingDigitsAndSymbols(CollapseWhitespace(Strip(text)))
  }

  /** A cleaned text is clean and no longer than the input. */
  lemma CleanHeadingTextIsClean(text: string)
    ensures IsCleanText(CleanHeadingText(text))
    ensures |CleanHeadingText(text)| <= |text|
  {
    CollapseKeepsEnds(Strip(text));
    TrimmedIsClean(CollapseWhitespace(Strip(text)));
  }

  /** The cleaner equals the source's five steps in their order. */
  lemma CleanHeadingTextSteps(text: string)
    ensures CleanHeadingText(text) ==
      Strip(ReplaceLineBreaksAndTabs(DropLeadingDigitsAndSymbols(CollapseWhitespace(Strip(text)))))
  {
    CleanHeadingTextIsClean(text);
    ReplaceKeepsSpaceless(CleanHeadingText(text));
  }

  /** Dropping the leading run from text with single spaces and no surrounding space leaves clean text. */
  lemma TrimmedIsClean(s: string)
    requires SpacesAreSingle(s) && (s == [] || (!IsSpace(s[0]) && !IsSpace(s[|s| - 1])))
    ensures IsCleanText(DropLeadingDigitsAndSymbols(s))
  {
    DropKeepsSpacesSingle(s);
    DropKeepsEnds(s);
  }

  lemma DropKeepsSpacesSingle(s: string)
    requires SpacesAreSingle(s)
    ensures SpacesAreSingle(DropLeadingDigitsAndSymbols(s))
  {
    SuffixKeepsSpacesSingle(s, |s| - |DropLeadingDigitsAndSymbols(s)|);
  }

  lemma DropKeepsEnds(s: string)
    requires s == [] || !IsSpace(s[|s| - 1])
    ensures var r := DropLeadingDigitsAndSymbols(s);
      r == [] || (!IsSpace(r[0]) && !IsSpace(r[|r| - 1]) && (IsLetter(r[0]) || r[0] == '_'))
  {
    var r := DropLeadingDigitsAndSymbols(s);
    if r != [] {
      WordCharIsNotSpace(r[0]);
      LastCharKept(s, r);
    }
  }

  lemma CollapseKeepsEnds(s: string)
    requires s == [] || (!IsSpace(s[0]) && !IsSpace(s[|s| - 1]))
    ensures var c := CollapseWhitespace(s); c == [] || (!IsSpace(c[0]) && !IsSpace(c[|c| - 1]))
  {
  }

  lemma LastCharKept(s: string, suffix: string)
    requires suffix != [] && |suffix| <= |s| && suffix == s[|s| - |suffix|..]
    ensures suffix[|suffix| - 1] == s[|s| - 1]
  {
  }

  lemma WordCharIsNotSpace(c: char)
    requires !IsDigitOrNonWord(c)
    ensures !IsSpace(c) && (IsLetter(c) || c == '_')
  {
  }

  lemma {:induction false} SuffixKeepsSpacesSingle(s: string, k: nat)
    requires k <= |s| && SpacesAreSingle(s)
    ensures SpacesAreSingle(s[k..])
  {
    if k > 0 {
      SuffixKeepsSpacesSingle(s[1..], k - 1);
      assert s[1..][k - 1..] == s[k..];
    }
  }

  /** Text with single plain spaces holds no line break or tab, so the replacement leaves it alone. */
  lemma {:induction false} ReplaceKeepsSpaceless(s: string)
    requires SpacesAreSingle(s)
    ensures ReplaceLineBreaksAndTabs(s) == s
  {
    if s != [] {
      ReplaceKeepsSpaceless(s[1..]);
      assert IsLineBreakOrTab(s[0]) ==> IsSpace(s[0]);
      assert s == [s[0]] + s[1..];
    }
  }

  lemma {:induction false} CollapseKeepsSpacesSingle(s: string)
    requires SpacesAreSingle(s)
    ensures CollapseWhitespace(s) == s
    decreases |s|
  {
    if s != [] {
      var t := s[1..];
      assert s == [s[0]] + t;
      SuffixKeepsSpacesSingle(s, 1);
      CollapseKeepsSpacesSingle(t);
      if IsSpace(s[0]) {
        assert t == [] || !IsSpace(t[0]);
        assert StripLeft(t) == t;
        assert StripLeft(s) == t;
        assert s[0] == ' ';
        assert CollapseWhitespace(s) == [' '] + t;
      } else {
        assert CollapseWhitespace(s) == [s[0]] + t;
      }
    }
  }

  /** Cleaning a cleaned text changes nothing. */
  lemma CleanTextIsFixed(s: string)
    requires IsCleanText(s)
    ensures CleanHeadingText(s) == s
  {
    assert Strip(s) == s;
    assert CollapseWhitespace(s) == s by {
      CollapseKeepsSpacesSingle(s);
    }
    assert DropLeadingDigitsAndSymbols(s) == s by {
      assert s == [] || IsLetter(s[0]) || s[0] == '_';
    }
  }

  /** `clean_heading_text` is idempotent. */
  lemma CleanIdempotent(text: string)
    ensures CleanHeadingText(CleanHeadingText(text)) == CleanHeadingText(text)
  {
    CleanHeadingTextIsClean(text);
    CleanTextIsFixed(CleanHeadingText(text));
  }
}
