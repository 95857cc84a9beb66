/**
 * The numbered-heading pattern of `classify_heading_level` (pdf_extractor.py:172) as written opens
 * four groups and closes three, so Python's `re` refuses to compile it: every call of `re.match` with
 * it raises `re.error` ("missing ), unterminated subpattern"). The call is reached by every span that
 * passes the length filters (pdf_extractor.py:164-169); the exception leaves `extract_outline`
 * through its handler (pdf_extractor.py:304-306), which returns an empty title and an empty outline.
 * This module models that behaviour and sets it against the corrected model of the Extraction module.
 */
module RegexFinding {
  import opened Options
  import opened Strings
  import opened Sorting
  import opened Blocks
  import opened Cleaning
  import opened Numbering
  import opened Classifier
  import opened FontStats
  import opened Title
  import opened Outline
  import opened Extraction

  /**
   * The pattern as written at pdf_extractor.py:172, `^(\d+(\.|\)|:)+(\d+(\.|\)|:)*)*\s*[A-Za-z]` (a raw
   * string, so each `\` is one character), put together from the pieces the scan goes through.
   */
  const SourcePattern: string := Prefix() + TailText

  /** The pattern with the missing `)` before `\s*`; it matches the language of `Numbering.IsNumberedHeading`. */
  const IntendedPattern: string := Prefix() + ")" + TailText

  function ClassEnd(p: string, i: nat): (j: nat)
    requires i <= |p|
    ensures i <= j <= |p|
    decreases |p| - i
  {
    if i == |p| then i
    else if p[i] == ']' then i + 1
    else if p[i] == '\\' && i + 1 < |p| then ClassEnd(p, i + 2)
    else ClassEnd(p, i + 1)
  }

  /**
   * The number of groups still open after scanning `p` from position `i` with `depth` groups open,
   * or `None` when a `)` closes no group or the pattern ends in a lone `\`. An escaped character
   * and a character class open and close nothing.
   */
  function OpenGroups(p: string, i: nat, depth: nat): Option<nat>
    requires i <= |p|
    decreases |p| - i
  {
    if i == |p| then Some(depth)
    else if p[i] == '\\' then
      if i + 1 == |p| then None else OpenGroups(p, i + 2, depth)
    else if p[i] == '[' then OpenGroups(p, ClassEnd(p, i + 1), depth)
    else if p[i] == '(' then OpenGroups(p, i + 1, depth + 1)
    else if p[i] == ')' then
      if depth == 0 then None else OpenGroups(p, i + 1, depth - 1)
    else OpenGroups(p, i + 1, depth)
  }

  /** The groups of a pattern are balanced: `re` reports no missing or unbalanced parenthesis. */
  predicate GroupsBalanced(p: string) {
    OpenGroups(p, 0, 0) == Some(0)
  }


  /** The pattern as the pieces the scan goes through: the start and the first group's digits, */
  const OpeningText: string := "^(\\d+"
  /** the group of the three separators (twice), */
  const SeparatorText: string := "(\\.|\\)|:)"
  /** the repetition and the digits of the inner group, */
  const RepeatText: string := "+(\\d+"
  /** the close of the inner group, */
  const ClosingText: string := "*)*"
  /** and the whitespace and the letter. */
  const TailText: string := "\\s*[A-Za-z]"

  /** The 31 characters before `\s*`, where the source's pattern and the intended one part. */
  function Prefix(): string {
    OpeningText + SeparatorText + RepeatText + SeparatorText + ClosingText
  }

  /** The separator group opens and closes one group. */
  lemma SeparatorGroup(p: string, i: nat, depth: nat)
    requires i + 9 <= |p| && p[i..i + 9] == SeparatorText
    ensures OpenGroups(p, i, depth) == OpenGroups(p, i + 9, depth)
  {
    assert p[i] == p[i..i + 9][0];
    assert p[i + 1] == p[i..i + 9][1];
    assert p[i + 3] == p[i..i + 9][3];
    assert p[i + 4] == p[i..i + 9][4];
    assert p[i + 6] == p[i..i + 9][6];
    assert p[i + 7] == p[i..i + 9][7];
    assert p[i + 8] == p[i..i + 9][8];
    assert OpenGroups(p, i + 8, depth + 1) == OpenGroups(p, i + 9, depth);
    assert OpenGroups(p, i + 7, depth + 1) == OpenGroups(p, i + 9, depth);
    assert OpenGroups(p, i + 6, depth + 1) == OpenGroups(p, i + 9, depth);
    assert OpenGroups(p, i + 4, depth + 1) == OpenGroups(p, i + 9, depth);
    assert OpenGroups(p, i + 3, depth + 1) == OpenGroups(p, i + 9, depth);
    assert OpenGroups(p, i + 1, depth + 1) == OpenGroups(p, i + 9, depth);
  }

  /** `+(\d+(\.|\)|:)*)*` from position 14 opens the inner group and closes it again. */
  lemma InnerGroupCloses(p: string)
    requires 31 <= |p| && p[14..19] == RepeatText && p[19..28] == SeparatorText && p[28..31] == ClosingText
    ensures OpenGroups(p, 14, 1) == OpenGroups(p, 31, 1)
  {
    var rest := OpenGroups(p, 31, 1);
    assert p[28] == p[28..31][0] && p[29] == p[28..31][1] && p[30] == p[28..31][2];
    assert OpenGroups(p, 30, 1) == rest;
    assert OpenGroups(p, 29, 2) == rest;
    assert OpenGroups(p, 28, 2) == rest;
    SeparatorGroup(p, 19, 2);
    assert p[14] == p[14..19][0] && p[15] == p[14..19][1] && p[16] == p[14..19][2] && p[18] == p[14..19][4];
    assert OpenGroups(p, 18, 2) == rest;
    assert OpenGroups(p, 16, 2) == rest;
    assert OpenGroups(p, 15, 1) == rest;
  }

  /** The prefix opens three groups and closes two: the first group is still open after it. */
  lemma PrefixLeavesOneGroup(tail: string)
    ensures OpenGroups(Prefix() + tail, 0, 0) == OpenGroups(Prefix() + tail, 31, 1)
  {
    var p := Prefix() + tail;
    assert p[..5] == OpeningText && p[5..14] == SeparatorText && p[14..19] == RepeatText;
    assert p[19..28] == SeparatorText && p[28..31] == ClosingText;
    var rest := OpenGroups(p, 31, 1);
    InnerGroupCloses(p);
    SeparatorGroup(p, 5, 1);
    assert p[0] == p[..5][0] && p[1] == p[..5][1] && p[2] == p[..5][2] && p[4] == p[..5][4];
    assert OpenGroups(p, 4, 1) == rest;
    assert OpenGroups(p, 2, 1) == rest;
    assert OpenGroups(p, 1, 0) == rest;
  }

  /** `\s*[A-Za-z]` opens and closes nothing. */
  lemma TailKeepsGroups(p: string, i: nat, depth: nat)
    requires i <= |p| && p[i..] == TailText
    ensures OpenGroups(p, i, depth) == Some(depth)
  {
    var t := p[i..];
    assert p[i] == t[0] && p[i + 2] == t[2] && p[i + 3] == t[3] && p[i + 10] == t[10];
    forall k | i + 4 <= k < i + 10
      ensures p[k] != ']' && p[k] != '\\'
    {
      assert p[k] == t[k - i];
    }
    assert ClassEnd(p, i + 10) == i + 11;
    assert ClassEnd(p, i + 8) == i + 11;
    assert ClassEnd(p, i + 6) == i + 11;
    assert ClassEnd(p, i + 4) == i + 11;
    assert OpenGroups(p, i + 3, depth) == Some(depth);
    assert OpenGroups(p, i + 2, depth) == Some(depth);
  }

  /** The source's pattern ends with its first group still open. */
  lemma SourcePatternLeavesGroupOpen()
    ensures OpenGroups(SourcePattern, 0, 0) == Some(1)
  {
    PrefixLeavesOneGroup(TailText);
    TailKeepsGroups(SourcePattern, 31, 1);
  }

  /** With the `)` inserted before `\s*`, every group is closed. */
  lemma IntendedPatternBalanced()
    ensures GroupsBalanced(IntendedPattern)
  {
    var p := Prefix() + (")" + TailText);
    assert IntendedPattern == p;
    PrefixLeavesOneGroup(")" + TailText);
    assert p[31..] == ")" + TailText;
    assert p[31] == ')' && p[32..] == TailText;
    TailKeepsGroups(p, 32, 0);
  }

  /** The source's pattern does not compile; the one-character correction does. */
  lemma SourcePatternUnterminated()
    ensures !GroupsBalanced(SourcePattern)
    ensures GroupsBalanced(IntendedPattern)
    ensures IntendedPattern == SourcePattern[..31] + ")" + SourcePattern[31..]
  {
    SourcePatternLeavesGroupOpen();
    IntendedPatternBalanced();
    assert SourcePattern[..31] == Prefix() && SourcePattern[31..] == TailText;
  }

  /** A call that either raises or returns a value. */
  datatype Raises<T> = Raised | Returned(value: T)

  /**
   * `classify_heading_level` as written: the length filters return `None` first; any span that
   * passes them reaches `re.match`, which compiles the pattern, and raises when it does not compile.
   */
  function ClassifyAsWritten(b: Block, averageSize: real, maxSize: real): Raises<Option<Level>> {
    var text := Strip(b.text);
    if !Admissible(text, IsBold(b)) then Returned(None)
    else if !GroupsBalanced(SourcePattern) then Raised
    else Returned(Classify(b, averageSize, maxSize))
  }

  /** The heading loop as written: it raises at the first span whose classification raises. */
  function OutlineAsWritten(blocks: seq<Block>, averageSize: real, maxSize: real): Raises<seq<Entry>> {
    if exists i :: 0 <= i < |blocks| && ClassifyAsWritten(blocks[i], averageSize, maxSize).Raised? then Raised
    else Returned(OutlineOf(blocks, averageSize, maxSize))
  }

  /** `extract_outline` as written, with the handler's `{"title": "", "outline": []}` on an exception. */
  function ExtractAsWritten(metadataTitle: Option<string>, pages: seq<seq<Block>>, firstPageHeight: real): Outcome {
    var blocks := ReadBlocks(pages);
    if blocks == [] then Outcome(TitleFromMetadata(metadataTitle).GetOr(""), [])
    else
      var stats := FontStatistics(SizesOf(blocks));
      match OutlineAsWritten(blocks, stats.average, stats.maximum)
      case Raised => Outcome("", [])
      case Returned(outline) => Outcome(DocumentTitle(metadataTitle, blocks, firstPageHeight), outline)
  }

  /** As written, the classifier raises for exactly the spans that pass the length filters. */
  lemma ClassifyAsWrittenRaises(b: Block, averageSize: real, maxSize: real)
    ensures ClassifyAsWritten(b, averageSize, maxSize).Raised? <==> Admissible(Strip(b.text), IsBold(b))
    ensures ClassifyAsWritten(b, averageSize, maxSize).Returned? ==> ClassifyAsWritten(b, averageSize, maxSize).value.None?
  {
    SourcePatternUnterminated();
  }

  lemma {:induction false} DedupOfNothing(items: seq<Option<Entry>>)
    requires forall i :: 0 <= i < |items| ==> items[i].None?
    ensures Dedup(items).entries == []
  {
    if items != [] {
      DedupOfNothing(items[..|items| - 1]);
    }
  }

  /**
   * As written, the heading loop raises exactly when some span passes the length filters, and when
   * it does not raise it has found no heading.
   */
  lemma OutlineAsWrittenEmpty(blocks: seq<Block>, averageSize: real, maxSize: real)
    ensures OutlineAsWritten(blocks, averageSize, maxSize).Raised? <==>
      exists i :: 0 <= i < |blocks| && Admissible(Strip(blocks[i].text), IsBold(blocks[i]))
    ensures OutlineAsWritten(blocks, averageSize, maxSize).Returned? ==> OutlineAsWritten(blocks, averageSize, maxSize).value == []
  {
    forall i | 0 <= i < |blocks|
      ensures ClassifyAsWritten(blocks[i], averageSize, maxSize).Raised? <==> Admissible(Strip(blocks[i].text), IsBold(blocks[i]))
    {
      ClassifyAsWrittenRaises(blocks[i], averageSize, maxSize);
    }
    if OutlineAsWritten(blocks, averageSize, maxSize).Returned? {
      var items := LabelAll(blocks, averageSize, maxSize);
      forall i | 0 <= i < |items|
        ensures items[i].None?
      {
        assert !Admissible(Strip(blocks[i].text), IsBold(blocks[i]));
        RejectedByLength(blocks[i], averageSize, maxSize);
      }
      DedupOfNothing(items);
    }
  }

  /** As written, the extractor's outline is always empty. */
  lemma AsWrittenOutlineEmpty(metadataTitle: Option<string>, pages: seq<seq<Block>>, firstPageHeight: real)
    ensures ExtractAsWritten(metadataTitle, pages, firstPageHeight).outline == []
  {
    var blocks := ReadBlocks(pages);
    if blocks != [] {
      var stats := FontStatistics(SizesOf(blocks));
      OutlineAsWrittenEmpty(blocks, stats.average, stats.maximum);
    }
  }

  /**
   * As written, one span that passes the length filters empties the title too, whatever the
   * metadata says: the handler's result replaces everything.
   */
  lemma AsWrittenTitleLost(metadataTitle: Option<string>, pages: seq<seq<Block>>, firstPageHeight: real, b: Block)
    requires b in ReadBlocks(pages) && Admissible(Strip(b.text), IsBold(b))
    ensures ExtractAsWritten(metadataTitle, pages, firstPageHeight) == Outcome("", [])
  {
    var blocks := ReadBlocks(pages);
    var stats := FontStatistics(SizesOf(blocks));
    OutlineAsWrittenEmpty(blocks, stats.average, stats.maximum);
    var i :| 0 <= i < |blocks| && blocks[i] == b;
  }

  /** A one-page document with a single bold span "Scope" near the top-left corner of the page. */
  const ScopeBlock: Block := Block("Scope", "Helvetica", 12.0, 16, 50.0, 100.0, 1)

  const ScopeDocument: seq<seq<Block>> := [[ScopeBlock]]

  /** A document of one page with one span: its statistics are that span's size. */
  lemma OneSpanDocument(b: Block, firstPageHeight: real)
    ensures ReadBlocks([[b]]) == [b]
    ensures Extract(None, [[b]], firstPageHeight) == Outcome(DetectTitle([b], firstPageHeight).GetOr(""), OutlineOf([b], b.size, b.size))
  {
    var doc := [[b]];
    assert PagesRead(doc) == 1;
    assert doc[..1] == doc;
    assert doc[..1][..0] == [];
    assert Flatten(doc[..1]) == Flatten([]) + [b];
    var sizes := SizesOf([b]);
    assert sizes == [b.size];
    assert sizes[..0] == [];
    assert Sum(sizes) == b.size;
    assert FontStatistics(sizes) == FontProfile(b.size, b.size);
  }

  /** A capitalised word: an upper-case letter followed by lower-case letters only. */
  predicate IsCapitalisedWord(s: string) {
    s != [] && IsUpperChar(s[0]) && forall i :: 0 < i < |s| ==> IsLowerChar(s[i])
  }

  lemma {:induction false} LowerRunIsTitle(s: string)
    requires forall i :: 0 <= i < |s| ==> IsLowerChar(s[i])
    ensures IsTitleFrom(s, true, true)
  {
    if s != [] {
      assert forall i :: 0 <= i < |s[1..]| ==> s[1..][i] == s[i + 1];
      LowerRunIsTitle(s[1..]);
    }
  }

  lemma {:induction false} NoSpacesAreSingle(s: string)
    requires forall i :: 0 <= i < |s| ==> !IsSpace(s[i])
    ensures SpacesAreSingle(s)
  {
    if s != [] {
      assert forall i :: 0 <= i < |s[1..]| ==> s[1..][i] == s[i + 1];
      NoSpacesAreSingle(s[1..]);
    }
  }

  /** A capitalised word is its own stripped and cleaned text, is in title case, and carries no numbering. */
  lemma CapitalisedWordFacts(s: string)
    requires IsCapitalisedWord(s)
    ensures Strip(s) == s && CleanHeadingText(s) == s
    ensures IsTitle(s) && !IsNumberedHeading(s)
  {
    CapitalisedWordStripped(s);
    CapitalisedWordClean(s);
    CapitalisedWordTitle(s);
    CapitalisedWordUnnumbered(s);
  }

  lemma CapitalisedWordStripped(s: string)
    requires IsCapitalisedWord(s)
    ensures Strip(s) == s
  {
    assert IsLetter(s[|s| - 1]);
  }

  lemma CapitalisedWordUnnumbered(s: string)
    requires IsCapitalisedWord(s)
    ensures !IsNumberedHeading(s)
  {
    assert RunLength(s, IsDigit) == 0;
  }

  lemma CapitalisedWordClean(s: string)
    requires IsCapitalisedWord(s)
    ensures CleanHeadingText(s) == s
  {
    assert forall i :: 0 <= i < |s| ==> IsLetter(s[i]);
    NoSpacesAreSingle(s);
    CleanTextIsFixed(s);
  }

  lemma CapitalisedWordTitle(s: string)
    requires IsCapitalisedWord(s)
    ensures IsTitle(s)
  {
    LowerRunIsTitle(s[1..]);
    assert forall i :: 0 <= i < |s[1..]| ==> s[1..][i] == s[i + 1];
  }

  /**
   * A bold capitalised word of 3 to 49 characters in the left margin, in a document whose spans all
   * have its size, scores 60 (bold 25, margin 10, brevity 15, title case 10) and is an H1 heading.
   */
  lemma BoldWordIsTopHeading(b: Block, size: real)
    requires IsCapitalisedWord(b.text) && 3 <= |b.text| < 50
    requires b.size == size && size > 0.0 && IsBold(b) && b.x0 < 100.0
    ensures Admissible(Strip(b.text), IsBold(b))
    ensures Classify(b, size, size) == Some(H1)
  {
    CapitalisedWordFacts(b.text);
    BoldWordScore(b, size);
    assert LevelForScore(60, false, Count(b.text, '.'), size, size) == Some(H1);
  }

  lemma BoldWordScore(b: Block, size: real)
    requires IsCapitalisedWord(b.text) && 3 <= |b.text| < 50
    requires b.size == size && size > 0.0 && IsBold(b) && b.x0 < 100.0
    ensures HeadingScore(b, b.text, size) == 60
  {
    CapitalisedWordFacts(b.text);
    assert SizeRatio(b.size, size) == 1.0;
  }

  /** A span alone on page 1 that passes the title filters is the detected title. */
  lemma OneSpanTitle(b: Block, pageHeight: real)
    requires b.page == 1 && IsCandidate(b, TopThird(pageHeight))
    ensures DetectTitle([b], pageHeight) == Some(CleanHeadingText(b.text))
  {
    OneSpanWindow(b);
    OneSpanCandidates(b, TopThird(pageHeight));
    OneCandidateBest(Candidate(CleanHeadingText(b.text), TitleScore(b)));
  }

  lemma OneSpanWindow(b: Block)
    requires b.page == 1
    ensures TitleWindow([b]) == [b]
  {
    assert FirstPageBlocks([b]) == [b] by {
      assert [b][..0] == [];
    }
    assert Sort([b], PositionLe) == [b] by {
      assert [b][1..] == [];
    }
  }

  lemma OneSpanCandidates(b: Block, topThird: real)
    requires IsCandidate(b, topThird)
    ensures TitleCandidates([b], topThird) == [Candidate(CleanHeadingText(b.text), TitleScore(b))]
  {
    assert [b][..0] == [];
  }

  lemma OneCandidateBest(c: Candidate)
    ensures BestOf([c]) == Some(c.text)
  {
    assert Sort([c], ScoreGe) == [c] by {
      assert [c][1..] == [];
    }
  }

  lemma ScopeIsCapitalised()
    ensures IsCapitalisedWord(ScopeBlock.text) && |ScopeBlock.text| == 5
  {
    var s := ScopeBlock.text;
    assert s == "Scope";
    assert forall i :: 0 < i < 5 ==> s[i] in "cope";
  }

  lemma ScopeClassified()
    ensures Classify(ScopeBlock, 12.0, 12.0) == Some(H1)
    ensures Admissible(Strip(ScopeBlock.text), IsBold(ScopeBlock))
  {
    ScopeIsCapitalised();
    assert HasBoldFlag(ScopeBlock.flags);
    BoldWordIsTopHeading(ScopeBlock, 12.0);
  }

  lemma ScopeCleaned()
    ensures CleanHeadingText(ScopeBlock.text) == ScopeBlock.text
  {
    ScopeIsCapitalised();
    CapitalisedWordFacts(ScopeBlock.text);
  }

  lemma ScopeOutline()
    ensures OutlineOf([ScopeBlock], 12.0, 12.0) == [Entry(H1, "Scope", 1)]
  {
    ScopeClassified();
    ScopeCleaned();
    SingleHeadingOutline(ScopeBlock, 12.0, 12.0, Entry(H1, "Scope", 1));
  }

  /** A document of one span that the classifier accepts, with some text left after cleaning, has that one heading. */
  lemma SingleHeadingOutline(b: Block, averageSize: real, maxSize: real, e: Entry)
    requires Labelled(b, averageSize, maxSize) == Some(e) && e.text != []
    ensures OutlineOf([b], averageSize, maxSize) == [e]
  {
    LabelOne(b, averageSize, maxSize);
    ArrangeOne(e);
  }

  lemma LabelOne(b: Block, averageSize: real, maxSize: real)
    ensures LabelAll([b], averageSize, maxSize) == [Labelled(b, averageSize, maxSize)]
  {
    var items := LabelAll([b], averageSize, maxSize);
    assert |items| == 1 && items[0] == Labelled(b, averageSize, maxSize);
  }

  lemma ArrangeOne(e: Entry)
    requires e.text != []
    ensures Sort(Dedup([Some(e)]).entries, EntryLe) == [e]
  {
    assert [Some(e)][..0] == [];
    assert [e][1..] == [];
  }

  lemma ScopeTitle()
    ensures DetectTitle([ScopeBlock], 792.0) == Some("Scope")
  {
    ScopeCleaned();
    ScopeIsCapitalised();
    assert IsCandidate(ScopeBlock, TopThird(792.0));
    OneSpanTitle(ScopeBlock, 792.0);
  }

  /**
   * On that document the code as written yields an empty title and outline, where the corrected
   * model finds "Scope" as both the title and an H1 heading of page 1.
   */
  lemma ScopeDocumentDiffers()
    ensures ExtractAsWritten(None, ScopeDocument, 792.0) == Outcome("", [])
    ensures Extract(None, ScopeDocument, 792.0) == Outcome("Scope", [Entry(H1, "Scope", 1)])
  {
    OneSpanDocument(ScopeBlock, 792.0);
    ScopeClassified();
    AsWrittenTitleLost(None, ScopeDocument, 792.0, ScopeBlock);
    ScopeOutline();
    ScopeTitle();
  }
}
