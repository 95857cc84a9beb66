/**
 * `extract_outline` (pdf_extractor.py:233-302): gathers the spans of the first fifty pages, computes
 * the font statistics, takes the metadata title or detects one on the first page, and assembles the
 * outline. The reader is outside the model: a document is given by its metadata title, the spans
 * that `analyze_page_text_blocks` yields for each page, and the height of its first page.
 */
module Extraction {
  import opened Options
  import opened Strings
  import opened Sorting
  import opened Blocks
  import opened Cleaning
  import opened Classifier
  import opened FontStats
  import opened Title
  import opened Outline

  /** The `{"title": ..., "outline": [...]}` result. */
  datatype Outcome = Outcome(title: string, outline: seq<Entry>)

  /** Only the first fifty pages are read. */
  const PageLimit: nat := 50

  /** The spans of all pages, page after page. */
  function Flatten(pages: seq<seq<Block>>): seq<Block> {
    if pages == [] then [] else Flatten(pages[..|pages| - 1]) + pages[|pages| - 1]
  }

  /** The font size of every span, in order. */
  function SizesOf(blocks: seq<Block>): (sizes: seq<real>)
    ensures |sizes| == |blocks|
    ensures forall i :: 0 <= i < |blocks| ==> sizes[i] == blocks[i].size
  {
    seq(|blocks|, i requires 0 <= i < |blocks| => blocks[i].size)
  }

  /** The number of pages read. */
  function PagesRead(pages: seq<seq<Block>>): (n: nat)
    ensures n <= PageLimit && n <= |pages|
    ensures n == PageLimit || n == |pages|
  {
    if |pages| < PageLimit then |pages| else PageLimit
  }

  /** The spans the extractor works on. */
  function ReadBlocks(pages: seq<seq<Block>>): seq<Block> {
    Flatten(pages[..PagesRead(pages)])
  }

  /** What the extractor returns for a document. */
  function Extract(metadataTitle: Option<string>, pages: seq<seq<Block>>, firstPageHeight: real): Outcome {
    var blocks := ReadBlocks(pages);
    if blocks == [] then Outcome(TitleFromMetadata(metadataTitle).GetOr(""), [])
    else
      var stats := FontStatistics(SizesOf(blocks));
      Outcome(DocumentTitle(metadataTitle, blocks, firstPageHeight), OutlineOf(blocks, stats.average, stats.maximum))
  }

  /** The extractor in the order of the source: metadata, the page loop, statistics, title, outline. */
  method ExtractOutline(metadataTitle: Option<string>, pages: seq<seq<Block>>, firstPageHeight: real) returns (result: Outcome)
    ensures result == Extract(metadataTitle, pages, firstPageHeight)
  {
    var title := TitleFromMetadata(metadataTitle);
    var allBlocks, fontSizes := GatherBlocks(pages);
    if allBlocks == [] {
      return Outcome(title.GetOr(""), []);
    }
    var averageSize := if fontSizes != [] then Sum(fontSizes) / |fontSizes| as real else DefaultSize;
    var maxSize := if fontSizes != [] then MaxOf(fontSizes) else DefaultSize;
    assert FontStatistics(SizesOf(allBlocks)) == FontProfile(averageSize, maxSize);
    var titleText: string;
    if title.None? {
      var detected := DetectTitleFromFirstPage(allBlocks, firstPageHeight);
      titleText := detected.GetOr("");
    } else {
      titleText := title.value;
    }
    var outline := AssembleOutline(allBlocks, averageSize, maxSize);
    return Outcome(titleText, outline);
  }

  /** The page loop: the spans of each page read and their font sizes are appended. */
  method GatherBlocks(pages: seq<seq<Block>>) returns (allBlocks: seq<Block>, fontSizes: seq<real>)
    ensures allBlocks == ReadBlocks(pages)
    ensures fontSizes == SizesOf(allBlocks)
  {
    allBlocks, fontSizes := [], [];
    var pageCount := if |pages| < PageLimit then |pages| else PageLimit;
    for pageNum := 0 to pageCount
      invariant allBlocks == Flatten(pages[..pageNum])
      invariant fontSizes == SizesOf(allBlocks)
    {
      var blocks := pages[pageNum];
      assert pages[..pageNum + 1][..pageNum] == pages[..pageNum];
      allBlocks := allBlocks + blocks;
      fontSizes := fontSizes + SizesOf(blocks);
    }
  }

  /** A span is read exactly when it is on one of the first fifty pages. */
  lemma {:induction false} FlattenMembers(pages: seq<seq<Block>>)
    ensures forall b :: b in Flatten(pages) <==> exists p :: 0 <= p < |pages| && b in pages[p]
  {
    if pages != [] {
      var init := pages[..|pages| - 1];
      FlattenMembers(init);
      forall b | b in Flatten(pages)
        ensures exists p :: 0 <= p < |pages| && b in pages[p]
      {
        if b in Flatten(init) {
          var p :| 0 <= p < |init| && b in init[p];
          assert pages[p] == init[p];
        } else {
          assert b in pages[|pages| - 1];
        }
      }
      forall b | (exists p :: 0 <= p < |pages| && b in pages[p])
        ensures b in Flatten(pages)
      {
        var p :| 0 <= p < |pages| && b in pages[p];
        if p < |init| {
          assert init[p] == pages[p];
        }
      }
    }
  }

  lemma {:induction false} FlattenEmpty(pages: seq<seq<Block>>)
    requires forall p :: 0 <= p < |pages| ==> pages[p] == []
    ensures Flatten(pages) == []
  {
    if pages != [] {
      FlattenEmpty(pages[..|pages| - 1]);
    }
  }

  /** The spans the extractor works on come from the pages below the cap, and all of theirs are there. */
  lemma ReadBlocksMembers(pages: seq<seq<Block>>)
    ensures forall b :: b in ReadBlocks(pages) <==> exists p :: 0 <= p < |pages| && p < PageLimit && b in pages[p]
  {
    var read := pages[..PagesRead(pages)];
    FlattenMembers(read);
    assert forall p :: 0 <= p < |read| ==> read[p] == pages[p];
  }

  /**
   * A document without spans on its first fifty pages yields the metadata title, or the empty string,
   * and an empty outline.
   */
  lemma NoBlocksOutcome(metadataTitle: Option<string>, pages: seq<seq<Block>>, firstPageHeight: real)
    requires forall p :: 0 <= p < |pages| && p < PageLimit ==> pages[p] == []
    ensures Extract(metadataTitle, pages, firstPageHeight) == Outcome(TitleFromMetadata(metadataTitle).GetOr(""), [])
  {
    assert ReadBlocks(pages) == [] by {
      FlattenEmpty(pages[..PagesRead(pages)]);
    }
  }

  /**
   * The title is the stripped metadata title when the document has one. Otherwise the detector looks
   * at the window of the first 20 page-1 spans in reading order: the title is empty exactly when no
   * span of the window qualifies, and else it is the cleaned text of the best qualifying span (the
   * highest score, the earliest on a tie).
   */
  lemma ExtractedTitle(metadataTitle: Option<string>, pages: seq<seq<Block>>, firstPageHeight: real)
    ensures var t := Extract(metadataTitle, pages, firstPageHeight).title;
      TitleFromMetadata(metadataTitle).Some? ==> t == Strip(metadataTitle.value)
    ensures TitleFromMetadata(metadataTitle).None? ==>
      (Extract(metadataTitle, pages, firstPageHeight).title == [] <==>
         forall i :: 0 <= i < |TitleWindow(ReadBlocks(pages))| ==>
           !IsCandidate(TitleWindow(ReadBlocks(pages))[i], TopThird(firstPageHeight)))
    ensures TitleFromMetadata(metadataTitle).None? && Extract(metadataTitle, pages, firstPageHeight).title != [] ==>
      exists i :: && IsBestCandidateAt(TitleWindow(ReadBlocks(pages)), i, TopThird(firstPageHeight))
                  && Extract(metadataTitle, pages, firstPageHeight).title
                     == CleanHeadingText(TitleWindow(ReadBlocks(pages))[i].text)
  {
    var blocks := ReadBlocks(pages);
    var t := Extract(metadataTitle, pages, firstPageHeight).title;
    if blocks == [] {
      NoBlocksNoDetectedTitle(metadataTitle, firstPageHeight);
    }
    assert t == DocumentTitle(metadataTitle, blocks, firstPageHeight);
    if TitleFromMetadata(metadataTitle).None? {
      DetectedTitleSource(blocks, firstPageHeight);
      var window, topThird := TitleWindow(blocks), TopThird(firstPageHeight);
      if DetectTitle(blocks, firstPageHeight).Some? {
        var i :| && IsBestCandidateAt(window, i, topThird)
                 && DetectTitle(blocks, firstPageHeight).value == CleanHeadingText(window[i].text);
        assert IsCandidate(window[i], topThird);
        assert t != [];
      }
    }
  }

  /** Every heading of an outline comes from a span the classifier accepts, with that span's cleaned text and page. */
  lemma OutlineEntriesFromBlocks(blocks: seq<Block>, averageSize: real, maxSize: real)
    ensures forall e :: e in OutlineOf(blocks, averageSize, maxSize) ==>
      && e.text != [] && IsCleanText(e.text)
      && exists b :: && b in blocks && Classify(b, averageSize, maxSize) == Some(e.level)
                     && e.text == CleanHeadingText(b.text) && e.page == b.page
  {
    var items := LabelAll(blocks, averageSize, maxSize);
    var entries := Dedup(items).entries;
    DedupEntriesSound(items);
    forall e | e in OutlineOf(blocks, averageSize, maxSize)
      ensures && e.text != [] && IsCleanText(e.text)
              && exists b :: && b in blocks && Classify(b, averageSize, maxSize) == Some(e.level)
                             && e.text == CleanHeadingText(b.text) && e.page == b.page
    {
      assert e in multiset(Sort(entries, EntryLe));
      assert e in entries;
      var i :| FirstOfKey(items, i) && items[i].value.text != [] && items[i].value == e;
      assert items[i] == Labelled(blocks[i], averageSize, maxSize);
      assert blocks[i] in blocks;
      CleanHeadingTextIsClean(blocks[i].text);
    }
  }

  /**
   * The outline is sorted by `(page, text)`, holds exactly the headings the loop kept, each as often
   * as it was kept, and no two of its headings share a key `(lower-cased text, page)`.
   */
  lemma OutlineOrderAndContents(blocks: seq<Block>, averageSize: real, maxSize: real)
    ensures SortedBy(OutlineOf(blocks, averageSize, maxSize), EntryLe)
    ensures multiset(OutlineOf(blocks, averageSize, maxSize)) == multiset(Dedup(LabelAll(blocks, averageSize, maxSize)).entries)
    ensures forall e1, e2 ::
      (e1 in OutlineOf(blocks, averageSize, maxSize) && e2 in OutlineOf(blocks, averageSize, maxSize) && KeyOf(e1) == KeyOf(e2))
        ==> e1 == e2
  {
    var items := LabelAll(blocks, averageSize, maxSize);
    assert OutlineOf(blocks, averageSize, maxSize) == Sort(Dedup(items).entries, EntryLe);
    DedupKeysDistinct(items);
    SortedDistinctEntries(Dedup(items).entries);
  }

  /** Sorting headings whose keys are distinct keeps them distinct and yields them in `EntryLe` order. */
  lemma SortedDistinctEntries(entries: seq<Entry>)
    requires forall p, q :: 0 <= p < q < |entries| ==> KeyOf(entries[p]) != KeyOf(entries[q])
    ensures SortedBy(Sort(entries, EntryLe), EntryLe)
    ensures multiset(Sort(entries, EntryLe)) == multiset(entries)
    ensures forall e1, e2 ::
              (e1 in Sort(entries, EntryLe) && e2 in Sort(entries, EntryLe) && KeyOf(e1) == KeyOf(e2)) ==> e1 == e2
  {
    EntryLeIsTotalPreorder();
    SortSorted(entries, EntryLe);
    forall e1, e2 | e1 in Sort(entries, EntryLe) && e2 in Sort(entries, EntryLe) && KeyOf(e1) == KeyOf(e2)
      ensures e1 == e2
    {
      assert e1 in multiset(Sort(entries, EntryLe)) && e2 in multiset(Sort(entries, EntryLe));
      var p :| 0 <= p < |entries| && entries[p] == e1;
      var q :| 0 <= q < |entries| && entries[q] == e2;
    }
  }

  /**
   * When the reader numbers the spans of the `p`-th page `p + 1`, every heading of the outline lies
   * on one of the pages read: from 1 up to the page count, and never past page 50.
   */
  lemma OutlinePagesWithinCap(metadataTitle: Option<string>, pages: seq<seq<Block>>, firstPageHeight: real)
    requires forall p, b :: 0 <= p < |pages| && b in pages[p] ==> b.page == p + 1
    ensures forall e :: e in Extract(metadataTitle, pages, firstPageHeight).outline ==>
      1 <= e.page <= PagesRead(pages) <= PageLimit
  {
    var blocks := ReadBlocks(pages);
    if blocks != [] {
      var stats := FontStatistics(SizesOf(blocks));
      OutlineEntriesFromBlocks(blocks, stats.average, stats.maximum);
      ReadBlocksMembers(pages);
      forall e | e in OutlineOf(blocks, stats.average, stats.maximum)
        ensures 1 <= e.page <= PagesRead(pages)
      {
        var b :| b in blocks && e.page == b.page;
        var p :| 0 <= p < |pages| && p < PageLimit && b in pages[p];
      }
    }
  }
}
