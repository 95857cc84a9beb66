/**
 * The document title: the metadata title when there is one (`extract_title_from_metadata`,
 * pdf_extractor.py:39-50), else the best-scoring text near the top of the first page
 * (`detect_title_from_first_page`, pdf_extractor.py:114-154).
 */
module Title {
  import opened Options
  import opened Strings
  import opened Blocks
  import opened Cleaning
  import opened Sorting
  import opened Seqs

  /**
   * The metadata title, stripped, when the document has a non-empty one; `metadataTitle` is the
   * `title` entry of the reader's metadata, `None` when absent.
   */
  function TitleFromMetadata(metadataTitle: Option<string>): (r: Option<string>)
    ensures r.None? <==> metadataTitle.None? || Strip(metadataTitle.value) == []
    ensures r.Some? ==> r.value == Strip(metadataTitle.value) && !IsSpace(r.value[0]) && !IsSpace(r.value[|r.value| - 1])
  {
    match metadataTitle
    case None => None
    case Some(t) =>
      if t == [] then None
      else
        var title := Strip(t);
        if |title| > 0 then Some(title) else None
  }

  /** `[b for b in blocks if b["page"] == 1]` */
  function FirstPageBlocks(blocks: seq<Block>): (r: seq<Block>)
    ensures forall b :: b in r <==> b in blocks && b.page == 1
  {
    if blocks == [] then []
    else
      var init := blocks[..|blocks| - 1];
      var last := blocks[|blocks| - 1];
      assert blocks == init + [last];
      FirstPageBlocks(init) + if last.page == 1 then [last] else []
  }

  /** The sort key `(y0, x0)`: top to bottom, then left to right. */
  predicate PositionLe(a: Block, b: Block) {
    a.y0 < b.y0 || (a.y0 == b.y0 && a.x0 <= b.x0)
  }

  lemma PositionLeIsTotalPreorder()
    ensures TotalPreorder(PositionLe)
  {
  }

  /** How many blocks the detector looks at. */
  const WindowSize: nat := 20

  /** The first-page blocks in reading position, cut to the first twenty. */
  function TitleWindow(blocks: seq<Block>): (r: seq<Block>)
    ensures |r| <= WindowSize
    ensures SortedBy(r, PositionLe)
    ensures forall b :: b in r ==> b in blocks && b.page == 1
  {
    var pageBlocks := Sort(FirstPageBlocks(blocks), PositionLe);
    PositionLeIsTotalPreorder();
    SortSorted(FirstPageBlocks(blocks), PositionLe);
    assert forall b :: b in pageBlocks ==> b in multiset(pageBlocks);
    if |pageBlocks| <= WindowSize then pageBlocks else pageBlocks[..WindowSize]
  }

  /** The filter keeps each first-page block as often as it occurs and drops every other block. */
  lemma {:induction false} FirstPageBlocksCounts(blocks: seq<Block>, b: Block)
    ensures multiset(FirstPageBlocks(blocks))[b] == if b.page == 1 then multiset(blocks)[b] else 0
  {
    if blocks != [] {
      var init, last := blocks[..|blocks| - 1], blocks[|blocks| - 1];
      FirstPageBlocksCounts(init, b);
      assert blocks == init + [last];
    }
  }

  /** Filtering a concatenation concatenates the filtered parts, so the kept blocks stay in input order. */
  lemma {:induction false} FirstPageBlocksConcat(a: seq<Block>, c: seq<Block>)
    ensures FirstPageBlocks(a + c) == FirstPageBlocks(a) + FirstPageBlocks(c)
    decreases |c|
  {
    if c == [] {
      assert a + c == a;
    } else {
      var init, last := c[..|c| - 1], c[|c| - 1];
      LastOfConcat(a, c);
      FirstPageBlocksConcat(a, init);
      ConcatAssociates(FirstPageBlocks(a), FirstPageBlocks(init), if last.page == 1 then [last] else []);
    }
  }

  /**
   * The window holds the first twenty first-page blocks in reading position, or all of them when
   * there are fewer: no first-page block left out comes before a block of the window, and blocks at
   * the same position enter the window in their input order.
   */
  lemma TitleWindowContents(blocks: seq<Block>)
    ensures var pageBlocks := FirstPageBlocks(blocks);
      |TitleWindow(blocks)| == if |pageBlocks| <= WindowSize then |pageBlocks| else WindowSize
    ensures multiset(TitleWindow(blocks)) <= multiset(FirstPageBlocks(blocks))
    ensures forall x, y ::
              y in TitleWindow(blocks) && multiset(TitleWindow(blocks))[x] < multiset(FirstPageBlocks(blocks))[x] ==>
                PositionLe(y, x)
    ensures forall k :: EqualKeys(TitleWindow(blocks), k, PositionLe) <= EqualKeys(FirstPageBlocks(blocks), k, PositionLe)
  {
    var pageBlocks := FirstPageBlocks(blocks);
    var window := TitleWindow(blocks);
    var sorted := Sort(pageBlocks, PositionLe);
    assert window == sorted[..|window|];
    TitleWindowFirst(blocks, sorted, |window|);
    forall k
      ensures EqualKeys(window, k, PositionLe) <= EqualKeys(pageBlocks, k, PositionLe)
    {
      TitleWindowStable(pageBlocks, sorted, |window|, k);
    }
  }

  lemma TitleWindowFirst(blocks: seq<Block>, sorted: seq<Block>, n: nat)
    requires sorted == Sort(FirstPageBlocks(blocks), PositionLe) && n <= |sorted|
    ensures multiset(sorted[..n]) <= multiset(FirstPageBlocks(blocks))
    ensures forall x, y :: y in sorted[..n] && multiset(sorted[..n])[x] < multiset(FirstPageBlocks(blocks))[x] ==>
              PositionLe(y, x)
  {
    assert sorted == sorted[..n] + sorted[n..];
    PositionLeIsTotalPreorder();
    SortSorted(FirstPageBlocks(blocks), PositionLe);
    SortedPrefixFirst(sorted, n, PositionLe);
  }

  lemma TitleWindowStable(pageBlocks: seq<Block>, sorted: seq<Block>, n: nat, k: Block)
    requires sorted == Sort(pageBlocks, PositionLe) && n <= |sorted|
    ensures EqualKeys(sorted[..n], k, PositionLe) <= EqualKeys(pageBlocks, k, PositionLe)
  {
    assert sorted == sorted[..n] + sorted[n..];
    PositionLeIsTotalPreorder();
    SortStable(pageBlocks, k, PositionLe);
    EqualKeysConcat(sorted[..n], sorted[n..], k, PositionLe);
  }

  /** `page_height * 0.33` */
  function TopThird(pageHeight: real): real {
    pageHeight * 0.33
  }

  datatype Candidate = Candidate(text: string, score: real)

  /** `max(0, x)` */
  function NonNegative(x: real): (r: real)
    ensures r >= 0.0 && r >= x
    ensures r == x || r == 0.0
  {
    if x > 0.0 then x else 0.0
  }

  /** Twice the font size, 50 for a bold span, and up to 30 for a span near the top edge. */
  function TitleScore(b: Block): real {
    b.size * 2.0 + (if IsBold(b) then 50.0 else 0.0) + NonNegative(30.0 - b.y0)
  }

  /** A span at least as large, as bold and as high on the page as another scores at least as much. */
  lemma TitleScoreMonotone(a: Block, b: Block)
    requires a.size >= b.size && (IsBold(b) ==> IsBold(a)) && a.y0 <= b.y0
    ensures TitleScore(a) >= TitleScore(b)
  {
  }

  /** A block is a candidate when it starts in the top third and its cleaned text has 5 to 100 characters. */
  predicate IsCandidate(b: Block, topThird: real) {
    b.y0 <= topThird && 5 <= |CleanHeadingText(b.text)| <= 100
  }

  /** What one block of the window contributes: its candidate, if it is one. */
  function CandidateOf(b: Block, topThird: real): seq<Candidate> {
    if IsCandidate(b, topThird) then [Candidate(CleanHeadingText(b.text), TitleScore(b))] else []
  }

  /** The candidates found in `window`, in its order. */
  function TitleCandidates(window: seq<Block>, topThird: real): (cs: seq<Candidate>)
    ensures |cs| <= |window|
  {
    if window == [] then []
    else TitleCandidates(window[..|window| - 1], topThird) + CandidateOf(window[|window| - 1], topThird)
  }

  lemma CandidateCases(b: Block, topThird: real)
    ensures b.y0 > topThird ==> CandidateOf(b, topThird) == []
    ensures var text := CleanHeadingText(b.text);
      b.y0 <= topThird && (|text| < 5 || |text| > 100) ==> CandidateOf(b, topThird) == []
    ensures var text := CleanHeadingText(b.text);
      b.y0 <= topThird && 5 <= |text| <= 100 ==> CandidateOf(b, topThird) == [Candidate(text, TitleScore(b))]
  {
  }

  /** Scanning one more block of the window appends its candidate, if it is one. */
  lemma CandidatesStep(window: seq<Block>, i: nat, topThird: real)
    requires i < |window|
    ensures TitleCandidates(window[..i + 1], topThird) == TitleCandidates(window[..i], topThird) + CandidateOf(window[i], topThird)
  {
    assert window[..i + 1][..i] == window[..i];
  }

  /** Every candidate comes from a block of the window that passes the filters, with its cleaned text and score. */
  lemma {:induction false} CandidatesFromWindow(window: seq<Block>, topThird: real)
    ensures forall c :: c in TitleCandidates(window, topThird) ==>
      exists b :: b in window && IsCandidate(b, topThird) && c == Candidate(CleanHeadingText(b.text), TitleScore(b))
  {
    if window != [] {
      var init := window[..|window| - 1];
      CandidatesFromWindow(init, topThird);
      assert forall b :: b in init ==> b in window;
    }
  }

  /** There are no candidates exactly when no block of the window passes the filters. */
  lemma {:induction false} NoCandidates(window: seq<Block>, topThird: real)
    ensures TitleCandidates(window, topThird) == [] <==> forall b :: b in window ==> !IsCandidate(b, topThird)
  {
    if window != [] {
      var init := window[..|window| - 1];
      NoCandidates(init, topThird);
      assert window == init + [window[|window| - 1]];
    }
  }

  /** Scanning a concatenation finds the candidates of each part, in order. */
  lemma {:induction false} TitleCandidatesConcat(a: seq<Block>, c: seq<Block>, topThird: real)
    ensures TitleCandidates(a + c, topThird) == TitleCandidates(a, topThird) + TitleCandidates(c, topThird)
    decreases |c|
  {
    if c == [] {
      assert a + c == a;
    } else {
      var init, last := c[..|c| - 1], c[|c| - 1];
      LastOfConcat(a, c);
      TitleCandidatesConcat(a, init, topThird);
      ConcatAssociates(TitleCandidates(a, topThird), TitleCandidates(init, topThird), CandidateOf(last, topThird));
    }
  }

  /** What each block of the window contributes, block by block. */
  function CandidateOffers(window: seq<Block>, topThird: real): (offers: seq<seq<Candidate>>)
    ensures |offers| == |window|
  {
    seq(|window|, i requires 0 <= i < |window| => CandidateOf(window[i], topThird))
  }

  /** The scan is the concatenation of what each block contributes. */
  lemma {:induction false} CandidatesAreOffers(window: seq<Block>, topThird: real)
    ensures TitleCandidates(window, topThird) == Flat(CandidateOffers(window, topThird))
  {
    if window != [] {
      var last := |window| - 1;
      CandidatesAreOffers(window[..last], topThird);
      assert CandidateOffers(window, topThird)[..last] == CandidateOffers(window[..last], topThird);
    }
  }

  /** The positions in `window` of the blocks that pass the filters, in increasing order. */
  function CandidateIndices(window: seq<Block>, topThird: real): seq<int> {
    NonEmptyAt(CandidateOffers(window, topThird))
  }

  /** The `k`-th candidate is made from the block at the `k`-th index, which passes the filters. */
  lemma CandidateIndicesSound(window: seq<Block>, topThird: real, k: int)
    requires 0 <= k < |TitleCandidates(window, topThird)|
    ensures |CandidateIndices(window, topThird)| == |TitleCandidates(window, topThird)|
    ensures var i := CandidateIndices(window, topThird)[k];
      && 0 <= i < |window| && IsCandidate(window[i], topThird)
      && TitleCandidates(window, topThird)[k] == Candidate(CleanHeadingText(window[i].text), TitleScore(window[i]))
  {
    var offers := CandidateOffers(window, topThird);
    CandidatesAreOffers(window, topThird);
    FlatOfSingles(offers);
    var i := CandidateIndices(window, topThird)[k];
    assert offers[i] == CandidateOf(window[i], topThird);
  }

  /** The indices increase, so candidates come in window order. */
  lemma CandidateIndicesIncrease(window: seq<Block>, topThird: real)
    ensures forall k, l :: 0 <= k < l < |CandidateIndices(window, topThird)| ==>
              CandidateIndices(window, topThird)[k] < CandidateIndices(window, topThird)[l]
  {
    NonEmptyAtIncreases(CandidateOffers(window, topThird));
  }

  /** Every block of the window that passes the filters yields a candidate. */
  lemma CandidatesComplete(window: seq<Block>, topThird: real, i: int)
    requires 0 <= i < |window| && IsCandidate(window[i], topThird)
    ensures i in CandidateIndices(window, topThird)
  {
    var offers := CandidateOffers(window, topThird);
    assert offers[i] == CandidateOf(window[i], topThird);
    NonEmptyAtComplete(offers);
  }

  /**
   * Block `i` of the window passes the filters, no block that passes them scores higher, and every
   * earlier one that passes them scores lower.
   */
  predicate IsBestCandidateAt(window: seq<Block>, i: int, topThird: real) {
    && 0 <= i < |window| && IsCandidate(window[i], topThird)
    && (forall j :: 0 <= j < |window| && IsCandidate(window[j], topThird) ==> TitleScore(window[j]) <= TitleScore(window[i]))
    && (forall j :: 0 <= j < i && IsCandidate(window[j], topThird) ==> TitleScore(window[j]) < TitleScore(window[i]))
  }

  /** The sort key of `sort(key=score, reverse=True)`: a higher score first. */
  predicate ScoreGe(a: Candidate, b: Candidate) {
    a.score >= b.score
  }

  /** The text of the first candidate after the stable descending sort by score. */
  function BestTitle(cs: seq<Candidate>): string
    requires cs != []
  {
    Sort(cs, ScoreGe)[0].text
  }

  /** The best title is the text of the earliest candidate with the highest score. */
  lemma BestTitleIsFirstMaximum(cs: seq<Candidate>)
    requires cs != []
    ensures exists i :: && 0 <= i < |cs| && BestTitle(cs) == cs[i].text
                        && (forall j :: 0 <= j < |cs| ==> cs[j].score <= cs[i].score)
                        && (forall j :: 0 <= j < i ==> cs[j].score < cs[i].score)
  {
    assert TotalPreorder(ScoreGe);
    SortHead(cs, ScoreGe);
    var i :| IsFirstLeastAt(cs, i, ScoreGe) && Sort(cs, ScoreGe)[0] == cs[i];
    forall j | 0 <= j < i
      ensures cs[j].score < cs[i].score
    {
      assert !IsLeastAt(cs, j, ScoreGe);
    }
  }

  /** The best candidate's text, or nothing without candidates. */
  function BestOf(cs: seq<Candidate>): Option<string> {
    if cs == [] then None else Some(BestTitle(cs))
  }

  /** The title the first page yields, if any. */
  function DetectTitle(blocks: seq<Block>, pageHeight: real): Option<string> {
    BestOf(TitleCandidates(TitleWindow(blocks), TopThird(pageHeight)))
  }

  /** The detector as the source runs it: a scan of the window that collects candidates, then a sort. */
  method DetectTitleFromFirstPage(blocks: seq<Block>, pageHeight: real) returns (title: Option<string>)
    ensures title == DetectTitle(blocks, pageHeight)
  {
    var window := TitleWindow(blocks);
    var topThird := pageHeight * 0.33;
    var candidates := CollectCandidates(window, topThird);
    assert candidates == TitleCandidates(TitleWindow(blocks), TopThird(pageHeight));
    if candidates != [] {
      var ranked := Sort(candidates, ScoreGe);
      title := Some(ranked[0].text);
    } else {
      title := None;
    }
  }

  /** The scan of the window: blocks below the top third or with a cleaned text of the wrong length are skipped. */
  method CollectCandidates(window: seq<Block>, topThird: real) returns (candidates: seq<Candidate>)
    ensures candidates == TitleCandidates(window, topThird)
  {
    candidates := [];
    for i := 0 to |window|
      invariant candidates == TitleCandidates(window[..i], topThird)
    {
      CandidatesStep(window, i, topThird);
      var block := window[i];
      CandidateCases(block, topThird);
      if block.y0 > topThird {
        continue;
      }
      var text := CleanHeadingText(block.text);
      if |text| < 5 || |text| > 100 {
        continue;
      }
      var score := ScoreTitleCandidate(block);
      candidates := candidates + [Candidate(text, score)];
    }
    assert window[..|window|] == window;
  }

  /** The score as the source accumulates it: size, then weight, then closeness to the top edge. */
  method ScoreTitleCandidate(block: Block) returns (score: real)
    ensures score == TitleScore(block)
  {
    score := 0.0;
    score := score + block.size * 2.0;
    score := score + if IsBold(block) then 50.0 else 0.0;
    score := score + NonNegative(30.0 - block.y0);
  }

  /**
   * A title is detected exactly when some block of the window passes the filters, and then it is the
   * cleaned text of the best such block: the highest-scoring one, the earliest on a tie.
   */
  lemma DetectedTitleSource(blocks: seq<Block>, pageHeight: real)
    ensures DetectTitle(blocks, pageHeight).None? <==>
              forall i :: 0 <= i < |TitleWindow(blocks)| ==> !IsCandidate(TitleWindow(blocks)[i], TopThird(pageHeight))
    ensures DetectTitle(blocks, pageHeight).Some? ==>
              exists i :: && IsBestCandidateAt(TitleWindow(blocks), i, TopThird(pageHeight))
                          && DetectTitle(blocks, pageHeight).value == CleanHeadingText(TitleWindow(blocks)[i].text)
  {
    BestOfWindow(TitleWindow(blocks), TopThird(pageHeight));
  }

  /** `DetectedTitleSource` for any window. */
  lemma BestOfWindow(window: seq<Block>, topThird: real)
    ensures BestOf(TitleCandidates(window, topThird)).None? <==>
              forall i :: 0 <= i < |window| ==> !IsCandidate(window[i], topThird)
    ensures BestOf(TitleCandidates(window, topThird)).Some? ==>
              exists i :: && IsBestCandidateAt(window, i, topThird)
                          && BestOf(TitleCandidates(window, topThird)).value == CleanHeadingText(window[i].text)
  {
    NoCandidateAt(window, topThird);
    if TitleCandidates(window, topThird) != [] {
      BestFoundInWindow(window, topThird);
    }
  }

  /** Some candidate in the window is the best one, and the best title is its cleaned text. */
  lemma BestFoundInWindow(window: seq<Block>, topThird: real)
    requires TitleCandidates(window, topThird) != []
    ensures exists i :: && IsBestCandidateAt(window, i, topThird)
                        && BestTitle(TitleCandidates(window, topThird)) == CleanHeadingText(window[i].text)
  {
    var cs := TitleCandidates(window, topThird);
    BestTitleIsFirstMaximum(cs);
    var k :| && 0 <= k < |cs| && BestTitle(cs) == cs[k].text
             && (forall j :: 0 <= j < |cs| ==> cs[j].score <= cs[k].score)
             && (forall j :: 0 <= j < k ==> cs[j].score < cs[k].score);
    BestCandidateAt(window, topThird, k);
    var i := CandidateIndices(window, topThird)[k];
    assert IsBestCandidateAt(window, i, topThird) && BestTitle(cs) == CleanHeadingText(window[i].text);
  }

  /** `NoCandidates`, position by position. */
  lemma NoCandidateAt(window: seq<Block>, topThird: real)
    ensures TitleCandidates(window, topThird) == [] <==> forall i :: 0 <= i < |window| ==> !IsCandidate(window[i], topThird)
  {
    NoCandidates(window, topThird);
    if forall i :: 0 <= i < |window| ==> !IsCandidate(window[i], topThird) {
      forall b | b in window
        ensures !IsCandidate(b, topThird)
      {
        var i :| 0 <= i < |window| && window[i] == b;
      }
    }
  }

  /** The block behind the `k`-th candidate is the best block when that candidate is the first best one. */
  lemma BestCandidateAt(window: seq<Block>, topThird: real, k: int)
    requires 0 <= k < |TitleCandidates(window, topThird)|
    requires var cs := TitleCandidates(window, topThird);
      && (forall j :: 0 <= j < |cs| ==> cs[j].score <= cs[k].score)
      && (forall j :: 0 <= j < k ==> cs[j].score < cs[k].score)
    ensures k < |CandidateIndices(window, topThird)|
    ensures IsBestCandidateAt(window, CandidateIndices(window, topThird)[k], topThird)
    ensures TitleCandidates(window, topThird)[k].text == CleanHeadingText(window[CandidateIndices(window, topThird)[k]].text)
  {
    var offers := CandidateOffers(window, topThird);
    assert CandidateIndices(window, topThird) == NonEmptyAt(offers);
    assert TitleCandidates(window, topThird) == Flat(offers) by {
      CandidatesAreOffers(window, topThird);
    }
    FirstBestOffer(offers, k);
    BestOfferIsBestBlock(window, topThird, CandidateIndices(window, topThird)[k]);
  }

  lemma BestOfferIsBestBlock(window: seq<Block>, topThird: real, i: int)
    requires 0 <= i < |window| && CandidateOffers(window, topThird)[i] != []
    requires var offers := CandidateOffers(window, topThird);
      forall j :: 0 <= j < |window| && offers[j] != [] ==> offers[j][0].score <= offers[i][0].score
    requires var offers := CandidateOffers(window, topThird);
      forall j :: 0 <= j < i && offers[j] != [] ==> offers[j][0].score < offers[i][0].score
    ensures IsBestCandidateAt(window, i, topThird)
    ensures CandidateOffers(window, topThird)[i][0].text == CleanHeadingText(window[i].text)
  {
    OfferOf(window, topThird, i);
    forall j | 0 <= j < |window| && IsCandidate(window[j], topThird)
      ensures TitleScore(window[j]) <= TitleScore(window[i])
      ensures j < i ==> TitleScore(window[j]) < TitleScore(window[i])
    {
      OfferOf(window, topThird, j);
    }
  }

  /** Block `j` offers a candidate exactly when it passes the filters, and then it offers its own. */
  lemma OfferOf(window: seq<Block>, topThird: real, j: int)
    requires 0 <= j < |window|
    ensures CandidateOffers(window, topThird)[j] != [] <==> IsCandidate(window[j], topThird)
    ensures IsCandidate(window[j], topThird) ==>
              CandidateOffers(window, topThird)[j] == [Candidate(CleanHeadingText(window[j].text), TitleScore(window[j]))]
  {
  }

  /**
   * When the `k`-th element of the concatenation is the first highest-scoring one, the piece it comes
   * from scores at least as high as every non-empty piece and higher than every earlier one.
   */
  lemma FirstBestOffer(pieces: seq<seq<Candidate>>, k: int)
    requires forall i :: 0 <= i < |pieces| ==> |pieces[i]| <= 1
    requires 0 <= k < |Flat(pieces)|
    requires forall j :: 0 <= j < |Flat(pieces)| ==> Flat(pieces)[j].score <= Flat(pieces)[k].score
    requires forall j :: 0 <= j < k ==> Flat(pieces)[j].score < Flat(pieces)[k].score
    ensures k < |NonEmptyAt(pieces)| && 0 <= NonEmptyAt(pieces)[k] < |pieces|
    ensures pieces[NonEmptyAt(pieces)[k]] == [Flat(pieces)[k]]
    ensures forall j :: 0 <= j < |pieces| && pieces[j] != [] ==> pieces[j][0].score <= Flat(pieces)[k].score
    ensures forall j :: 0 <= j < NonEmptyAt(pieces)[k] && pieces[j] != [] ==> pieces[j][0].score < Flat(pieces)[k].score
  {
    var at, flat := NonEmptyAt(pieces), Flat(pieces);
    FlatOfSingles(pieces);
    NonEmptyAtIncreases(pieces);
    NonEmptyAtComplete(pieces);
    forall j | 0 <= j < |pieces| && pieces[j] != []
      ensures pieces[j][0].score <= flat[k].score
      ensures j < at[k] ==> pieces[j][0].score < flat[k].score
    {
      var l :| 0 <= l < |at| && at[l] == j;
      assert l < k || l == k || at[k] < at[l];
    }
  }

  /** The metadata title wins; otherwise the detected title; otherwise the empty string. */
  function DocumentTitle(metadataTitle: Option<string>, blocks: seq<Block>, pageHeight: real): string {
    match TitleFromMetadata(metadataTitle)
    case Some(t) => t
    case None => DetectTitle(blocks, pageHeight).GetOr("")
  }

  /**
   * `title or ""`: the metadata title when there is one, else the detected title, and empty exactly
   * when nothing is detected, since a detected title has at least 5 characters.
   */
  lemma DocumentTitleChoice(metadataTitle: Option<string>, blocks: seq<Block>, pageHeight: real)
    ensures TitleFromMetadata(metadataTitle).Some? ==>
      DocumentTitle(metadataTitle, blocks, pageHeight) == Strip(metadataTitle.value) != []
    ensures TitleFromMetadata(metadataTitle).None? ==>
      (DocumentTitle(metadataTitle, blocks, pageHeight) == [] <==> DetectTitle(blocks, pageHeight).None?)
  {
    DetectedTitleSource(blocks, pageHeight);
    if DetectTitle(blocks, pageHeight).Some? {
      var window, topThird := TitleWindow(blocks), TopThird(pageHeight);
      var i :| && IsBestCandidateAt(window, i, topThird)
               && DetectTitle(blocks, pageHeight).value == CleanHeadingText(window[i].text);
      assert IsCandidate(window[i], topThird);
    }
  }

  /** Without any block there is nothing to detect, so the title is the metadata title or empty. */
  lemma NoBlocksNoDetectedTitle(metadataTitle: Option<string>, pageHeight: real)
    ensures DocumentTitle(metadataTitle, [], pageHeight) == TitleFromMetadata(metadataTitle).GetOr("")
  {
    assert FirstPageBlocks([]) == [];
  }
}
