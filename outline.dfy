/**
 * The outline assembly of `extract_outline` (pdf_extractor.py:270-293): every span the classifier
 * accepts yields a heading with its cleaned text; a heading whose key `(lower-cased text, page)` was
 * seen before is dropped, the key being recorded even when the cleaned text is empty; headings with
 * empty text are dropped; and the outline is sorted by `(page, text)`.
 */
module Outline {
  import opened Options
  import opened Strings
  import opened Blocks
  import opened Cleaning
  import opened Classifier
  import opened Sorting

  datatype Entry = Entry(level: Level, text: string, page: int)

  type HeadingKey = (string, int)

  /** The deduplication key `(heading_text.lower(), block["page"])`. */
  function KeyOf(e: Entry): HeadingKey {
    (Lower(e.text), e.page)
  }

  /** What the classifier makes of one span: its heading, with cleaned text, or nothing. */
  function Labelled(b: Block, averageSize: real, maxSize: real): Option<Entry> {
    match Classify(b, averageSize, maxSize)
    case None => None
    case Some(level) => Some(Entry(level, CleanHeadingText(b.text), b.page))
  }

  function LabelAll(blocks: seq<Block>, averageSize: real, maxSize: real): seq<Option<Entry>> {
    seq(|blocks|, i requires 0 <= i < |blocks| => Labelled(blocks[i], averageSize, maxSize))
  }

  /** The state of the loop: the keys seen so far and the headings kept so far, in block order. */
  datatype Assembly = Assembly(seen: set<HeadingKey>, entries: seq<Entry>)

  /** One turn of the loop. */
  function DedupStep(a: Assembly, item: Option<Entry>): Assembly {
    match item
    case None => a
    case Some(e) =>
      if KeyOf(e) in a.seen then a
      else Assembly(a.seen + {KeyOf(e)}, if e.text != [] then a.entries + [e] else a.entries)
  }

  /** The loop over all labelled spans. */
  function Dedup(items: seq<Option<Entry>>): Assembly {
    if items == [] then Assembly({}, [])
    else DedupStep(Dedup(items[..|items| - 1]), items[|items| - 1])
  }

  /** Item `i` is a heading and no earlier heading has its key: the one the loop keeps. */
  ghost predicate FirstOfKey(items: seq<Option<Entry>>, i: int) {
    0 <= i < |items| && items[i].Some? &&
      forall j :: 0 <= j < i && items[j].Some? ==> KeyOf(items[j].value) != KeyOf(items[i].value)
  }

  ghost predicate KeyOccurs(items: seq<Option<Entry>>, k: HeadingKey) {
    exists i :: 0 <= i < |items| && items[i].Some? && KeyOf(items[i].value) == k
  }

  /** The seen set holds the key of every heading, kept or not, and nothing else. */
  lemma {:induction false} DedupSeen(items: seq<Option<Entry>>)
    ensures forall k :: k in Dedup(items).seen <==> KeyOccurs(items, k)
  {
    if items != [] {
      var init := items[..|items| - 1];
      DedupSeen(init);
      forall k
        ensures KeyOccurs(items, k) <==> KeyOccurs(init, k) || (items[|items| - 1].Some? && KeyOf(items[|items| - 1].value) == k)
      {
        if i :| 0 <= i < |init| && init[i].Some? && KeyOf(init[i].value) == k {
          assert items[i] == init[i];
        }
        if i :| 0 <= i < |items| && items[i].Some? && KeyOf(items[i].value) == k {
          if i < |init| {
            assert init[i] == items[i];
          }
        }
      }
    }
  }

  /** Whether an item is the first of its key does not depend on the items after it. */
  lemma FirstOfKeyInPrefix(items: seq<Option<Entry>>, n: nat)
    requires n <= |items|
    ensures forall i :: 0 <= i < n ==> (FirstOfKey(items, i) <==> FirstOfKey(items[..n], i))
  {
    assert forall i :: 0 <= i < n ==> items[..n][i] == items[i];
  }

  /** A heading the loop appends is the first of its key: no earlier heading has that key. */
  lemma NewKeyIsFirst(items: seq<Option<Entry>>)
    requires items != [] && items[|items| - 1].Some?
    requires KeyOf(items[|items| - 1].value) !in Dedup(items[..|items| - 1]).seen
    ensures FirstOfKey(items, |items| - 1)
  {
    var n := |items| - 1;
    DedupSeen(items[..n]);
    forall j | 0 <= j < n && items[j].Some?
      ensures KeyOf(items[j].value) != KeyOf(items[n].value)
    {
      assert items[..n][j] == items[j];
    }
  }

  /** A heading whose key the loop has already seen is not the first of its key. */
  lemma SeenKeyIsNotFirst(items: seq<Option<Entry>>)
    requires items != [] && items[|items| - 1].Some?
    requires KeyOf(items[|items| - 1].value) in Dedup(items[..|items| - 1]).seen
    ensures !FirstOfKey(items, |items| - 1)
  {
    var n := |items| - 1;
    DedupSeen(items[..n]);
    var j :| 0 <= j < n && items[..n][j].Some? && KeyOf(items[..n][j].value) == KeyOf(items[n].value);
    assert items[j] == items[..n][j];
  }

  /** Every kept heading is the first of its key and has non-empty text. */
  lemma {:induction false} DedupEntriesSound(items: seq<Option<Entry>>)
    ensures forall e :: e in Dedup(items).entries ==>
      exists i :: FirstOfKey(items, i) && items[i].value.text != [] && items[i].value == e
  {
    if items != [] {
      var n := |items| - 1;
      var init := items[..n];
      DedupEntriesSound(init);
      FirstOfKeyInPrefix(items, n);
      forall e | e in Dedup(items).entries
        ensures exists i :: FirstOfKey(items, i) && items[i].value.text != [] && items[i].value == e
      {
        if e in Dedup(init).entries {
          var i :| FirstOfKey(init, i) && init[i].value.text != [] && init[i].value == e;
          assert items[i] == init[i];
          assert FirstOfKey(items, i);
        } else {
          NewKeyIsFirst(items);
          assert FirstOfKey(items, n) && items[n].value == e;
        }
      }
    }
  }

  /** Every first heading of a key with non-empty text is kept. */
  lemma {:induction false} DedupEntriesComplete(items: seq<Option<Entry>>)
    ensures forall i :: FirstOfKey(items, i) && items[i].value.text != [] ==> items[i].value in Dedup(items).entries
  {
    if items != [] {
      var n := |items| - 1;
      var init := items[..n];
      DedupEntriesComplete(init);
      FirstOfKeyInPrefix(items, n);
      assert forall e :: e in Dedup(init).entries ==> e in Dedup(items).entries;
      forall i | FirstOfKey(items, i) && items[i].value.text != []
        ensures items[i].value in Dedup(items).entries
      {
        if i < n {
          assert items[i] == init[i];
        } else if KeyOf(items[n].value) in Dedup(init).seen {
          SeenKeyIsNotFirst(items);
        }
      }
    }
  }

  /**
   * The kept headings are exactly the first heading of each key whose text is not empty: a later
   * heading with the key of an earlier one is dropped even when the earlier one had empty text.
   */
  lemma DedupEntries(items: seq<Option<Entry>>)
    ensures forall e :: e in Dedup(items).entries <==>
      exists i :: FirstOfKey(items, i) && items[i].value.text != [] && items[i].value == e
  {
    DedupEntriesSound(items);
    DedupEntriesComplete(items);
  }

  /** Every kept heading's key has been seen, and no two kept headings share a key. */
  predicate KeysTracked(a: Assembly) {
    && (forall p :: 0 <= p < |a.entries| ==> KeyOf(a.entries[p]) in a.seen)
    && (forall p, q :: 0 <= p < q < |a.entries| ==> KeyOf(a.entries[p]) != KeyOf(a.entries[q]))
  }

  /** One turn of the loop keeps the keys tracked. */
  lemma StepKeepsKeysTracked(a: Assembly, item: Option<Entry>)
    requires KeysTracked(a)
    ensures KeysTracked(DedupStep(a, item))
  {
    var a' := DedupStep(a, item);
    if a'.entries != a.entries {
      var e := item.value;
      assert a'.entries == a.entries + [e] && KeyOf(e) !in a.seen;
      forall p | 0 <= p < |a'.entries|
        ensures KeyOf(a'.entries[p]) in a'.seen
      {
        if p < |a.entries| {
          assert a'.entries[p] == a.entries[p];
        }
      }
      forall p, q | 0 <= p < q < |a'.entries|
        ensures KeyOf(a'.entries[p]) != KeyOf(a'.entries[q])
      {
        assert a'.entries[p] == a.entries[p];
        if q < |a.entries| {
          assert a'.entries[q] == a.entries[q];
        }
      }
    }
  }

  /** No two kept headings share a key `(lower-cased text, page)`. */
  lemma {:induction false} DedupKeysDistinct(items: seq<Option<Entry>>)
    ensures KeysTracked(Dedup(items))
  {
    if items != [] {
      DedupKeysDistinct(items[..|items| - 1]);
      StepKeepsKeysTracked(Dedup(items[..|items| - 1]), items[|items| - 1]);
    }
  }

  /** Every kept heading has non-empty, clean text. */
  lemma {:induction false} DedupTextsClean(items: seq<Option<Entry>>)
    requires forall i :: 0 <= i < |items| && items[i].Some? ==> IsCleanText(items[i].value.text)
    ensures forall e :: e in Dedup(items).entries ==> e.text != [] && IsCleanText(e.text)
  {
    DedupEntries(items);
  }

  /** The outline order: by page, then by text as Python compares strings. */
  predicate EntryLe(a: Entry, b: Entry) {
    a.page < b.page || (a.page == b.page && LexLe(a.text, b.text))
  }

  lemma EntryLeIsTotalPreorder()
    ensures TotalPreorder(EntryLe)
  {
    forall a: Entry, b: Entry
      ensures EntryLe(a, b) || EntryLe(b, a)
    {
      LexLeTotal(a.text, b.text);
    }
    forall a: Entry, b: Entry, c: Entry | EntryLe(a, b) && EntryLe(b, c)
      ensures EntryLe(a, c)
    {
      if a.page == b.page && b.page == c.page {
        LexLeTransitive(a.text, b.text, c.text);
      }
    }
  }

  /** The outline of a document whose mean and largest font sizes are given. */
  function OutlineOf(blocks: seq<Block>, averageSize: real, maxSize: real): seq<Entry> {
    Sort(Dedup(LabelAll(blocks, averageSize, maxSize)).entries, EntryLe)
  }

  /** The loop of the source over all spans, with its seen set, then the sort. */
  method AssembleOutline(blocks: seq<Block>, averageSize: real, maxSize: real) returns (outline: seq<Entry>)
    ensures outline == OutlineOf(blocks, averageSize, maxSize)
  {
    var entries: seq<Entry> := [];
    var seen: set<HeadingKey> := {};
    for i := 0 to |blocks|
      invariant Dedup(LabelAll(blocks[..i], averageSize, maxSize)) == Assembly(seen, entries)
    {
      LabelAllStep(blocks, i, averageSize, maxSize);
      var block := blocks[i];
      var headingLevel := ClassifyHeadingLevel(block, averageSize, maxSize);
      if headingLevel.Some? {
        var headingText := CleanHeadingText(block.text);
        var headingKey := (Lower(headingText), block.page);
        if headingKey in seen {
          continue;
        }
        seen := seen + {headingKey};
        if headingText != [] {
          entries := entries + [Entry(headingLevel.value, headingText, block.page)];
        }
      }
    }
    assert blocks[..|blocks|] == blocks;
    outline := Sort(entries, EntryLe);
  }

  lemma LabelAllStep(blocks: seq<Block>, i: nat, averageSize: real, maxSize: real)
    requires i < |blocks|
    ensures var items := LabelAll(blocks[..i], averageSize, maxSize);
      Dedup(LabelAll(blocks[..i + 1], averageSize, maxSize)) == DedupStep(Dedup(items), Labelled(blocks[i], averageSize, maxSize))
  {
    assert blocks[..i + 1][..i] == blocks[..i];
    var items := LabelAll(blocks[..i + 1], averageSize, maxSize);
    assert items[..i] == LabelAll(blocks[..i], averageSize, maxSize);
  }
}
