/**
 * The span records the PDF reader hands to the outline engine, and the bold test
 * `is_bold_text` (pdf_extractor.py:87-101).
 */
module Blocks {
  import opened Strings

  /**
   * One text span: its text, font name, font size, PyMuPDF style flags, the top-left corner of its
   * bounding box and its 1-based page number. Sizes and coordinates are exact reals.
   */
  datatype Block = Block(text: string, font: string, size: real, flags: int, x0: real, y0: real, page: int)

  /** `flags & 2**4`: bit 4 of the style flags (also for negative flags, as in Python's two's complement). */
  predicate HasBoldFlag(flags: int) {
    (flags / 16) % 2 == 1
  }

  /** The font-name fragments that mark a bold face. */
  const BoldKeywords: seq<string> := ["bold", "heavy", "black", "semibold", "demibold"]

  /** `any(keyword in font_name for keyword in bold_keywords)` on the lower-cased font name. */
  predicate HasBoldKeyword(font: string) {
    exists k :: k in BoldKeywords && Contains(Lower(font), k)
  }

  predicate IsBold(b: Block) {
    HasBoldFlag(b.flags) || HasBoldKeyword(b.font)
  }

  /** A fragment found inside a longer fragment is found in any text holding the longer one. */
  lemma ContainsInner(s: string, outer: string, inner: string, at: nat)
    requires at + |inner| <= |outer| && outer[at..at + |inner|] == inner
    ensures Contains(s, outer) ==> Contains(s, inner)
  {
    ContainsMeans(s, outer);
    ContainsMeans(s, inner);
    if Contains(s, outer) {
      var i :| OccursAt(s, outer, i);
      forall j | 0 <= j < |inner|
        ensures s[i + at + j] == inner[j]
      {
        assert s[i..i + |outer|][at + j] == s[i + at + j];
        assert outer[at..at + |inner|][j] == outer[at + j];
      }
      assert s[i + at..i + at + |inner|] == inner;
      assert OccursAt(s, inner, i + at);
    }
  }

  /**
   * A block is bold exactly when bit 4 of its flags is set or its lower-cased font name contains
   * "bold", "heavy" or "black": "semibold" and "demibold" already contain "bold".
   */
  lemma IsBoldExactly(b: Block)
    ensures IsBold(b) <==>
      (b.flags / 16) % 2 == 1 ||
      Contains(Lower(b.font), "bold") || Contains(Lower(b.font), "heavy") || Contains(Lower(b.font), "black")
  {
    var f := Lower(b.font);
    ContainsInner(f, "semibold", "bold", 4);
    ContainsInner(f, "demibold", "bold", 4);
    assert BoldKeywords[0] == "bold" && BoldKeywords[1] == "heavy" && BoldKeywords[2] == "black";
    assert forall k :: k in BoldKeywords ==> k in {"bold", "heavy", "black", "semibold", "demibold"};
  }
}
