/**
 * `classify_heading_level` (pdf_extractor.py:156-231): an additive score over a span's size, weight,
 * numbering, margin, length and capitalisation, then thresholds that map the score to H1, H2, H3 or
 * no heading at all.
 */
module Classifier {
  import opened Options
  import opened Strings
  import opened Blocks
  import opened Numbering

  datatype Level = H1 | H2 | H3

  /** The length filters: not too short, not too long, and not a long run of body text. */
  predicate Admissible(text: string, bold: bool) {
    3 <= |text| <= 200 && !(|text| > 100 && !bold)
  }

  /** The size of a span relative to the mean size, or 1 when the mean is not positive. */
  function SizeRatio(size: real, averageSize: real): real {
    if averageSize > 0.0 then size / averageSize else 1.0
  }

  function SizePoints(ratio: real): int {
    if ratio >= 1.5 then 30 else if ratio >= 1.2 then 20 else if ratio >= 1.1 then 10 else 0
  }

  function BoldPoints(bold: bool): int {
    if bold then 25 else 0
  }

  function NumberedPoints(numbered: bool): int {
    if numbered then 20 else 0
  }

  /** Text starting in the left margin. */
  function MarginPoints(x0: real): int {
    if x0 < 100.0 then 10 else 0
  }

  /** The length bonus. The `< 20` test comes after the `< 50` test, so its 25 points are never given. */
  function BrevityPoints(length: nat): int {
    if length < 50 then 15 else if length < 20 then 25 else 0
  }

  function CasePoints(text: string): int {
    if IsUpper(text) || IsTitle(text) then 10 else 0
  }

  /** The heading score of a span whose stripped text is `text`. */
  function HeadingScore(b: Block, text: string, averageSize: real): (score: int)
    ensures 0 <= score <= 110
  {
    SizePoints(SizeRatio(b.size, averageSize)) + BoldPoints(IsBold(b)) + NumberedPoints(IsNumberedHeading(text))
      + MarginPoints(b.x0) + BrevityPoints(|text|) + CasePoints(text)
  }

  /** The thresholds: numbering decides among the levels of a strong heading, else the size does. */
  function LevelForScore(score: int, numbered: bool, dots: nat, size: real, maxSize: real): Option<Level> {
    if score >= 50 then
      if numbered then
        if dots == 1 then Some(H1) else if dots == 2 then Some(H2) else Some(H3)
      else if size >= maxSize * 0.9 then Some(H1)
      else if size >= maxSize * 0.8 then Some(H2)
      else Some(H3)
    else if score >= 35 then Some(H2)
    else if score >= 25 then Some(H3)
    else None
  }

  /** The level of a span, given the mean and the maximum font size of the document. */
  function Classify(b: Block, averageSize: real, maxSize: real): Option<Level> {
    var text := Strip(b.text);
    if !Admissible(text, IsBold(b)) then None
    else LevelForScore(HeadingScore(b, text, averageSize), IsNumberedHeading(text), Count(text, '.'), b.size, maxSize)
  }

  /** The classifier as the source computes it: filters, the score, then the thresholds. */
  method ClassifyHeadingLevel(b: Block, averageSize: real, maxSize: real) returns (level: Option<Level>)
    ensures level == Classify(b, averageSize, maxSize)
  {
    var text := Strip(b.text);
    var fontSize := b.size;
    if |text| < 3 || |text| > 200 {
      return None;
    }
    if |text| > 100 && !IsBold(b) {
      return None;
    }
    var numbered := IsNumberedHeading(text);
    var score := AccumulateScore(b, text, averageSize);
    if score >= 50 {
      if numbered {
        var dots := Count(text, '.');
        if dots == 1 {
          return Some(H1);
        } else if dots == 2 {
          return Some(H2);
        } else {
          return Some(H3);
        }
      } else if fontSize >= maxSize * 0.9 {
        return Some(H1);
      } else if fontSize >= maxSize * 0.8 {
        return Some(H2);
      } else {
        return Some(H3);
      }
    } else if score >= 35 {
      return Some(H2);
    } else if score >= 25 {
      return Some(H3);
    }
    return None;
  }

  /** The score as the source accumulates it, one term after the other. */
  method AccumulateScore(b: Block, text: string, averageSize: real) returns (score: int)
    ensures score == HeadingScore(b, text, averageSize)
  {
    var sizeRatio := if averageSize > 0.0 then b.size / averageSize else 1.0;
    score := 0;
    if sizeRatio >= 1.5 {
      score := score + 30;
    } else if sizeRatio >= 1.2 {
      score := score + 20;
    } else if sizeRatio >= 1.1 {
      score := score + 10;
    }
    if IsBold(b) {
      score := score + 25;
    }
    if IsNumberedHeading(text) {
      score := score + 20;
    }
    if b.x0 < 100.0 {
      score := score + 10;
    }
    if |text| < 50 {
      score := score + 15;
    } else if |text| < 20 {
      score := score + 25;
    }
    if IsUpper(text) || IsTitle(text) {
      score := score + 10;
    }
  }

  /** Text shorter than 20 characters earns 15 points for brevity, never 25. */
  lemma ShortTextEarnsFifteen(length: nat)
    ensures BrevityPoints(length) != 25
    ensures BrevityPoints(length) == 15 <==> length < 50
  {
  }

  /** A span is a heading exactly when its stripped text passes the length filters and it scores at least 25. */
  lemma ClassifyAccepts(b: Block, averageSize: real, maxSize: real)
    ensures Classify(b, averageSize, maxSize).Some? <==>
      Admissible(Strip(b.text), IsBold(b)) && HeadingScore(b, Strip(b.text), averageSize) >= 25
  {
    var text := Strip(b.text);
    LevelThresholds(HeadingScore(b, text, averageSize), IsNumberedHeading(text), Count(text, '.'), b.size, maxSize);
  }

  /** Spans whose stripped text is too short, too long, or long and not bold are never headings. */
  lemma RejectedByLength(b: Block, averageSize: real, maxSize: real)
    ensures var text := Strip(b.text);
      (|text| < 3 || |text| > 200 || (|text| > 100 && !IsBold(b))) ==> Classify(b, averageSize, maxSize) == None
  {
  }

  /**
   * The thresholds level by level: no heading below 25, H3 from 25, H2 from 35, and from 50 the
   * numbering (by its dot count, where no dot at all gives H3) or else the size relative to the
   * largest size decides.
   */
  lemma LevelThresholds(score: int, numbered: bool, dots: nat, size: real, maxSize: real)
    ensures LevelForScore(score, numbered, dots, size, maxSize) == None <==> score < 25
    ensures LevelForScore(score, numbered, dots, size, maxSize) == Some(H1) <==>
      score >= 50 && if numbered then dots == 1 else size >= maxSize * 0.9
    ensures LevelForScore(score, numbered, dots, size, maxSize) == Some(H2) <==>
      || 35 <= score < 50
      || (score >= 50 && if numbered then dots == 2 else maxSize * 0.8 <= size < maxSize * 0.9)
    ensures LevelForScore(score, numbered, dots, size, maxSize) == Some(H3) <==>
      || 25 <= score < 35
      || (score >= 50 && if numbered then dots != 1 && dots != 2 else size < maxSize * 0.9 && size < maxSize * 0.8)
  {
  }
}
