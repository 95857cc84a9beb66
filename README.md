# PDF outline extraction, modelled in Dafny

This project models the heuristic outline engine of `PDFOutlineExtractor` (pdf_extractor.py). Given
the text spans of a PDF document, that engine produces a JSON-like result
`{"title": ..., "outline": [{"level", "text", "page"}, ...]}`.

- **Title.** The title is the stripped metadata title when the document has one. Otherwise the
  detector takes the first 20 page-1 spans in `(y0, x0)` order. A span qualifies when it starts in
  the top third of the page and its cleaned text has 5 to 100 characters. The title is the cleaned
  text of the best-scoring qualifying span, the earliest one on a tie. It is empty when no span
  qualifies.
- **Outline.** Each span is scored on its font size (relative to the document's mean size), its
  weight, a numbering prefix, the left margin, its length and its capitalisation. The score maps to
  H1, H2, H3 or no heading.
- **Cleaning and order.** Heading texts are cleaned. Duplicates by `(lower-cased text, page)` are
  dropped, and the outline is sorted by `(page, text)`.

The PDF reader is not modelled. A document is given by three inputs: its metadata title, the spans
the reader yields for each page, and the height of its first page.

Modules:

- `Options`, `Strings` (strings.dfy): Python's `strip`, `lower`, `count`, `in`, `isupper`, `istitle`
  and string ordering, over ASCII.
- `Seqs` (seqs.dfy): generic facts about concatenation, and the flattening of a sequence of pieces
  with the positions of its non-empty pieces.
- `Sorting` (sorting.dfy): a stable sort specified by sortedness, permutation, stability and its
  first element. It stands in for `list.sort`.
- `Cleaning` (cleaning.dfy): `clean_heading_text`.
- `Blocks` (blocks.dfy): a span and `is_bold_text`.
- `Numbering` (numbering.dfy): the numbered-heading test as the pattern evidently means it.
- `FontStats` (font_stats.dfy): the mean and the largest font size.
- `Classifier` (classifier.dfy): `classify_heading_level`.
- `Title` (title.dfy): `extract_title_from_metadata` and `detect_title_from_first_page`.
- `Outline` (outline.dfy): the heading loop, its deduplication and the final sort.
- `Extraction` (extraction.dfy): `extract_outline`.
- `RegexFinding` (regex_finding.dfy): the extractor as written, with a pattern that does not
  compile; see "## Findings".

The code's `elif len(text) < 20: score += 25` branch (pdf_extractor.py:202-203) is unreachable,
because the `< 50` test comes first. Short text therefore earns 15 points, and the model follows the
code (`Classifier.ShortTextEarnsFifteen`).

## Model

| member | source | states |
|---|---|---|
| Strings.Strip | pdf_extractor.py:160 | the stripped text has no whitespace at either end and is no longer than the input; a text without surrounding whitespace is left unchanged |
| Strings.StripLeftDropsSpaces | pdf_extractor.py:160 | `lstrip` removes only whitespace characters |
| Strings.StripRightDropsSpaces | pdf_extractor.py:160 | `rstrip` removes only whitespace characters |
| Strings.StripContent | pdf_extractor.py:160 | the stripped text is the slice of the input that starts after its leading whitespace, character by character, and everything before and after that slice is whitespace |
| Strings.LowerAt | pdf_extractor.py:280 | `lower` lower-cases each character in place, at its own position |
| Strings.ContainsMeans | pdf_extractor.py:98 | `keyword in font_name` holds exactly when the keyword occurs at some position of the name |
| Strings.Count | pdf_extractor.py:213 | `text.count('.')` is the number of occurrences of the dot in the text (its multiplicity); it is at most the length and zero exactly when the text has no dot |
| Strings.IsTitleMeansTitleCased | pdf_extractor.py:206 | `istitle` holds exactly when the text has a cased letter, every upper-case letter follows an uncased character, and every lower-case letter follows a cased one |
| Strings.LexLeTotal | pdf_extractor.py:293 | Python's string order compares any two texts |
| Strings.LexLeTransitive | pdf_extractor.py:293 | the string order is transitive |
| Strings.LexLeAntisymmetric | pdf_extractor.py:293 | two texts each at most the other are equal |
| Sorting.Sort | pdf_extractor.py:293 | sorting keeps the length and the multiset of elements |
| Sorting.SortSorted | pdf_extractor.py:293 | under a total preorder, the sorted sequence is ordered |
| Sorting.SortStable | pdf_extractor.py:123 | elements with equal keys keep their relative order, as `list.sort` promises |
| Sorting.SortHead | pdf_extractor.py:149-150 | the first element after sorting is the earliest least element of the input |
| Sorting.EqualKeysConcat | pdf_extractor.py:123 | the elements of a key in a concatenation are those of the first part followed by those of the second |
| Sorting.SortedPrefixFirst | pdf_extractor.py:131 | a prefix of a sorted sequence comes before every element it leaves out: each left-out copy is at least every element of the prefix |
| Cleaning.CollapseWhitespace | pdf_extractor.py:106 | no adjacent spaces remain, the ends stay whitespace exactly when they were, a leading non-space character is kept, and the text never grows |
| Cleaning.CollapseRun | pdf_extractor.py:106 | a whitespace run in front of a non-space character, or at the end, becomes exactly one space |
| Cleaning.CollapseConcat | pdf_extractor.py:106 | collapsing works piece by piece across a cut made after a non-space character, so with `CollapseRun` the content of the result is fixed on every input |
| Cleaning.CollapseKeepsNonSpaces | pdf_extractor.py:106 | collapsing keeps every non-space character, in order: the non-space characters of the result are exactly those of the input |
| Cleaning.DropLeadingDigitsAndSymbols | pdf_extractor.py:109 | the result is a suffix of the input that does not start with a digit or a non-word character |
| Cleaning.DropRemovesOnlyDigitsAndSymbols | pdf_extractor.py:109 | only digits and non-word characters are removed |
| Cleaning.ReplaceAt | pdf_extractor.py:110 | line breaks and tabs become spaces and every other character is kept, position by position |
| Cleaning.CleanHeadingTextIsClean | pdf_extractor.py:103-112 | a cleaned text has no surrounding whitespace, only single spaces, starts with a letter or `_`, and is no longer than the input |
| Cleaning.CleanHeadingTextSteps | pdf_extractor.py:103-112 | the cleaner equals the source's five steps in their order |
| Cleaning.CleanTextIsFixed | pdf_extractor.py:103-112 | cleaning a text that is already clean returns it unchanged |
| Cleaning.CleanIdempotent | pdf_extractor.py:103-112 | cleaning twice is cleaning once |
| Blocks.IsBoldExactly | pdf_extractor.py:86-100 | a span counts as bold exactly when bit 4 of its flags is set or its lower-cased font name contains "bold", "heavy" or "black"; "semibold" and "demibold" add nothing |
| Numbering.RunLength | pdf_extractor.py:172 | a maximal run: every character in it satisfies the test, and the next one does not |
| Numbering.NumberedHeadingShape | pdf_extractor.py:172 | the matcher accepts a text exactly when digits, one separator among `.`, `)`, `:`, further digits and separators, optional whitespace and an ASCII letter form a prefix of it |
| FontStats.MaxOf | pdf_extractor.py:260 | the largest size is one of the sizes and bounds them all |
| FontStats.FontStatistics | pdf_extractor.py:259-260 | with sizes, the mean times the count is their sum and the maximum is a member bounding them all; without sizes both are 12 |
| FontStats.AverageAtMostMaximum | pdf_extractor.py:259-260 | the mean size never exceeds the largest size |
| FontStats.AveragePositive | pdf_extractor.py:175 | when all sizes are positive the mean is positive, so the size ratio divides by the mean |
| Classifier.HeadingScore | pdf_extractor.py:174-207 | the heading score lies between 0 and 110 |
| Classifier.AccumulateScore | pdf_extractor.py:174-207 | the score the source accumulates term by term is the heading score |
| Classifier.ClassifyHeadingLevel | pdf_extractor.py:156-231 | the classifier with its early returns yields the level that the filters, the score and the thresholds define |
| Classifier.ShortTextEarnsFifteen | pdf_extractor.py:200-204 | the brevity bonus is never 25; it is 15 exactly when the text has fewer than 50 characters |
| Classifier.ClassifyAccepts | pdf_extractor.py:156-231 | `Classify`: a span is a heading exactly when its stripped text passes the length filters and its score is at least 25 |
| Classifier.RejectedByLength | pdf_extractor.py:160-169 | a span whose stripped text is shorter than 3, longer than 200, or longer than 100 and not bold is never a heading |
| Classifier.LevelThresholds | pdf_extractor.py:209-231 | for each level, the exact scores, dot counts and size ratios that yield it: no heading below 25, H3 from 25, H2 from 35, and from 50 the dot count (none gives H3) or the size against 90% and 80% of the largest size |
| Title.TitleFromMetadata | pdf_extractor.py:39-50 | the metadata title is used exactly when it exists and is not all whitespace, and then it is stripped |
| Title.FirstPageBlocks | pdf_extractor.py:122 | exactly the spans of page 1 are kept |
| Title.FirstPageBlocksCounts | pdf_extractor.py:122 | each page-1 span is kept as often as it occurs, and no other span is kept |
| Title.FirstPageBlocksConcat | pdf_extractor.py:122 | the filter keeps the order of the spans: filtering a concatenation concatenates the filtered parts |
| Title.PositionLeIsTotalPreorder | pdf_extractor.py:123 | the `(y0, x0)` key orders any spans totally and transitively |
| Title.TitleWindow | pdf_extractor.py:122-131 | the window holds at most 20 spans of page 1, in `(y0, x0)` order |
| Title.TitleWindowContents | pdf_extractor.py:122-131 | the window holds `min(20, n)` of the `n` page-1 spans, each no more often than on the page; every page-1 span it leaves out comes after every window span in `(y0, x0)` order; and spans with equal positions keep their page order |
| Title.NonNegative | pdf_extractor.py:143 | `max(0, x)` is non-negative, at least `x`, and either `x` or 0 |
| Title.TitleScoreMonotone | pdf_extractor.py:139-143 | a span at least as large, as bold and as high on the page as another never scores less |
| Title.ScoreTitleCandidate | pdf_extractor.py:139-143 | the score the source accumulates term by term is the title score |
| Title.TitleCandidates | pdf_extractor.py:131-146 | there are no more candidates than spans in the window |
| Title.TitleCandidatesConcat | pdf_extractor.py:131-146 | candidates are collected span by span: the candidates of a concatenation are those of its parts, in order |
| Title.CandidateIndicesSound | pdf_extractor.py:131-146 | the `k`-th candidate comes from a window span that passes both filters, and it carries that span's cleaned text and score |
| Title.CandidateIndicesIncrease | pdf_extractor.py:131-146 | candidates appear in the order of their spans in the window |
| Title.CandidatesComplete | pdf_extractor.py:131-146 | every window span that passes both filters yields a candidate |
| Title.CandidatesFromWindow | pdf_extractor.py:131-146 | every candidate is a window span in the top third with a cleaned text of 5 to 100 characters, and it carries that text and the span's score |
| Title.NoCandidates | pdf_extractor.py:131-146 | there are no candidates exactly when no span of the window passes both filters |
| Title.CollectCandidates | pdf_extractor.py:131-146 | the scan with its `continue`s collects exactly the candidates of the window, in order |
| Title.BestTitleIsFirstMaximum | pdf_extractor.py:147-152 | the chosen title is the text of a candidate with the highest score, and no earlier candidate has that score |
| Title.DetectTitleFromFirstPage | pdf_extractor.py:114-154 | the detector as the source runs it returns the title that the window, the candidates and the best score define |
| Title.BestCandidateAt | pdf_extractor.py:147-152 | the first candidate with the highest score comes from the best qualifying window span: no qualifying span scores higher, and every earlier qualifying span scores lower |
| Title.DetectedTitleSource | pdf_extractor.py:114-154 | `DetectTitle`: a title is found exactly when some span of the window (the first 20 page-1 spans in `(y0, x0)` order) qualifies, and a found title is the cleaned text of the best qualifying span, the earliest one on a tie |
| Title.DocumentTitleChoice | pdf_extractor.py:264-267 | `DocumentTitle`: the metadata title when there is one (stripped and non-empty); otherwise the detected title, empty exactly when none is detected |
| Title.NoBlocksNoDetectedTitle | pdf_extractor.py:254-256 | without spans the title is the metadata title or empty |
| Outline.DedupSeen | pdf_extractor.py:279-283 | the seen set holds the key of every heading the classifier accepted, kept or not, and no other key |
| Outline.DedupEntriesSound | pdf_extractor.py:270-290 | every kept heading is the first heading of its key and has non-empty text |
| Outline.DedupEntriesComplete | pdf_extractor.py:270-290 | every first heading of a key whose text is non-empty is kept |
| Outline.DedupEntries | pdf_extractor.py:270-290 | `Dedup`: the kept headings are exactly the first heading of each key whose text is non-empty, so an empty first heading still blocks its key |
| Outline.StepKeepsKeysTracked | pdf_extractor.py:279-290 | `DedupStep`: one turn of the loop keeps every kept key in the seen set and keeps the kept keys distinct |
| Outline.DedupKeysDistinct | pdf_extractor.py:279-283 | no two kept headings share a key `(lower-cased text, page)`, and every kept key has been seen |
| Outline.DedupTextsClean | pdf_extractor.py:285-290 | every kept heading has non-empty, clean text |
| Outline.EntryLeIsTotalPreorder | pdf_extractor.py:293 | the `(page, text)` key orders any headings totally and transitively |
| Outline.AssembleOutline | pdf_extractor.py:270-293 | the heading loop with its seen set, followed by the sort, yields the deduplicated headings sorted by `(page, text)` |
| Extraction.SizesOf | pdf_extractor.py:252 | one font size per span, in span order |
| Extraction.PagesRead | pdf_extractor.py:248 | the number of pages read is the page count capped at 50 |
| Extraction.GatherBlocks | pdf_extractor.py:245-252 | the page loop collects the spans of the pages read, in order, and their sizes |
| Extraction.FlattenMembers | pdf_extractor.py:251 | a span is collected exactly when it is on one of the pages |
| Extraction.ReadBlocksMembers | pdf_extractor.py:248-251 | a span is read exactly when it is on one of the first 50 pages |
| Extraction.NoBlocksOutcome | pdf_extractor.py:254-256 | a document without spans on its first 50 pages yields the metadata title (or empty) and an empty outline |
| Extraction.ExtractedTitle | pdf_extractor.py:264-267 | `Extract`: the title is the stripped metadata title when there is one; otherwise it is empty exactly when no span of the window qualifies, and else it is the cleaned text of the best qualifying span, the earliest one on a tie |
| Extraction.OutlineEntriesFromBlocks | pdf_extractor.py:270-290 | every outline heading has non-empty clean text, and it comes from a span that the classifier gives its level, with that span's cleaned text and page |
| Extraction.OutlineOrderAndContents | pdf_extractor.py:293 | `OutlineOf`: the outline is sorted by `(page, text)`, holds exactly the kept headings, and no two of its headings share a key |
| Extraction.SortedDistinctEntries | pdf_extractor.py:293 | sorting headings with distinct keys yields them in `(page, text)` order, as a permutation, still with distinct keys |
| Extraction.OutlinePagesWithinCap | pdf_extractor.py:248-251 | every heading lies on a page from 1 up to the number of pages read, never past 50 |
| Extraction.ExtractOutline | pdf_extractor.py:233-302 | the extractor run in the source's order computes the outcome that the read spans, their statistics, the title and the outline define |
| RegexFinding.SourcePatternUnterminated | pdf_extractor.py:172 | the pattern as written leaves a group open, so it does not compile; inserting `)` before `\s*` balances it |
| RegexFinding.ClassifyAsWrittenRaises | pdf_extractor.py:160-172 | `ClassifyAsWritten`: as written, the classifier raises for exactly the spans that pass the length filters, and otherwise returns no heading |
| RegexFinding.OutlineAsWrittenEmpty | pdf_extractor.py:270-275 | `OutlineAsWritten`: as written, the heading loop raises exactly when some span passes the length filters; when it does not raise, it finds no heading |
| RegexFinding.AsWrittenOutlineEmpty | pdf_extractor.py:304-306 | `ExtractAsWritten`: as written, every document yields an empty outline |
| RegexFinding.AsWrittenTitleLost | pdf_extractor.py:304-306 | as written, one read span that passes the length filters makes the result an empty title and an empty outline, even when there is a metadata title |
| RegexFinding.ScopeDocumentDiffers | pdf_extractor.py:172 | on a one-page document with a bold "Scope" span, the code as written returns nothing, while the corrected model returns the title "Scope" and one H1 heading on page 1 |

## Left out

- Opening the PDF, reading its metadata, loading pages and `analyze_page_text_blocks` (pdf_extractor.py:52-85) belong to the PyMuPDF reader and are not modelled. A document is given by its metadata title (`None` when absent), the spans of each page after that function has stripped them, and the height of the first page.
- Closing the document, the `DEBUG` logging and the command-line driver (pdf_extractor.py:308-387) have no effect on the result and are not modelled.
- The handler at pdf_extractor.py:304-306 is modelled only for the exception raised by the pattern at line 172. Reader failures are outside the model.
- The `page.number != 0` guard of `detect_title_from_first_page` is not modelled. Its caller always passes page 0, so the guard always passes.
- Sizes and coordinates are exact reals, not floating-point numbers. Ties and thresholds near the rounding of `0.33`, `0.9` or `0.8` may decide differently in the program.
- Characters outside ASCII are treated as non-space, non-word and uncased. Python's Unicode-aware `\s`, `\W`, `lower`, `isupper` and `istitle` are not modelled beyond ASCII.
- `list.sort` is modelled by a stable insertion sort with the same promises (sorted, permutation, stable). The algorithm itself is not modelled.
- RegexFinding.GroupsBalanced: checks only that the pattern's parentheses balance, which is the error this pattern has. The other ways a pattern can fail to compile are not modelled.
- Numbering.IsNumberedHeading: models the corrected pattern, not the one the source writes; the source's pattern raises (see "## Findings").

## Findings

| source | as written | input that shows it | evidently intended | confidence | as-written member | corrected member |
|---|---|---|---|---|---|---|
| pdf_extractor.py:172 | `^(\d+(\.\|\)\|:)+(\d+(\.\|\)\|:)*)*\s*[A-Za-z]` opens four groups and closes three, so `re.match` raises `re.error` for every span that passes the length filters. The handler at lines 304-306 then returns an empty title and an empty outline. | a one-page document with no metadata title and one bold span "Scope" (Helvetica, 12pt, flags 16) at x0 = 50, y0 = 100 on a 792pt-high page | with `)` before `\s*`, the pattern compiles and the document yields the title "Scope" and the outline [H1 "Scope", page 1] | not executed | RegexFinding.ScopeDocumentDiffers | Numbering.IsNumberedHeading, whose language Numbering.NumberedHeadingShape proves; Extraction.Extract uses it |
