# PDF-Parser core, modelled in Dafny

PDF-Parser turns the pages of a PDF into structured content. It has four parts:

- **Heading detection** (`detect_headings`). Glyphs are grouped into visual lines by their rounded `top` coordinate. Each page gets its size statistics: the positive sizes, their largest value and their lower median. Each non-blank line gets four component scores (size, bold, position, uppercase) and a weighted score. The score is compared against a threshold, the heading lines are collected, and every line is kept in a debug list sorted by `(page, top, -score)`.
- **The content segmenter** (`page_content`, the page grouping and the page loop). The debug lines are grouped by page, and the pages are visited in increasing order. A small state machine (current section, current subsection, pending paragraph lines) turns each page's lines into heading and paragraph nodes. A heading whose size equals the page's largest line size opens a section. Any other heading opens a subsection.
- **Image extraction** (`extract_images_from_pdf`). Image references (xrefs) are deduplicated across the whole document. Each newly seen image gets the page's next counter value and the file name `page{p}_img{n}.{ext}`, where `ext` defaults to `png`.
- **Table cleaning** (`extract_table_structured`). Every table on a selected page is kept with its page number. Missing cells become the empty string.

Modules:

| module | file | models |
|---|---|---|
| `Wrappers` | wrappers.dfy | `Option` (Python's `None`) |
| `Text` | text.dfy | `str.strip`, `"\n".join`, `" ".join`, case-insensitive substring search, decimal rendering of page and counter numbers |
| `Lines` | lines.dfy | the `lines_map` grouping by rounded `top` and the sorted keys |
| `Scoring` | scoring.dfy | page statistics, the four component scores, the weighted score, one scored (debug) line |
| `Detect` | detect.dfy | the per-page key loop, the document loop with its page filter, the headings list, the final sort |
| `Segment` | segment.dfy | the segmenter of one page: `flush_paragraph` and the line loop |
| `PageContent` | content.dfy | `page_dict` grouping and the sorted page loop of `page_content` |
| `Images` | images.dfy | xref deduplication, per-page counters, file names, result records |
| `Tables` | tables.dfy | cell cleaning and the page/table loops |

Stateful loops in the source are written as methods with loop invariants. Most of these methods are proved equal to a specification function: `Detect.ScoreKeys` (to `KeyedLines`), `Segment.SegmentPage` (to `Segmented`), `PageContent.GroupByPage` (to `Grouped`), `PageContent.SegmentPages` (to `Segments`), `Images.ScanPage` (to `PageRecords`), `Images.ExtractImages` (to `DocRecords`) and `Tables.ExtractTables` (to `Structured`). The source's promises are proved as lemmas about those functions. Two methods are specified by properties instead. `Lines.GroupByTop` is specified key by key: its keys are `KeySet` and each entry is `LineOf`. `Detect.DetectHeadings` is specified relationally: the debug list is in reading order, sound and complete, and the headings are `HeadingsOf` the debug list.

Parameters stand in for the PDF libraries and for Python built-ins that are not modelled:

- A page's glyph list and height are inputs.
- A page's image xref list, and the image data per xref, are inputs.
- A page's raw tables are an input.
- `round(x, 1)`, `str.isalpha` and `str.isupper` are function-typed parameters (`Scoring.Env`).

Two behaviours of the code are worth spelling out:

- **Image deduplication is document-wide** (pdf_parser.py:131-158). The `seen_xrefs` set is created once, before the page loop. An image already extracted on an earlier page is therefore skipped on later pages too, not only repeats on the same page. `Images.DocRecordsXrefs` states this.
- **The `page_content` filter tests `page_number` for truthiness** (pdf_parser.py:195). Page number 0 therefore keeps every page. `PageContent.Kept` says this. The heading and table filters (pdf_parser.py:15-19 and 104-111) instead compare against `{page_number}` whenever a page number is given. `page_content` passes the same page number to `detect_headings` (pdf_parser.py:189), and there the `{0}` filter selects no page. So the full `page_content(path, 0)` call gets an empty debug list and produces no page content. Its tail then reaches the unbound `page_num` named under "## Left out".

## Model

| member | source | states |
|---|---|---|
| `Text.Strip` | pdf_parser.py:47 | the result has no leading or trailing whitespace, is no longer than the input, and is empty exactly when the input is all whitespace |
| `Text.StripSlice` | pdf_parser.py:47 | the result is the slice `s[i..j]` with only whitespace before `i` and after `j` |
| `Text.TrimLeft` | pdf_parser.py:47 | removes exactly a whitespace prefix, and the result does not start with whitespace |
| `Text.TrimRight` | pdf_parser.py:47 | removes exactly a whitespace suffix, and the result does not end with whitespace |
| `Text.StripKeepsStripped` | pdf_parser.py:226 | stripping an already stripped text changes nothing |
| `Text.StripIdempotent` | pdf_parser.py:214 | stripping twice equals stripping once |
| `Text.StripAll` | pdf_parser.py:214 | strips each pending line, element by element |
| `Text.SplitJoinLines` | pdf_parser.py:214 | splitting a `"\n"`-join of newline-free lines at newlines gives back exactly those lines |
| `Text.JoinStrippedLines` | pdf_parser.py:214 | joining non-empty stripped lines gives a non-empty stripped text that starts with the first line's first character and ends with the last line's last character, so the outer `strip()` is a no-op |
| `Text.ContainsAcrossSpace` | pdf_parser.py:53-61 | for a pattern without spaces, a case-insensitive match in `a + " " + b` exists iff there is one in `a` or in `b` |
| `Text.Decimal` | pdf_parser.py:167 | the rendering of a number is a non-empty string of digits |
| `Text.DecimalValueOfDecimal` | pdf_parser.py:167 | reading the digits back gives the number (round trip) |
| `Text.DecimalInjective` | pdf_parser.py:167 | different numbers render differently |
| `Text.DigitsBeforeMark` | pdf_parser.py:167 | two digit strings followed by the same non-digit mark can be split apart uniquely |
| `Text.IsSpace` | pdf_parser.py:47 | definition: the characters Python's `str.isspace` accepts, which `strip()` removes |
| `Text.AllSpace` | pdf_parser.py:47-49 | definition: a text made only of whitespace, the lines `if not text` drops |
| `Text.IsStripped` | pdf_parser.py:47 | definition: empty, or starting and ending with a non-whitespace character |
| `Text.Concat` | pdf_parser.py:47 | definition: `"".join` of the glyph texts |
| `Text.JoinLines` | pdf_parser.py:214 | definition: `"\n".join`, inverted by `SplitLines` (see `Text.SplitJoinLines`) |
| `Text.SplitLines` | pdf_parser.py:214 | definition: splitting at newlines, the inverse used to state that paragraphs keep their lines; at least one piece |
| `Text.JoinSpace` | pdf_parser.py:53 | definition: `" ".join` of the font names |
| `Text.Fold` | pdf_parser.py:61 | definition: the case folding of `re.I` on the letters of the bold pattern; a space stays a space |
| `Text.MatchesAt` | pdf_parser.py:61 | definition: a case-insensitive match of the pattern at one position |
| `Text.ContainsFolded` | pdf_parser.py:61 | definition: `re.search` of a literal word with `re.I`: a match at some position |
| `Text.IsDigit` | pdf_parser.py:167 | definition: an ASCII decimal digit |
| `Text.DecimalValue` | pdf_parser.py:167 | definition: the value of a digit string, the inverse of `Decimal` |
| `Text.DigitChar` | pdf_parser.py:167 | the digit character of a number below 10 is a digit |
| `Text.NoNewline` | pdf_parser.py:214 | definition: a text without a newline character |
| `Text.SplitNoNewline` | pdf_parser.py:214 | a newline-free text splits into itself, and a newline after it starts the next piece |
| `Lines.LineOf` | pdf_parser.py:27-34 | a line is no longer than the page; what it holds is stated by `LineOfMembers` and `LineOfIndices` |
| `Lines.LineIndices` | pdf_parser.py:27-34 | the positions of the glyphs whose rounded top is `k`: strictly increasing, in range, each matching, and every matching position listed |
| `Lines.LineOfIndices` | pdf_parser.py:27-34 | a line is exactly the page's glyphs at those positions, in page order: a sub-list that leaves no matching glyph out |
| `Lines.LineOfMembers` | pdf_parser.py:27-34 | a glyph is in key `k`'s line iff it is on the page and its rounded top is `k`; each glyph value occurs in its own key's line exactly as often as on the page and in no other line (multiset), so the lines partition the glyphs |
| `Lines.KeySet` | pdf_parser.py:27-31 | the keys are exactly the rounded tops of the page's glyphs |
| `Lines.LineOfNonEmpty` | pdf_parser.py:30-31 | a key's line is non-empty iff the key is one of the page's keys |
| `Lines.GroupByTop` | pdf_parser.py:27-34 | the loop builds a map whose keys are the page's keys, each mapped to `LineOf` that key, a non-empty line (page order by `LineOfIndices`) |
| `Lines.MinimumExists` | pdf_parser.py:46 | a non-empty finite key set has a least element |
| `Lines.SortKeys` | pdf_parser.py:46 | `sorted(lines_map.keys())`: each key once, strictly ascending, no other value |
| `Lines.StrictlyAscending` | pdf_parser.py:46 | definition: each key below the next |
| `Lines.IsLeast` | pdf_parser.py:46 | definition: the least key of a set |
| `Scoring.Max` | pdf_parser.py:42 | `max(sizes)` is one of the sizes and is at least every size |
| `Scoring.Insert` | pdf_parser.py:43 | insertion into a sorted list keeps it sorted and adds exactly one occurrence of the element |
| `Scoring.SortReals` | pdf_parser.py:43 | `sorted(sizes)` is sorted and a permutation of `sizes` |
| `Scoring.CountPermutation` | pdf_parser.py:43 | a permutation has the same number of values below any bound |
| `Scoring.PositiveSizes` | pdf_parser.py:37 | the kept sizes are empty iff no glyph has a positive size |
| `Scoring.Median` | pdf_parser.py:43 | the median is one of the sizes |
| `Scoring.MedianIsLowerMiddle` | pdf_parser.py:43 | at most `n//2` sizes are below the median and at least `n//2 + 1` are at most it (the element at index `n//2` of the sorted sizes) |
| `Scoring.PageStats` | pdf_parser.py:37-43 | statistics exist iff some glyph has a positive size (otherwise the page is skipped) |
| `Scoring.PageStatsFacts` | pdf_parser.py:37-43 | with no glyphs, or no positive size, there are no statistics; otherwise largest and median are sizes, median ≤ largest, largest bounds all sizes, and median is `sorted(sizes)[len(sizes)//2]` |
| `Scoring.Clamp01` | pdf_parser.py:58 | `max(0, min(1, x))` lies in [0,1], is the identity on [0,1] and saturates outside it |
| `Scoring.SizeScore` | pdf_parser.py:56-58 | the size score lies in [0,1]; it is 0 at or below the median; it is 1 at or above the largest size when the spread is at least 0.1 |
| `Scoring.SizeScoreMonotone` | pdf_parser.py:56-58 | a larger average size never scores lower |
| `Scoring.QuotientMonotone` | pdf_parser.py:57 | division by the positive denominator preserves order |
| `Scoring.QuotientSign` | pdf_parser.py:57 | over a positive denominator, a non-positive numerator gives at most 0 and a numerator at least the denominator gives at least 1 |
| `Scoring.BoldInJoinedFonts` | pdf_parser.py:53-61 | the pattern matches the space-joined font names iff it matches some single font name |
| `Scoring.BoldScore` | pdf_parser.py:61 | the bold score is 0 or 1, and it is 1 iff some font name of the line matches Bold, Black, Heavy or Bd case-insensitively |
| `Scoring.BoldFontsOfLine` | pdf_parser.py:53-61 | a matching name among the line's fonts is a matching font of one of its glyphs |
| `Scoring.PosScore` | pdf_parser.py:63-68 | the position score is 0 with unknown (0) height and never negative; it is at least 0.85 in the header zone; it is at most 1 for non-negative top and height |
| `Scoring.PosScoreMonotone` | pdf_parser.py:63-68 | a line higher on the page never scores lower |
| `Scoring.Filter` | pdf_parser.py:71 | the comprehension keeps exactly the characters satisfying the test, and is empty iff none does |
| `Scoring.FilterKeepsAll` | pdf_parser.py:71 | when every character passes, the filter changes nothing |
| `Scoring.UpperScore` | pdf_parser.py:70-73 | the uppercase score lies in [0,1] |
| `Scoring.RatioBounds` | pdf_parser.py:72 | a part over a non-zero whole lies in [0,1] and is 1 when part equals whole |
| `Scoring.UpperScoreNoLetters` | pdf_parser.py:72 | a line without letters scores 0 |
| `Scoring.UpperScoreNoCapitals` | pdf_parser.py:72-73 | a line whose letters are all lower case scores 0 |
| `Scoring.UpperScoreAllCapitals` | pdf_parser.py:72-73 | a line with letters, all upper case, scores 1 (ratio 1 × 1.2, capped) |
| `Scoring.Weighted` | pdf_parser.py:76 | the weighted score of component scores in [0,1] lies in [0,1] |
| `Scoring.Texts` | pdf_parser.py:32 | the line's texts, glyph by glyph |
| `Scoring.Fonts` | pdf_parser.py:34 | the line's font names, glyph by glyph |
| `Scoring.LineText` | pdf_parser.py:47 | a line's text is stripped |
| `Scoring.ScoreLine` | pdf_parser.py:51-87 | the debug record carries the page and the key it was scored for |
| `Scoring.ScoreLineFacts` | pdf_parser.py:51-87 | the record's height, largest size and stripped text come from the page; its size and uppercase scores lie in [0,1]; its bold score is 0/1 and is 1 iff some glyph's font is bold; its position score is 0 with unknown height; for non-negative top and height, the position and weighted scores lie in [0,1]; `is_heading` iff score ≥ threshold |
| `Scoring.DefaultsNeedSize` | pdf_parser.py:8-77 | with the default threshold 0.45, a line no larger than the page median is never a heading, whatever its font, position or case (their weights sum to 0.4) |
| `Scoring.DefaultsLargestIsHeading` | pdf_parser.py:8-77 | with the default threshold 0.45, a line at the page's largest size, on a page whose sizes spread by at least 0.1, is always a heading |
| `Scoring.Sorted` | pdf_parser.py:43 | definition: non-decreasing order of sizes |
| `Scoring.Count` | pdf_parser.py:43 | definition: how many sizes lie below (or at most) a bound, used to characterize the median |
| `Scoring.Below` | pdf_parser.py:43 | definition: below a bound, strictly or not |
| `Scoring.CountAppend` | pdf_parser.py:43 | counts add over concatenation |
| `Scoring.CountRemove` | pdf_parser.py:43 | removing one element lowers the count by one exactly when that element is below the bound, and removes one occurrence from the multiset |
| `Scoring.SortedCons` | pdf_parser.py:43 | a head at most every element of a sorted tail gives a sorted list |
| `Scoring.SortedTail` | pdf_parser.py:43 | the tail of a sorted list is sorted and bounded below by the head |
| `Scoring.SortedSplit` | pdf_parser.py:43 | in a sorted list at most `h` elements lie strictly below the element at index `h`, and at least `h + 1` lie at or below it |
| `Scoring.SortedBelow` | pdf_parser.py:43 | in a sorted list at most `h` elements lie strictly below the element at index `h` |
| `Scoring.SortedAtMost` | pdf_parser.py:43 | in a sorted list at least `h + 1` elements lie at or below the element at index `h` |
| `Scoring.CountBelowPrefix` | pdf_parser.py:43 | when no later element is smaller, at most `h` elements lie strictly below the element at index `h` |
| `Scoring.CountAtMostPrefix` | pdf_parser.py:43 | when no earlier element is larger, at least `h + 1` elements lie at or below the element at index `h` |
| `Scoring.CountAtMostLeading` | pdf_parser.py:43 | when only the first `n` elements can be below the bound, the count is at most `n` |
| `Scoring.CountAtLeastLeading` | pdf_parser.py:43 | when the first `n` elements are below the bound, the count is at least `n` |
| `Scoring.NoneSatisfy` | pdf_parser.py:43 | when no element is below the bound, the count is 0 |
| `Scoring.SumSizes` | pdf_parser.py:51 | definition: `sum` of a line's glyph sizes |
| `Scoring.BoldFont` | pdf_parser.py:61 | definition: the pattern `Bold|Black|Heavy|Bd` occurs in the name, case-insensitively |
| `Detect.LineAt` | pdf_parser.py:46-87 | the scored line of key `k` on page `pnum` is recorded with that page and that top |
| `Detect.ScoreAt` | pdf_parser.py:46-49 | a key yields a debug line only for its own page and top |
| `Detect.ScoreKey` | pdf_parser.py:46-87 | one key's iteration yields exactly the key's specified outcome: none for a blank line, otherwise its scored line |
| `Detect.ScoreKeys` | pdf_parser.py:46-87 | the key loop produces exactly the specification's line list |
| `Detect.KeyedLines` | pdf_parser.py:46-49 | a page yields at most one line per key |
| `Detect.KeyedPrefix` | pdf_parser.py:46-49 | one more key appends its outcome, when there is one |
| `Detect.KeepsKey` | pdf_parser.py:46-49 | definition: each outcome carries its own key as `top` |
| `Detect.TopSet` | pdf_parser.py:46-49 | the tops of a line list, as a set containing each line's top |
| `Detect.KeyedLinesSound` | pdf_parser.py:46-49 | every produced line comes from a visited key, as that key's scored line |
| `Detect.KeyedLinesAscending` | pdf_parser.py:46-49 | visiting keys in ascending order produces lines with strictly ascending tops |
| `Detect.KeyedLinesComplete` | pdf_parser.py:46-49 | every visited key with a non-blank line is represented |
| `Detect.OnPageKey` | pdf_parser.py:46-49 | a key that yields a line is one of the page's keys |
| `Detect.PageLines` | pdf_parser.py:46-49 | the page's lines have strictly ascending tops, each is its key's scored line, and every non-blank line of the page is present |
| `Detect.ScorePage` | pdf_parser.py:36-49 | a page without positive sizes yields no lines; otherwise the lines are on this page, strictly ascending by top, each exactly its key's scored line, and no non-blank line is missing |
| `Detect.SelectedPageLines` | pdf_parser.py:18-24 | an unselected page yields nothing; a selected page's lines are ascending, from the document, and complete |
| `Detect.PageOutcome` | pdf_parser.py:18-49 | a selected page's scored lines are lines of the document, and all of that page's expected lines are present |
| `Detect.BuiltExtend` | pdf_parser.py:18-24 | appending page `n+1`'s lines extends the document invariant from `n` pages to `n+1` |
| `Detect.AppendFromDocument` | pdf_parser.py:18-24 | appending lines of the document to lines of the document keeps every line from the document |
| `Detect.AppendYields` | pdf_parser.py:18-24 | completeness for pages up to `n` and for page `n+1` gives completeness up to `n+1` |
| `Detect.AppendInOrder` | pdf_parser.py:18-49 | appending an ascending page after earlier pages keeps reading order by `(page, top)` |
| `Detect.AppendAll` | pdf_parser.py:18-24 | a property of every line survives concatenation |
| `Detect.AppendComplete` | pdf_parser.py:18-24 | a completeness property survives appending the next page |
| `Detect.AppendLines` | pdf_parser.py:79-93 | appending lines to debug keeps `headings` equal to the heading filter of `debug` |
| `Detect.Positions` | pdf_parser.py:79-80 | the `(page, top)` positions, line by line |
| `Detect.HeadingsOf` | pdf_parser.py:89-93 | there are no more headings than debug lines |
| `Detect.HeadingsOfMembers` | pdf_parser.py:89-93 | every heading entry is the compact form of a debug line with `is_heading`, and every such line has its entry |
| `Detect.HeadingsOfAppend` | pdf_parser.py:89-93 | the heading filter distributes over concatenation (page order is kept) |
| `Detect.DetectHeadings` | pdf_parser.py:8-97 | debug is in reading order; every debug line is a non-blank line of a selected page, scored as specified; every such line is present; headings are exactly the heading filter of debug |
| `Detect.InsertByKey` | pdf_parser.py:95 | insertion by `(page, top, -score)` adds exactly one element and keeps every other element (multiset) |
| `Detect.CutPoint` | pdf_parser.py:95 | the insertion point: every entry before it has a key strictly below the new element's, and the entry at it does not |
| `Detect.InsertAtCut` | pdf_parser.py:95 | the new element goes in at the cut point, and the input keeps its order on both sides, so equal keys stay in input order (stable) |
| `Detect.SortDebug` | pdf_parser.py:95 | the final sort returns a permutation of its input, ordered by the key `(page, top, -score)` |
| `Detect.SortDebugKeepsOrdered` | pdf_parser.py:95 | on lines already in reading order, the final sort is the identity |
| `Detect.KeyAtMost` | pdf_parser.py:95 | definition: the key `(page, top, -score)` of one line is at most the other's |
| `Detect.KeyAtMostTotal` | pdf_parser.py:95 | any two keys are comparable |
| `Detect.KeyAtMostTransitive` | pdf_parser.py:95 | the key order is transitive |
| `Detect.KeySorted` | pdf_parser.py:95 | definition: ordered by the sort key |
| `Detect.InsertBounded` | pdf_parser.py:95 | a key lower bound of the inserted line and of every listed line bounds every line of the insertion |
| `Detect.InsertSorted` | pdf_parser.py:95 | insertion into a list ordered by key keeps it ordered by key |
| `Detect.Selected` | pdf_parser.py:15-20 | definition: the page filter `{page_number}`, or every page when no number is given |
| `Detect.OnPage` | pdf_parser.py:36-49 | definition: a key yields a debug line when the page has a positive size and the key's line is not blank |
| `Detect.Yields` | pdf_parser.py:18-49 | definition: page `p` of the document is selected and its key `k` yields a line |
| `Detect.FromDocument` | pdf_parser.py:18-87 | definition: a line is the scored line of a yielding key of a selected page |
| `Detect.Before` | pdf_parser.py:95 | definition: reading order, by page then by top |
| `Detect.InReadingOrder` | pdf_parser.py:95 | definition: every line before the next in reading order |
| `Detect.Compact` | pdf_parser.py:90-93 | definition: the heading entry `page, top, text, avg_size, score` of a debug line |
| `Detect.Built` | pdf_parser.py:18-24 | definition: the document loop's invariant after `n` pages |
| `Segment.MaxSize` | pdf_parser.py:207-208 | `max_size` is 0 for no lines; otherwise it bounds every line's size, heading or not, and is attained by one |
| `Segment.Close` | pdf_parser.py:210-223 | a flush empties the buffer and keeps section and subsection |
| `Segment.FlushParagraph` | pdf_parser.py:210-223 | the flush method computes the specified flush of the state |
| `Segment.ReadLine` | pdf_parser.py:225-249 | one line's iteration computes the specified step of the state |
| `Segment.FeedPrefix` | pdf_parser.py:225-249 | feeding one more line is one more step |
| `Segment.SegmentPage` | pdf_parser.py:202-251 | the page's content list is the specified segmentation of its lines |
| `Segment.HeadingNodesAppendParagraph` | pdf_parser.py:216-222 | a paragraph node adds no heading |
| `Segment.HeadingNodesAppendHeading` | pdf_parser.py:239-246 | a heading node adds its text and size |
| `Segment.CloseHeadings` | pdf_parser.py:210-223 | a flush emits no heading |
| `Segment.AdvanceHeadings` | pdf_parser.py:225-249 | a line adds one heading node with its text and size iff it is a heading line |
| `Segment.FeedHeadings` | pdf_parser.py:225-249 | the heading nodes after the loop are the heading lines, in order |
| `Segment.SegmentedHeadings` | pdf_parser.py:225-251 | the content has exactly one heading node per heading line, in order, with its stripped text and size |
| `Segment.AppendLabelled` | pdf_parser.py:230-246 | appending a correctly labelled node keeps the whole list correctly labelled |
| `Segment.CloseLabels` | pdf_parser.py:210-223 | a flush keeps the labelling invariant |
| `Segment.AdvanceLabels` | pdf_parser.py:225-249 | a line keeps the labelling invariant |
| `Segment.FeedLabels` | pdf_parser.py:225-249 | the labelling invariant holds after any prefix of the lines |
| `Segment.SegmentedLabels` | pdf_parser.py:210-251 | a heading at the page maximum sets the section and clears the subsection; any other heading sets the subsection and keeps the section; a paragraph carries the labels in force before the heading that flushed it |
| `Segment.HeadingLevels` | pdf_parser.py:207-237 | a heading node has no subsection iff its size is the page's largest line size (non-heading lines included); it then is its own section, otherwise its own subsection |
| `Segment.LevelOfHeading` | pdf_parser.py:233-237 | the section/subsection level of a heading node follows from its size against the maximum |
| `Segment.HeadingNodeIsLine` | pdf_parser.py:239-246 | a heading node's size is the size of some line of the page |
| `Segment.HeadingNodesMember` | pdf_parser.py:239-246 | every heading node is listed among the heading nodes |
| `Segment.HeadingLinesMember` | pdf_parser.py:225-230 | every heading line's size is the size of some line |
| `Segment.AppendShaped` | pdf_parser.py:213-223 | appending a non-empty stripped paragraph after a heading or at the start keeps the content shaped |
| `Segment.CloseShape` | pdf_parser.py:210-223 | a flush keeps paragraphs non-empty and stripped |
| `Segment.AdvanceShape` | pdf_parser.py:225-249 | a line keeps the content shaped and the buffer free of blank lines |
| `Segment.FeedShape` | pdf_parser.py:225-249 | the shape invariant holds after any prefix of the lines |
| `Segment.SegmentedParagraphs` | pdf_parser.py:210-251 | every paragraph is non-empty and stripped, and is never followed by another paragraph (only a heading flushes a buffer) |
| `Segment.PiecesAppend` | pdf_parser.py:216-246 | a node contributes its text, or its paragraph's lines, to the reconstruction |
| `Segment.ParagraphOfSolid` | pdf_parser.py:214 | for a buffer of non-empty stripped lines, the paragraph text is their plain newline join and is non-empty and stripped |
| `Segment.ClosePieces` | pdf_parser.py:210-223 | a flush moves the buffered lines into the reconstruction unchanged |
| `Segment.AdvancePieces` | pdf_parser.py:225-249 | a line adds its stripped text to the reconstruction iff it is a heading or non-blank |
| `Segment.FlushReady` | pdf_parser.py:213-215 | a shaped non-empty buffer always produces a paragraph |
| `Segment.FeedPieces` | pdf_parser.py:225-249 | the reconstruction plus the buffer equals the kept line texts, after any prefix |
| `Segment.SegmentedPieces` | pdf_parser.py:210-251 | the headings' texts and the paragraphs' split lines, in order, give back exactly the heading and non-blank line texts (the buffer is empty after the final flush) |
| `Segment.ParagraphText` | pdf_parser.py:214 | definition: the buffered lines stripped, newline-joined and stripped |
| `Segment.Flush` | pdf_parser.py:210-223 | definition: `flush_paragraph` on the state; see `Segment.Close` and the Close* lemmas |
| `Segment.Advance` | pdf_parser.py:230-249 | definition: one line's effect given its paragraph text: flush then heading (section at the maximum, else subsection), buffer a non-blank line, or nothing |
| `Segment.Step` | pdf_parser.py:225-249 | definition: one iteration of the line loop |
| `Segment.Feed` | pdf_parser.py:225-249 | definition: the state after the line loop over a prefix of the lines |
| `Segment.Segmented` | pdf_parser.py:202-251 | definition: the page's content list, the line loop then the final flush; characterized by `SegmentedHeadings`, `SegmentedLabels`, `HeadingLevels`, `SegmentedParagraphs` and `SegmentedPieces` |
| `Segment.HeadingNodes` | pdf_parser.py:239-246 | definition: the text and size of each heading node, in order |
| `Segment.HeadingLines` | pdf_parser.py:225-246 | definition: the stripped text and size of each heading line, in order |
| `Segment.LabelsAfter` | pdf_parser.py:203-204 | definition: the section and subsection in force after a content list |
| `Segment.NodeLabelled` | pdf_parser.py:230-246 | definition: the labels one node must carry, given those in force before it |
| `Segment.WellLabelled` | pdf_parser.py:230-246 | definition: every node carries the labels the source assigns it |
| `Segment.LabelsHold` | pdf_parser.py:203-246 | definition: the state's labels are those of its last node, and every node is well labelled |
| `Segment.Solid` | pdf_parser.py:213-223 | definition: a non-empty stripped paragraph |
| `Segment.ContentShaped` | pdf_parser.py:213-246 | definition: paragraphs are solid and each is followed by a heading |
| `Segment.EndsClosed` | pdf_parser.py:231 | definition: the content is empty or ends with a heading |
| `Segment.SolidLines` | pdf_parser.py:248-249 | definition: the buffer holds only solid lines |
| `Segment.Shaped` | pdf_parser.py:213-249 | definition: the shape of a state between two lines |
| `Segment.NoNewlines` | pdf_parser.py:214 | definition: no buffered line contains a newline |
| `Segment.NoNewlineLines` | pdf_parser.py:226 | definition: no stripped line text contains a newline |
| `Segment.Pieces` | pdf_parser.py:216-246 | definition: the heading texts and paragraph lines of a content list, in order |
| `Segment.LineItems` | pdf_parser.py:225-249 | definition: the stripped texts of the heading and non-blank lines, in order |
| `Segment.Item` | pdf_parser.py:226-249 | definition: a line's stripped text, unless it is a blank non-heading line |
| `PageContent.OfPage` | pdf_parser.py:193-197 | a page's group holds only kept lines of that page |
| `PageContent.GroupByPage` | pdf_parser.py:192-197 | the grouping loop builds the specified `page_dict` |
| `PageContent.GroupedPages` | pdf_parser.py:192-197 | a page is a key of `page_dict` iff it has a kept line, and its group is its kept lines in order |
| `PageContent.OfPageMember` | pdf_parser.py:193-197 | a line is in page `p`'s group iff it is a line on page `p` that the filter keeps |
| `PageContent.SmallestPage` | pdf_parser.py:201 | a non-empty set of page numbers has a smallest one |
| `PageContent.SortPages` | pdf_parser.py:201 | `sorted(page_dict.items())` visits each page once, strictly ascending |
| `PageContent.SegmentPages` | pdf_parser.py:201-251 | each visited page is segmented in order |
| `PageContent.SegmentsFacts` | pdf_parser.py:201-251 | the page loop yields one entry per page, with that page's segmented group |
| `PageContent.Assembled` | pdf_parser.py:199-251 | the sorted pages with their segmented groups are exactly the pages with kept lines |
| `PageContent.PageContents` | pdf_parser.py:192-251 | the per-page contents are strictly ascending by page; a page appears iff it has a kept line; each page's content is the segmentation of its kept lines |
| `PageContent.Kept` | pdf_parser.py:195-196 | definition: the filter `if page_number and page_num != page_number: continue` |
| `PageContent.Grouped` | pdf_parser.py:192-197 | definition: `page_dict` after a prefix of the lines; characterized by `GroupedPages` |
| `PageContent.Ascending` | pdf_parser.py:201 | definition: strictly ascending page numbers |
| `PageContent.Segments` | pdf_parser.py:201-251 | definition: each page of the order with its group segmented; characterized by `SegmentsFacts` |
| `Images.MakeRecord` | pdf_parser.py:161-179 | the extension defaults to `png`; the path is the output directory joined with `page{p}_img{n}.{ext}` |
| `Images.PageRecords` | pdf_parser.py:152-179 | one record per newly seen image of the page |
| `Images.PageRecordsAt` | pdf_parser.py:152-179 | the `k`-th new image of a page is numbered `k+1` |
| `Images.FreshOfStep` | pdf_parser.py:153-158 | an image is new iff not seen before on earlier pages or earlier on this page |
| `Images.PageRecordsAppend` | pdf_parser.py:159-179 | a new image appends one record with the next counter value |
| `Images.VisitImage` | pdf_parser.py:153-179 | a seen xref changes nothing; a new one is marked seen, bumps the counter and appends its record |
| `Images.ScanPage` | pdf_parser.py:152-179 | one page's loop adds the page's xrefs to the seen set and appends exactly the records of its new images |
| `Images.ScanStep` | pdf_parser.py:153-179 | one new image extends the page's records by one |
| `Images.DocPrefix` | pdf_parser.py:142-150 | visiting one more page extends the seen set and the records by that page's contribution |
| `Images.ElemsStep` | pdf_parser.py:155-158 | one more xref adds it to the set |
| `Images.ExtractImages` | pdf_parser.py:130-181 | the extraction loop produces exactly the specified records |
| `Images.FreshOfFacts` | pdf_parser.py:153-158 | a page's new images are distinct, and are exactly its images not seen before |
| `Images.Xrefs` | pdf_parser.py:155 | the xrefs of the records, one by one |
| `Images.PageRecordsXrefs` | pdf_parser.py:155-179 | a page's records carry exactly its new xrefs, in order |
| `Images.DistinctAppend` | pdf_parser.py:156-158 | disjoint duplicate-free lists concatenate to a duplicate-free list |
| `Images.XrefsAppend` | pdf_parser.py:173 | the xrefs of concatenated records concatenate |
| `Images.DocRecordsXrefs` | pdf_parser.py:131-158 | no xref is extracted twice in the document, and an xref is extracted iff it appears on a selected page |
| `Images.NumberedAppend` | pdf_parser.py:152-159 | a page block numbered 1, 2, … after earlier pages keeps the numbering invariant |
| `Images.DocRecordsPages` | pdf_parser.py:142-144 | every record's page is a selected page of the document |
| `Images.DocRecordsNumbered` | pdf_parser.py:152-159 | records are grouped by ascending page, and each page's counter runs 1, 2, … |
| `Images.FileNameShape` | pdf_parser.py:167 | the file name is `page`, digits, `_img`, digits, `.`, extension |
| `Images.FileNameInjective` | pdf_parser.py:167 | equal file names have equal page and counter |
| `Images.JoinPathInjective` | pdf_parser.py:168 | within one output directory, equal paths have equal file names |
| `Images.NumberedPairsDistinct` | pdf_parser.py:152-167 | two different records differ in page or in counter |
| `Images.DocPathsDistinct` | pdf_parser.py:152-168 | no two records share a path, so no file is overwritten |
| `Images.DocRecordsPaths` | pdf_parser.py:161-168 | every record's path is `page{p}_img{n}.{ext}` for its page and counter (both ≥ 1), with the image's extension or `png` |
| `Images.Selected` | pdf_parser.py:133-144 | definition: the page filter; no filter, or an empty (falsy) set, selects every page |
| `Images.JoinPath` | pdf_parser.py:168 | definition: POSIX `os.path.join` of the output directory and a relative name |
| `Images.FileName` | pdf_parser.py:167 | definition: `f"page{pnum}_img{img_counter}.{ext}"` |
| `Images.Elems` | pdf_parser.py:155-158 | definition: the xrefs of a list, as a set |
| `Images.FreshOf` | pdf_parser.py:153-158 | definition: a page's xrefs not seen before, in order, each once |
| `Images.SeenIn` | pdf_parser.py:131-158 | definition: `seen_xrefs` after a prefix of the pages |
| `Images.DocRecords` | pdf_parser.py:140-181 | definition: `results` after a prefix of the pages; characterized by `DocRecordsXrefs`, `DocRecordsNumbered`, `DocRecordsPages`, `DocRecordsPaths` and `DocPathsDistinct` |
| `Images.Distinct` | pdf_parser.py:156-158 | definition: no xref twice |
| `Images.Numbered` | pdf_parser.py:152-159 | definition: pages ascend and each page's counter runs 1, 2, … |
| `Images.Block` | pdf_parser.py:152-159 | definition: one page's records, numbered 1, 2, … |
| `Tables.CleanCell` | pdf_parser.py:116 | a present cell keeps its text; a missing cell becomes `""` |
| `Tables.CleanTable` | pdf_parser.py:116 | cleaning keeps the table's shape and cleans each cell in place |
| `Tables.CleanTableSame` | pdf_parser.py:116 | two tables clean to the same rows iff they have the same shape and agree cell by cell up to missing vs empty |
| `Tables.Present` | pdf_parser.py:116 | wraps every cell of cleaned rows as present, keeping the shape |
| `Tables.CleanTableFixedPoint` | pdf_parser.py:116 | cleaning already cleaned rows changes nothing |
| `Tables.PageEntries` | pdf_parser.py:115-121 | one entry per table of the page, with the page number and the cleaned rows |
| `Tables.StructuredPrefix` | pdf_parser.py:109-121 | one more page appends its entries iff it is selected |
| `Tables.PageEntriesPrefix` | pdf_parser.py:115-121 | one more table appends one entry |
| `Tables.AppendTables` | pdf_parser.py:115-121 | the table loop appends exactly the page's entries |
| `Tables.ExtractTables` | pdf_parser.py:101-122 | the page loop produces exactly the specified entries |
| `Tables.StructuredPages` | pdf_parser.py:109-111 | every entry's page is a selected page of the document |
| `Tables.AscendAppend` | pdf_parser.py:109-121 | a later page's entries after earlier ones keep page order |
| `Tables.StructuredAscending` | pdf_parser.py:109-121 | entries are in non-decreasing page order |
| `Tables.StructuredCount` | pdf_parser.py:112-121 | the number of entries is the number of tables on the selected pages |
| `Tables.SameCell` | pdf_parser.py:116 | definition: equal, or one missing and the other empty |
| `Tables.SameShape` | pdf_parser.py:116 | definition: the same number of rows, row by row the same number of cells |
| `Tables.Selected` | pdf_parser.py:104-111 | definition: the page filter `{page_number}`, or every page when no number is given |
| `Tables.Structured` | pdf_parser.py:103-121 | definition: `tables_structured` after a prefix of the pages; characterized by `StructuredPages`, `StructuredAscending` and `StructuredCount` |
| `Tables.PagesAscend` | pdf_parser.py:109-121 | definition: entries in non-decreasing page order |
| `Tables.TableCount` | pdf_parser.py:112-121 | definition: the number of tables on the selected pages |

## Left out

- PDF opening and reading through pdfplumber and PyMuPDF. The glyphs, page heights, image xref lists, image data and raw tables are inputs.
- Writing image bytes to disk and creating the output directory. Image bytes are not modelled; the records keep path, page, extension, width and height.
- `pdf_to_json` and app.py (the web front end): outside the core.
- The assembly tail of `page_content` (pdf_parser.py:253-279). It appends tables and images and builds the result using only the last page's variables, and it references unbound names when no page has lines. `PageContent.PageContents` therefore returns every page's content list, one per page with kept lines, and stops before that tail.
- `common_size` (pdf_parser.py:40-41). The mode of the sizes is only copied into the debug records and influences no score, so it is not computed.
- Floating point: sizes, tops and scores are exact reals. `round(x, 1)` is an abstract function parameter. The `round(…, 2)` and `round(…, 3)` applied to the stored debug and heading scores are not modelled; the stored scores are the exact ones.
- `str.isalpha` and `str.isupper` are abstract predicates. `str.strip` uses Python's whitespace set, written out. The bold regex `Bold|Black|Heavy|Bd` with `re.I` is modelled as a case-insensitive substring search over those four words.
- Defaults for missing glyph fields (`c.get("top", 0)` and similar) are not modelled: every glyph carries all four fields.
- `Images.ExtractImages`: the page filter is a set of page numbers. The source's `isinstance(page_number, int)` branch makes a one-element set, which callers pass directly.
- `Images.JoinPath`: POSIX joining only. The directory and the name are joined with `/`. Windows joining with `\`, drive letters, and an absolute name that resets the path (as `ntpath.join` does) are not modelled.
- `Images.ImageRecord` carries `xref` and the per-page counter `index` as extra fields, so that properties can name them.
- `Segment.SegmentedPieces` requires that no stripped line text contains a newline. The reconstruction through `"\n".join` is only unique under that condition; a glyph text holding `"\n"` is not covered.
- `Detect.DetectHeadings`: the headings' stored score is the exact score, not `round(score, 3)`.
