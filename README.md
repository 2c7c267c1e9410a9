# ISO/IEC/IEEE 24765 glossary extractor — a Dafny model

The extractor turns the text of the ISO/IEC/IEEE 24765:2017 vocabulary PDF
into a list of glossary entries. Each entry has an identifier such as `3.17`,
a term, and a description. This project models the part that works on text:

- **Cleaning filters.** Three line filters (`remove_header_blocks`,
  `remove_footer_blocks`, `delete_figure_lines`) strip every line. Each one
  drops the page furniture it recognises, counts the lines it drops by
  category, and keeps blank lines as empty lines.
- **The cut.** `delete_lines_before_3_1` drops everything before the first
  line that contains `3.1`.
- **The segmenter.** `extract_words_and_descriptions` walks the cleaned
  lines. A line matching `^3\.\d+$` starts an entry, and the next line is
  its term. Later non-blank lines are the description.
  `_process_description_lines` joins those lines with a space. A line
  starting `cf. `, `EXAMPLE: ` or `Note 1 to entry: ` goes after a line
  break instead.
- **The entry point's order.** Header filter, footer filter, cut, figure
  filter, then the segmenter.

Modules:

- `Text` models the Python string built-ins the code relies on:
  - `split('\n')`, which always yields at least one piece;
  - `'\n'.join`;
  - `strip()`, with the full `str.isspace()` set;
  - `startswith`, and substring `in`.
- `IntegerSyntax` models `is_integer`, which is whether `int()` accepts the
  string. It is a scanner over the grammar `int()` accepts: surrounding
  white space, an optional sign, and decimal digits with single underscores
  between digits.
- `PdfProcessor` holds the three filters and the cut:
  - Each filter is a loop-and-counter `method`, proved equal to
    `FilterText(verdict, text) = Join(Clean(verdict, Split(text)))`.
  - Its counters are proved equal to `Tally` of each category.
  - The properties of `Clean`, `Tally` and the cut are lemmas.
- `Description` holds the description-joining rule. `ProcessDescriptionLines`
  is the loop, proved equal to the fold `Joined`. `Joined` is related to an
  independent reading, `Continuation`: first line, then separator plus line.
- `DataExtractor` holds the segmenter:
  - A declarative specification: `Heads` gives the identifier lines the scan
    takes, `Gather` the description lines, and `Segment` the entries.
  - The scan itself, as a `while` loop, proved equal to `Segment`.
  - The properties of `Segment`.
- `Pipeline` holds the order used by `src/main.py`, and what the cleaned
  text and the entries satisfy as a result.
- `Sequences` holds generic slicing identities.
- `Optional` is `Option`.

The joining rule is a parameter (`JoinStrategy`):

- `SemanticJoin` is what the code does.
- `LiteralNewlineJoin` joins every line with a line break, which is what
  `tests/test_data_extractor.py:16` expects for two ordinary description
  lines.

The code and that test disagree. The model follows the code, and
`TwoLineEntry` and `StrategiesDiffer` prove that the two strategies give
different descriptions on exactly that kind of input.

`is_integer` uses `int()`, which accepts a sign and underscores between
digits, so `PageNumberExamples` shows `-3` and `1_000` dropped as page
numbers.

The rows below are stated against these reference functions:
- `IntegerSyntax.IsInteger`, which models `is_integer` (`src/pdf_processor.py:4-10`).
- `PdfProcessor.HeaderVerdict`, `FooterVerdict` and `FigureVerdict`, the test
  chains of `src/pdf_processor.py:80-96`, `31-48` and `120`.
- `PdfProcessor.CutBefore31`, the cut of `src/pdf_processor.py:139-146`.
- `Description.Joined`, the fold of `src/data_extractor.py:16-24`.
- `DataExtractor.Heads`, `Gather` and `Segment`, the declarative reading of
  `src/data_extractor.py:41-89`.
- `Pipeline.CleanedText`, the composition at `src/main.py:13-16`.

## Model

| member | source | states |
|---|---|---|
| IntegerSyntax.IsIntegerIff | src/pdf_processor.py:4-10 | `is_integer` holds exactly when the stripped string is an optional sign followed by ASCII digits in which every underscore sits between two digits |
| PdfProcessor.PageNumberExamples | src/pdf_processor.py:85-88 | the header filter drops `-3` and `1_000` as page numbers and keeps the identifier `3.1` |
| PdfProcessor.RemoveHeaderBlocks | src/pdf_processor.py:63-110 | the returned text is the stripped lines the header verdict keeps, joined by line breaks; each of the three counters equals the number of input lines in its category; their total is the number of lines removed |
| PdfProcessor.RemoveFooterBlocks | src/pdf_processor.py:12-61 | the same for the footer verdict and its four counters (licence, store order, single user, standard reference) |
| PdfProcessor.DeleteFigureLines | src/pdf_processor.py:112-127 | the same for figure captions; the count equals the number of lines removed |
| PdfProcessor.KeptIff | src/pdf_processor.py:77-98 | for a stripped line, each filter keeps it exactly when it is empty or matches none of that filter's tests; both directions |
| PdfProcessor.CleanExact | src/pdf_processor.py:28-50 | a line is in a filter's output exactly when it is the strip of some input line that the filter keeps |
| PdfProcessor.CleanSurvivors | src/pdf_processor.py:77-98 | every output line is stripped, has no line break and is kept by the filter; there are never more output lines than input lines |
| PdfProcessor.CleanAppend | src/pdf_processor.py:118-123 | filtering distributes over concatenation, so surviving lines keep their relative order |
| PdfProcessor.CleanFixed | src/pdf_processor.py:118-123 | lines that are already stripped and kept pass through unchanged |
| PdfProcessor.CleanKeepsBlank | src/pdf_processor.py:31-34 | under a filter that keeps the empty line, a line that strips to empty becomes an empty line at its own place, with the filtered lines before and after it on either side |
| PdfProcessor.BlankLinesKept | src/pdf_processor.py:80-83 | none of the three filters drops a white-space-only line; it becomes an empty line in place |
| PdfProcessor.TalliesCoverRemovals | src/pdf_processor.py:100-102 | for each filter, the category counts add up to the number of input lines minus the number of output lines |
| PdfProcessor.SplitFilterText | src/pdf_processor.py:110 | splitting a filter's output gives back the surviving lines, or a single empty line when none survives |
| PdfProcessor.FilterTextLines | src/pdf_processor.py:77-98 | every line of a filter's output is stripped and kept by the filter, and is either empty or the strip of an input line |
| PdfProcessor.CleanCommute | src/pdf_processor.py:28-50 | two filters applied one after the other leave the same lines in either order |
| PdfProcessor.FiltersCommute | src/main.py:13-16 | two filters that keep the empty line, as all three furniture filters do, give the same text in either order, so the header, footer and figure passes can run in any order |
| PdfProcessor.FilterTextIdempotent | src/pdf_processor.py:63-110 | running a filter on its own output changes nothing |
| PdfProcessor.FigureFreeTextUnchanged | src/pdf_processor.py:112-127 | a text of stripped lines without captions comes back from the figure filter unchanged |
| PdfProcessor.FirstAnchor | src/pdf_processor.py:131-137 | the result is None exactly when no line contains `3.1`; otherwise it is the index of a line containing it, and no earlier line does |
| PdfProcessor.DeleteLinesBefore31 | src/pdf_processor.py:129-146 | the reported anchor is the first line containing `3.1`, and the returned text is the cut |
| PdfProcessor.CutIsSuffix | src/pdf_processor.py:139-146 | without an anchor the text is returned as is; with one, the lines of the result are the input lines from the anchor on, unstripped, and the text is the dropped lines, a line break, then the result |
| PdfProcessor.CutKeepsLines | src/pdf_processor.py:146 | every line of the cut text is a line of the input |
| PdfProcessor.CutIdempotent | src/pdf_processor.py:129-146 | cutting an already cut text changes nothing |
| Text.Split | src/pdf_processor.py:28 | `split('\n')` gives at least one piece and no piece contains a line break |
| Text.JoinSplit | src/pdf_processor.py:146 | joining the pieces of a split with line breaks gives the text back |
| Text.SplitJoin | src/pdf_processor.py:61 | splitting the join of at least one line-break-free line gives the lines back |
| Text.JoinAppend | src/pdf_processor.py:146 | joining two non-empty runs of lines puts exactly one line break between them |
| Text.StripEmptyIff | src/pdf_processor.py:29-34 | a line strips to empty exactly when it is all white space |
| Text.StripIdempotent | src/pdf_processor.py:29 | stripping a stripped line changes nothing |
| Text.StripNoNewline | src/pdf_processor.py:29 | stripping adds no line break |
| Text.ContainsIff | src/pdf_processor.py:135 | the substring test holds exactly when the pattern occurs at some position |
| Description.ProcessDescriptionLines | src/data_extractor.py:7-24 | the loop's result is the left fold `Joined` of the lines |
| Description.JoinedShape | src/data_extractor.py:16-24 | with a non-empty first line, the description is that line followed, for each later line, by `\n` (if the line opens a block) or a space, and then the line |
| Description.JoinedEmptyIff | src/data_extractor.py:16-24 | the description is empty exactly when every line is empty |
| Description.JoinedMeasures | src/data_extractor.py:16-24 | the description is as long as the lines plus one separator per later line; when no line holds a line break, it holds exactly one per later block-opening line |
| Description.DescribeLines | src/data_extractor.py:62 | the description is built by the chosen strategy |
| Description.DescribeNonEmpty | src/data_extractor.py:58-63 | one or more lines, none of them empty, give a non-empty description under either strategy |
| Description.StrategiesDiffer | src/data_extractor.py:17-23 | two ordinary lines are joined with a space by the coded rule and with a line break by the literal one |
| DataExtractor.ExtractWordsAndDescriptions | src/data_extractor.py:26-89 | the scan's result equals the declarative segmentation `Segment` of the text under the given strategy |
| DataExtractor.SavePending | src/data_extractor.py:57-63 | the pending entry is appended exactly when its identifier, its term and its description lines are all present |
| DataExtractor.HeadsAreIdentifiers | src/data_extractor.py:56-73 | the lines taken as identifiers match `^3\.\d+$`, are in increasing order, and are at least two lines apart, so a term is never taken as an identifier |
| DataExtractor.NoIdentifierNoHeads | src/data_extractor.py:50-78 | without an identifier line, the scan takes no identifier |
| DataExtractor.GatherNonBlank | src/data_extractor.py:52-54 | description lines are non-blank lines from between an entry's term and the next identifier |
| DataExtractor.EntryAtWellFormed | src/data_extractor.py:58-63 | an identifier yields at most one entry, made of its own line, the next line and a non-empty description |
| DataExtractor.BlocksWellFormed | src/data_extractor.py:56-86 | there are no more entries than identifiers, and each entry is well formed and built from one of them |
| DataExtractor.SegmentWellFormed | src/data_extractor.py:26-89 | every entry has an identifier, a non-empty term and a non-empty description; its identifier and term are two consecutive stripped lines of the text; there are no more entries than identifiers |
| DataExtractor.NoIdentifierNoEntries | tests/test_data_extractor.py:32-39 | a text with no identifier line, the empty text included, gives no entries |
| DataExtractor.BlocksAgree | src/data_extractor.py:58-63 | the joining strategy changes only descriptions: same number of entries, same identifiers and terms |
| DataExtractor.StrategiesAgreeOnTerms | src/data_extractor.py:58-63 | the same for whole texts |
| DataExtractor.TwoLineEntry | tests/test_data_extractor.py:12-16 | an identifier, a term and two ordinary lines give one entry whose description joins the lines with a space under the coded rule, and with a line break under the literal one that the test expects |
| Pipeline.ExtractGlossary | src/main.py:12-22 | the stages in the entry point's order give the cleaned text and its segmentation; every entry is well formed, and its identifier and term are stripped lines that no filter would drop |
| Pipeline.HeaderClearAfterFooter | src/main.py:13-14 | after the header and footer filters, every line is stripped and neither filter would drop it |
| Pipeline.CleanedLinesClear | src/main.py:13-16 | every line of the cleaned text is stripped and clear of page numbers, copyright, licence and reference lines, and captions |
| Pipeline.EntriesClear | src/main.py:13-22 | the entries of the cleaned text are well formed, and their identifiers and terms are clear lines |

## Left out

- `extract_text_from_pdf` (`src/pdf_processor.py:148-159`) reads the PDF through pypdfium2, a foreign library. The model starts from the extracted text.
- `save_as_json` and `save_as_csv` (`src/data_extractor.py:91-111`) are file output and are not modelled. Neither are `src/main.py`'s path handling and its writes of `output.txt`, `output.json` and `output.csv`.
- The summaries that the filters, the cut and `extract_words_and_descriptions` print are not modelled. The counts are returned instead: a summary value, the number of captions, the anchor index, and the length of the entry list (`src/data_extractor.py:88`).
- IntegerSyntax.IsInteger: exact only on stripped strings, which is all the header filter passes it. It strips the full `str.isspace()` set, while `int()` on an ASCII string skips only tab, line feed, vertical tab, form feed, carriage return and space, so `"\x1c5"` is accepted here and rejected by `int()`. It accepts ASCII digits only. `int()` also accepts other Unicode decimal digits, and from Python 3.11 it rejects strings of more than 4300 digits; neither is modelled.
- DataExtractor.IsIdentifier: `\d` in `^3\.\d+$` also matches Unicode decimal digits; the model accepts ASCII digits only.
