# PDF form scripts, modelled in Dafny

This project models the decision logic of six command-line scripts in the PDF
skill of AionUi (`AionUi/skills/pdf/scripts`). These scripts check, fill and
inspect PDF forms:

- `check_bounding_boxes.py` checks the boxes of a field-description file
  (`fields.json`). The label box and the entry box of a field must not overlap,
  and an entry box must be at least 15 pixels tall.
- `split_pdf.py` parses a page range such as `"1-3,5"` into zero-based page
  indices and copies those pages to a new document.
- `fill_pdf_form_with_annotations.py` draws each field's entry text on an
  overlay of its page. It converts image pixels (y down) to PDF points (y up),
  applying default font size and colour and a black fallback colour.
- `extract_form_field_info.py` classifies every form field of a PDF as text,
  checkbox, radio group or choice. It builds one JSON record per field.
- `fill_fillable_fields.py` collects field values into a dictionary (last
  write wins) and rejects unknown field IDs. It lists the unknown IDs and then
  the known ones, sorted.
- `create_validation_image.py` draws the boxes of one page's fields: red
  outlines for entry boxes, then blue ones for label boxes. It reports how many
  of each it drew.

Every script is a module. Its input is the already-parsed JSON, or the parts of
the PDF the script looks at. A run that raises is a `Failure` carrying the
Python exception it models (module `Faults`). Each script's loop is a `method`
proved equal to a specification function, and the script's promises are proved
about that function. Shared pieces are:

- `Wrappers`: `Option` and `Result`.
- `Text`: Python's `strip`, `split`, `int()` and decimal rendering.
- `Layout`: the entities of `fields.json`, Python truthiness of boxes, list
  unpacking and the page filter.
- `Outcomes`: the fold "run the steps in order, concatenate what they append,
  stop at the first exception".

## Model

| member | source | states |
|---|---|---|
| Text.Strip | AionUi/skills/pdf/scripts/split_pdf.py:20 | the stripped text starts and ends with a non-space and is no longer than the input |
| Text.StripPadded | AionUi/skills/pdf/scripts/split_pdf.py:20 | stripping removes exactly the surrounding whitespace around a core that neither starts nor ends with a space |
| Text.Split | AionUi/skills/pdf/scripts/split_pdf.py:19 | `str.split(sep)` yields at least one piece and no piece contains the separator |
| Text.JoinSplit | AionUi/skills/pdf/scripts/split_pdf.py:19 | joining the pieces with the separator gives back the original text |
| Text.SplitJoin | AionUi/skills/pdf/scripts/split_pdf.py:19 | splitting a join of separator-free pieces gives back the pieces |
| Text.SplitCount | AionUi/skills/pdf/scripts/split_pdf.py:19-22 | the number of pieces is one more than the number of separators |
| Text.SplitAfterPiece | AionUi/skills/pdf/scripts/split_pdf.py:19 | a separator-free first piece is split off unchanged |
| Text.SplitWithoutSeparator | AionUi/skills/pdf/scripts/split_pdf.py:21 | text without the separator is a single piece |
| Text.SplitAtSeparator | AionUi/skills/pdf/scripts/split_pdf.py:19 | splitting at a separator concatenates the pieces of both sides |
| Text.ParseInt | AionUi/skills/pdf/scripts/split_pdf.py:23-27 | `int()` succeeds iff the text, stripped of whitespace, is an optional `+` or `-` followed by at least one digit, and then gives the sign times the digits' decimal value |
| Text.ParsePaddedDigits | AionUi/skills/pdf/scripts/split_pdf.py:23-27 | a run of digits with whitespace on either side parses to the run's decimal value, leading zeros included |
| Text.ParseIntAccepts | AionUi/skills/pdf/scripts/split_pdf.py:23-27 | `int(' 007 ')` is 7, `int('+12')` is 12 and `int('-0')` is 0 |
| Text.ParseIntRejects | AionUi/skills/pdf/scripts/split_pdf.py:23-27 | `int('1 2')`, `int('+')` and `int('')` raise ValueError |
| Text.DecimalString | AionUi/skills/pdf/scripts/check_bounding_boxes.py:46 | the decimal rendering of n is non-empty digits without a leading zero whose value is n |
| Text.ParseDecimalString | AionUi/skills/pdf/scripts/split_pdf.py:23-27 | `int()` inverts decimal rendering, surrounding whitespace included |
| Text.ParseNegativeDecimalString | AionUi/skills/pdf/scripts/split_pdf.py:23-27 | `int("-n")` is -n |
| Layout.Unpack | AionUi/skills/pdf/scripts/check_bounding_boxes.py:21-22 | unpacking into four names succeeds exactly for four numbers, keeps them in order, and otherwise raises ValueError |
| Layout.OnPage | AionUi/skills/pdf/scripts/create_validation_image.py:33-34 | a field is selected iff its page number (default 1) is the requested one |
| Layout.PageOf | AionUi/skills/pdf/scripts/create_validation_image.py:34 | a field's page is its `page_number`, and 1 when it has none |
| Layout.OnPageAppend | AionUi/skills/pdf/scripts/fill_pdf_form_with_annotations.py:71-72 | the page filter keeps field order: it distributes over concatenation |
| Layout.OnPageIgnoresOtherPages | AionUi/skills/pdf/scripts/fill_pdf_form_with_annotations.py:71-72 | inserting a field of another page anywhere leaves the selection unchanged |
| BoundingBoxes.IntersectsIffShareAPoint | AionUi/skills/pdf/scripts/check_bounding_boxes.py:24-30 | for boxes with ordered corners, the test holds exactly when the two closed boxes share a point |
| BoundingBoxes.BoxesIntersect | AionUi/skills/pdf/scripts/check_bounding_boxes.py:16-30 | a missing or empty box gives false; otherwise it raises iff a box is not four numbers, and else answers the gap test on the two boxes, which for boxes with ordered corners is "the closed boxes meet" |
| BoundingBoxes.InvertedBoxIntersects | AionUi/skills/pdf/scripts/check_bounding_boxes.py:16-30 | with its corners swapped, the box [10,0,0,10] is reported to intersect [0,0,10,10] although the two share no point |
| BoundingBoxes.BoxesIntersectSymmetric | AionUi/skills/pdf/scripts/check_bounding_boxes.py:16-30 | the result, failure included, does not depend on the order of the boxes |
| BoundingBoxes.TouchingBoxesIntersect | AionUi/skills/pdf/scripts/check_bounding_boxes.py:25-28 | boxes that only touch along an edge count as intersecting |
| BoundingBoxes.CornerContactExample | AionUi/skills/pdf/scripts/check_bounding_boxes.py:16-30 | boxes meeting at one corner intersect; a half-pixel gap separates; an empty box never intersects |
| BoundingBoxes.FieldIssues | AionUi/skills/pdf/scripts/check_bounding_boxes.py:44-57 | one field yields the overlap error iff both boxes are present and meet, then the height error iff the entry box is shorter than 15; the exact exception when a box is malformed |
| BoundingBoxes.Issues | AionUi/skills/pdf/scripts/check_bounding_boxes.py:43-57 | the check runs through iff every field is checkable, and then reports at most two errors per field |
| BoundingBoxes.IssuesFailurePropagates | AionUi/skills/pdf/scripts/check_bounding_boxes.py:43-57 | an exception at some field is the exception of the whole check |
| BoundingBoxes.IssuesInFieldOrder | AionUi/skills/pdf/scripts/check_bounding_boxes.py:43-57 | the errors of the first n fields come first, then field n's own, as a prefix of all errors |
| BoundingBoxes.CheckField | AionUi/skills/pdf/scripts/check_bounding_boxes.py:44-57 | one iteration of the loop over the fields reports exactly that field's errors, overlap before height, or the exception of its malformed box |
| BoundingBoxes.Describe | AionUi/skills/pdf/scripts/check_bounding_boxes.py:46 | a field is named by its description, else by `Field ` followed by the canonical decimal digits of its position, which parse back to it |
| BoundingBoxes.CheckBoundingBoxes | AionUi/skills/pdf/scripts/check_bounding_boxes.py:33-66 | the loop returns the errors of the field-by-field specification, valid iff there are none; an empty field list is valid |
| Outcomes.ConcatAppend | AionUi/skills/pdf/scripts/split_pdf.py:19-29 | running two lists of steps concatenates their items; the first exception hides the rest |
| Outcomes.ConcatStep | AionUi/skills/pdf/scripts/split_pdf.py:19-29 | one more step extends the items, or its exception becomes the result |
| Outcomes.ConcatAll | AionUi/skills/pdf/scripts/split_pdf.py:19-29 | a property of every step's items holds of the concatenation |
| Outcomes.ConcatLength | AionUi/skills/pdf/scripts/check_bounding_boxes.py:43-57 | at most `bound` items per step gives at most `bound` times the number of steps |
| Outcomes.ConcatSingletons | AionUi/skills/pdf/scripts/fill_pdf_form_with_annotations.py:55-116 | steps that each append one item give exactly those items, in step order |
| Outcomes.ConcatFault | AionUi/skills/pdf/scripts/extract_form_field_info.py:82-92 | an exception every failing step shares is the exception of the run |
| Outcomes.FlattenAppend | AionUi/skills/pdf/scripts/extract_form_field_info.py:57-67 | appending the lists of two runs is appending their results |
| Outcomes.FlattenStep | AionUi/skills/pdf/scripts/extract_form_field_info.py:57-67 | one more list extends the result by exactly that list |
| Outcomes.FlattenAll | AionUi/skills/pdf/scripts/extract_form_field_info.py:57-67 | every item of the result comes from one of the lists |
| PageRange.Range | AionUi/skills/pdf/scripts/split_pdf.py:25 | `range(lo, hi)` is lo, lo+1, …, hi-1, and empty when lo >= hi |
| PageRange.TokenPages | AionUi/skills/pdf/scripts/split_pdf.py:20-29 | every index a token contributes is below the page count and at least -1, and at least 0 unless it is a span starting at 0; an accepted token is not blank |
| PageRange.SingleTokenCase | AionUi/skills/pdf/scripts/split_pdf.py:26-29 | a number n contributes [n-1] iff 1 <= n <= total, else nothing |
| PageRange.SpanTokenCase | AionUi/skills/pdf/scripts/split_pdf.py:21-25 | a span a-b contributes a-1 … min(b,total)-1 |
| PageRange.SinglePageToken | AionUi/skills/pdf/scripts/split_pdf.py:20-29 | a padded decimal n contributes [n-1] exactly when it is a page of the document |
| PageRange.SpanToken | AionUi/skills/pdf/scripts/split_pdf.py:21-25 | the span "a-b" contributes the range from a-1 to min(b,total) |
| PageRange.TooManyDashesFails | AionUi/skills/pdf/scripts/split_pdf.py:22 | a token with two or more dashes raises ValueError on unpacking |
| PageRange.EmptyTokenFails | AionUi/skills/pdf/scripts/split_pdf.py:27 | a blank token (as after a trailing comma) is not an integer |
| PageRange.Contributions | AionUi/skills/pdf/scripts/split_pdf.py:19-29 | one contribution per comma-separated token, in token order |
| PageRange.ContributionsOutcome | AionUi/skills/pdf/scripts/split_pdf.py:19-29 | the loop over the tokens runs through iff every token parses, and its only errors are ValueError from unpacking or from `int()` |
| PageRange.PageRangeOf | AionUi/skills/pdf/scripts/split_pdf.py:16-30 | the range parses iff every comma-separated token parses; otherwise it raises ValueError, from unpacking or from `int()` |
| PageRange.PageRangeBounds | AionUi/skills/pdf/scripts/split_pdf.py:23-28 | every parsed index is below the page count and at least -1, and non-negative when no span starts at 0 |
| PageRange.ContributionsAppend | AionUi/skills/pdf/scripts/split_pdf.py:19 | the contributions of joined token lists are joined |
| PageRange.OneToken | AionUi/skills/pdf/scripts/split_pdf.py:19-29 | text without a comma is parsed as one token |
| PageRange.CommaJoin | AionUi/skills/pdf/scripts/split_pdf.py:19-29 | parsing "s,t" gives the pages of s then those of t; the first error wins |
| PageRange.TrailingCommaFails | AionUi/skills/pdf/scripts/split_pdf.py:19-27 | a trailing comma makes the whole range fail (after the earlier tokens' own errors) |
| PageRange.SpanRange | AionUi/skills/pdf/scripts/split_pdf.py:21-25 | a whole range "a-b" parses to a-1 … min(b,total)-1 |
| PageRange.PaddedPageRange | AionUi/skills/pdf/scripts/split_pdf.py:20-29 | a whole range of one padded number parses to that page or to nothing |
| PageRange.SpanThenPage | AionUi/skills/pdf/scripts/split_pdf.py:19-29 | "a-b,n" is the span's pages followed by page n's |
| PageRange.TwoPages | AionUi/skills/pdf/scripts/split_pdf.py:19-29 | two numbers give their pages in the order written, whitespace before a token ignored |
| PageRange.ThreePages | AionUi/skills/pdf/scripts/split_pdf.py:19-29 | three numbers give their pages in the order written, unsorted and not deduplicated |
| PageRange.Example1To3And5 | AionUi/skills/pdf/scripts/split_pdf.py:16-30 | "1-3,5" with 10 pages gives [0,1,2,4] |
| PageRange.ExampleDropsOutOfRange | AionUi/skills/pdf/scripts/split_pdf.py:26-29 | "1,3,5" with 4 pages gives [0,2] |
| PageRange.ExampleClampsSpanEnd | AionUi/skills/pdf/scripts/split_pdf.py:25 | "8-12" with 10 pages gives [7,8,9] |
| PageRange.ExampleKeepsOrderAndRepeats | AionUi/skills/pdf/scripts/split_pdf.py:19-29 | "3, 1,1" with 5 pages gives [2,0,0] |
| PageRange.ExampleSpanFromZero | AionUi/skills/pdf/scripts/split_pdf.py:23-25 | "0-2" with 10 pages gives [-1,0,1]: a span start is not checked |
| PageRange.ParsePageRange | AionUi/skills/pdf/scripts/split_pdf.py:16-30 | the token loop with `append`/`extend` computes the specification's result or its first error |
| PageRange.ResolveIndex | AionUi/skills/pdf/scripts/split_pdf.py:56 | `reader.pages[i]` is defined iff -n <= i < n; a negative index counts from the end |
| PageRange.Select | AionUi/skills/pdf/scripts/split_pdf.py:55-56 | selection succeeds iff every index resolves, and then gives the resolved pages in index order |
| PageRange.SelectFailurePropagates | AionUi/skills/pdf/scripts/split_pdf.py:55-56 | an index that does not resolve aborts the whole copy |
| PageRange.ExtractPages | AionUi/skills/pdf/scripts/split_pdf.py:49-61 | the pages written are the parsed indices' pages in parsed order, and the count reported is the number of parsed indices |
| PageRange.SelectInRange | AionUi/skills/pdf/scripts/split_pdf.py:55-56 | on a non-empty document, indices from -1 to n-1 all select a page, with -1 the last one |
| PageRange.ExtractionSucceedsOnNonEmptyDocument | AionUi/skills/pdf/scripts/split_pdf.py:52-56 | on a non-empty document every range that parses is copied without error |
| PageRange.ExtractionFromZeroOnEmptyDocumentFails | AionUi/skills/pdf/scripts/split_pdf.py:52-56 | "0-1" on an empty document parses to [-1], and copying it raises IndexError |
| Annotations.PagesInfo | AionUi/skills/pdf/scripts/fill_pdf_form_with_annotations.py:52 | an entry without a page number raises KeyError; else the keys are the page numbers named, each mapped to its last entry |
| Annotations.PagesInfoStep | AionUi/skills/pdf/scripts/fill_pdf_form_with_annotations.py:52 | one more entry overwrites its page number's value and leaves the rest |
| Annotations.LastForUnique | AionUi/skills/pdf/scripts/fill_pdf_form_with_annotations.py:52 | only one entry is the last to name a page number, so each key of `pages_info` has one value |
| Annotations.Scales | AionUi/skills/pdf/scripts/fill_pdf_form_with_annotations.py:67-68 | the scales are page size over image size; a zero image dimension raises ZeroDivisionError |
| Annotations.ImageSize | AionUi/skills/pdf/scripts/fill_pdf_form_with_annotations.py:62-64 | the image size is the one given for the page, each dimension falling back to the page's own size when not given |
| Annotations.DefaultScaleIsOne | AionUi/skills/pdf/scripts/fill_pdf_form_with_annotations.py:62-68 | with no size given for the page, both scales are 1 |
| Annotations.ZeroImageDimensionFails | AionUi/skills/pdf/scripts/fill_pdf_form_with_annotations.py:63-68 | an explicit zero image width or height aborts: there is no fallback |
| Annotations.AnchorRoundTrip | AionUi/skills/pdf/scripts/fill_pdf_form_with_annotations.py:86-92 | converting the anchor back to image pixels gives the box's left and bottom |
| Annotations.AnchorExample | AionUi/skills/pdf/scripts/fill_pdf_form_with_annotations.py:67-92 | a 612x792 page drawn as 1224x1584 with box [100,125,280,142] anchors the text at (50, 721) |
| Annotations.FillColor | AionUi/skills/pdf/scripts/fill_pdf_form_with_annotations.py:100-103 | an accepted colour is used as `#rrggbb`; a rejected one falls back to `#000000` |
| Annotations.FieldRuns | AionUi/skills/pdf/scripts/fill_pdf_form_with_annotations.py:80-106 | text is drawn iff the entry box and entry text are both present, IndexError for a box shorter than four, and the run lies at the anchor with the field's text, size and colour |
| Annotations.DefaultsApplied | AionUi/skills/pdf/scripts/fill_pdf_form_with_annotations.py:94-96 | without size and colour the run uses size 12 and `#000000` |
| Annotations.BadColorFallsBackToBlack | AionUi/skills/pdf/scripts/fill_pdf_form_with_annotations.py:100-103 | a colour the parser rejects does not abort the page and draws in black |
| Annotations.PageRuns | AionUi/skills/pdf/scripts/fill_pdf_form_with_annotations.py:79-106 | a page's overlay is drawn iff every field on it can be drawn; its only error is IndexError |
| Annotations.PageOutput | AionUi/skills/pdf/scripts/fill_pdf_form_with_annotations.py:55-116 | each output page is its input page, with an overlay exactly when some field names that page |
| Annotations.PageStepReadsOwnFields | AionUi/skills/pdf/scripts/fill_pdf_form_with_annotations.py:71-72 | a page's output depends only on the fields that name that page |
| Annotations.PageStepIgnoresField | AionUi/skills/pdf/scripts/fill_pdf_form_with_annotations.py:70-72 | inserting anywhere a field that names another page leaves the page's step unchanged |
| Annotations.PageStep | AionUi/skills/pdf/scripts/fill_pdf_form_with_annotations.py:55-116 | one page's step appends exactly its output page, or raises ZeroDivisionError or IndexError exactly when that page cannot be produced |
| Annotations.EveryPageOnce | AionUi/skills/pdf/scripts/fill_pdf_form_with_annotations.py:55-123 | every input page is written exactly once, in order; the count reported is the number of fields, not the number drawn |
| Annotations.FillFormSucceeds | AionUi/skills/pdf/scripts/fill_pdf_form_with_annotations.py:52-116 | the run succeeds iff every page can be scaled and drawn |
| Annotations.FillForm | AionUi/skills/pdf/scripts/fill_pdf_form_with_annotations.py:42-123 | the script raises only KeyError for an entry without a page number, ZeroDivisionError for a zero image size, or IndexError for a short entry box |
| Annotations.FieldOnMissingPageIgnored | AionUi/skills/pdf/scripts/fill_pdf_form_with_annotations.py:55-72 | a field whose page number matches no page changes nothing |
| Annotations.DrawFields | AionUi/skills/pdf/scripts/fill_pdf_form_with_annotations.py:79-106 | the field loop draws the runs of the specification, or stops at its first error |
| Annotations.MergePage | AionUi/skills/pdf/scripts/fill_pdf_form_with_annotations.py:55-116 | one pass of the page loop computes the scales, draws the page's fields when there are some, and gives the specification's output page or its error |
| Annotations.FillFormWithAnnotations | AionUi/skills/pdf/scripts/fill_pdf_form_with_annotations.py:42-123 | the page loop produces the specification's pages and count, or its first error |
| FieldInfo.RadioFlagExamples | AionUi/skills/pdf/scripts/extract_form_field_info.py:52 | the Radio flag test `ff & (1 << 15)` holds for 0x8000, 0xC000 and -1, and fails for 0, 0x4000 and 0x10000 |
| FieldInfo.AndPow2IsQuotientBit | AionUi/skills/pdf/scripts/extract_form_field_info.py:52 | `x & (1 << k)` is 2^k times bit k of x, the floor of x / 2^k modulo 2, for every integer x |
| FieldInfo.RadioFlagIsBitAnd | AionUi/skills/pdf/scripts/extract_form_field_info.py:52 | the Radio flag test holds exactly when `ff & (1 << 15)` is non-zero, for every integer flag word, negative ones included |
| FieldInfo.TypeOf | AionUi/skills/pdf/scripts/extract_form_field_info.py:31-94 | radio iff a button with the Radio flag, checkbox iff a button without it, choice iff `/Ch`, else text (`/Tx` by default) |
| FieldInfo.MissingTypeIsText | AionUi/skills/pdf/scripts/extract_form_field_info.py:31-94 | a field without `/FT` is a text field |
| FieldInfo.RadioFlagOnlyForButtons | AionUi/skills/pdf/scripts/extract_form_field_info.py:50-53 | the Radio flag makes a radio group only of a button |
| FieldInfo.LastOnState | AionUi/skills/pdf/scripts/extract_form_field_info.py:74-76 | the position found holds the last key other than `/Off`, and there is none only if every key is `/Off` |
| FieldInfo.CheckedValue | AionUi/skills/pdf/scripts/extract_form_field_info.py:71-76 | the checked value is never `/Off`, and is `/Yes` without appearances |
| FieldInfo.ScanCheckedValue | AionUi/skills/pdf/scripts/extract_form_field_info.py:71-76 | the overwriting loop ends with the specification's checked value |
| FieldInfo.OptionRect | AionUi/skills/pdf/scripts/extract_form_field_info.py:59-66 | a missing rect becomes [0,0,0,0], an empty one becomes null, others are kept |
| FieldInfo.WidgetOptions | AionUi/skills/pdf/scripts/extract_form_field_info.py:58-67 | a widget adds options only for its appearance keys other than `/Off`, all with its rect; none without `/AP /N` |
| FieldInfo.OnStates | AionUi/skills/pdf/scripts/extract_form_field_info.py:62-67 | an option is produced iff its value is a key other than `/Off`, with the widget's rect |
| FieldInfo.WidgetOptionLists | AionUi/skills/pdf/scripts/extract_form_field_info.py:57-67 | one option list per widget, in `/Kids` order |
| FieldInfo.RadioOptions | AionUi/skills/pdf/scripts/extract_form_field_info.py:55-67 | no radio option has the value `/Off` |
| FieldInfo.RadioOptionsAppend | AionUi/skills/pdf/scripts/extract_form_field_info.py:57-67 | the options of joined widget lists are joined, in order |
| FieldInfo.WidgetWithoutAppearancesAddsNothing | AionUi/skills/pdf/scripts/extract_form_field_info.py:60-61 | a widget without `/AP /N` contributes nothing, wherever it stands |
| FieldInfo.CollectOnStates | AionUi/skills/pdf/scripts/extract_form_field_info.py:62-67 | the key loop's output is the specification's options of one widget |
| FieldInfo.CollectRadioOptions | AionUi/skills/pdf/scripts/extract_form_field_info.py:55-67 | the nested loops build the specification's option list |
| FieldInfo.ChoiceOptionOf | AionUi/skills/pdf/scripts/extract_form_field_info.py:83-92 | a text gives itself as value and label; `[v, t, …]` gives v and t; `[v]` gives v twice; `[]` raises IndexError |
| FieldInfo.OptionSteps | AionUi/skills/pdf/scripts/extract_form_field_info.py:82-92 | one step per `/Opt` element, in order |
| FieldInfo.ChoiceOptions | AionUi/skills/pdf/scripts/extract_form_field_info.py:80-92 | the options are one per element, in order, unless an empty array raises IndexError |
| FieldInfo.ReadChoiceOption | AionUi/skills/pdf/scripts/extract_form_field_info.py:83-92 | the loop body's branches on the element's shape give the specification's option of one element |
| FieldInfo.CollectChoiceOptions | AionUi/skills/pdf/scripts/extract_form_field_info.py:80-92 | the loop over `/Opt` builds the specification's options |
| FieldInfo.FirstPageWith | AionUi/skills/pdf/scripts/extract_form_field_info.py:38-41 | the page found is the first one with that reference, and none is found only if no page has it |
| FieldInfo.PageNumber | AionUi/skills/pdf/scripts/extract_form_field_info.py:35-41 | `page` is one plus the first matching page's position, and 1 when `/P` is absent or matches no page |
| FieldInfo.FindPage | AionUi/skills/pdf/scripts/extract_form_field_info.py:35-41 | the search loop with `break` finds the specification's page number |
| FieldInfo.RecordRect | AionUi/skills/pdf/scripts/extract_form_field_info.py:32-46 | the record's rect is `/Rect`, or [0,0,0,0] when it is missing or empty |
| FieldInfo.RecordOf | AionUi/skills/pdf/scripts/extract_form_field_info.py:30-96 | the record carries the field's name, page, rect and kind with the keys of that kind; it fails only for a choice field with an empty option array |
| FieldInfo.CheckboxValuesDiffer | AionUi/skills/pdf/scripts/extract_form_field_info.py:71-76 | a checkbox record always exists, and its checked and unchecked values differ |
| FieldInfo.RecordSteps | AionUi/skills/pdf/scripts/extract_form_field_info.py:30-96 | one step per catalogue field, in order |
| FieldInfo.OneRecordPerField | AionUi/skills/pdf/scripts/extract_form_field_info.py:25-96 | a non-empty catalogue gives exactly one record per field, in catalogue order, with the field's name |
| FieldInfo.Extract | AionUi/skills/pdf/scripts/extract_form_field_info.py:25-96 | no records are written exactly when the catalogue is empty, and the only error is IndexError from an empty choice option |
| FieldInfo.ReadFieldRecord | AionUi/skills/pdf/scripts/extract_form_field_info.py:30-96 | the loop body, with its branches on `/FT` and the Radio flag, builds the specification's record of one field |
| FieldInfo.ExtractFormFields | AionUi/skills/pdf/scripts/extract_form_field_info.py:25-96 | the catalogue loop writes the specification's records, and nothing when there are no fields |
| FillableFields.Keys | AionUi/skills/pdf/scripts/fill_fillable_fields.py:50 | `keys()` lists the dictionary's keys, in order |
| FillableFields.IndexOf | AionUi/skills/pdf/scripts/fill_fillable_fields.py:32 | the position of the first occurrence, and the length iff the text does not occur |
| FillableFields.PutLookup | AionUi/skills/pdf/scripts/fill_fillable_fields.py:32 | after `d[k] = v`, looking up k gives v and every other key is unaffected |
| FillableFields.Put | AionUi/skills/pdf/scripts/fill_fillable_fields.py:32 | `d[k] = v` keeps the key order, adding k at the end when it is new |
| FillableFields.Dict | AionUi/skills/pdf/scripts/fill_fillable_fields.py:32 | the dictionary has no more entries than the pairs it was built from |
| FillableFields.DictKeys | AionUi/skills/pdf/scripts/fill_fillable_fields.py:32 | `values_dict` has every supplied ID exactly once, and no other key |
| FillableFields.DictLookup | AionUi/skills/pdf/scripts/fill_fillable_fields.py:32 | last write wins: each ID maps to the value of its last occurrence |
| FillableFields.DictOrder | AionUi/skills/pdf/scripts/fill_fillable_fields.py:32 | the keys keep the order in which each ID first appears |
| FillableFields.DistinctCardinality | AionUi/skills/pdf/scripts/fill_fillable_fields.py:74 | a list without repetitions has as many elements as distinct values |
| FillableFields.Pairs | AionUi/skills/pdf/scripts/fill_fillable_fields.py:32 | the pairs are read iff every item has both keys, one pair per item in order; otherwise KeyError |
| FillableFields.Unknown | AionUi/skills/pdf/scripts/fill_fillable_fields.py:48-52 | an ID is reported iff it is a key of the dictionary and not a field of the PDF |
| FillableFields.UnknownOrder | AionUi/skills/pdf/scripts/fill_fillable_fields.py:49-52 | the filter keeps the first-occurrence order of the keys |
| FillableFields.OrderedIsDistinct | AionUi/skills/pdf/scripts/fill_fillable_fields.py:49-52 | keys in strictly increasing first-occurrence order have no repetitions |
| FillableFields.LessIrreflexive | AionUi/skills/pdf/scripts/fill_fillable_fields.py:59 | no string sorts before itself |
| FillableFields.LessTransitive | AionUi/skills/pdf/scripts/fill_fillable_fields.py:59 | string order is transitive |
| FillableFields.LessTotal | AionUi/skills/pdf/scripts/fill_fillable_fields.py:59 | of two different strings one sorts first |
| FillableFields.Insert | AionUi/skills/pdf/scripts/fill_fillable_fields.py:59 | the elements after insertion are the new one and the old ones |
| FillableFields.InsertSorted | AionUi/skills/pdf/scripts/fill_fillable_fields.py:59 | inserting into a strictly sorted list keeps it strictly sorted |
| FillableFields.SortedSet | AionUi/skills/pdf/scripts/fill_fillable_fields.py:48-59 | `sorted(set(names))` holds exactly the names |
| FillableFields.SortedSetSorted | AionUi/skills/pdf/scripts/fill_fillable_fields.py:59 | `sorted(set(names))` is strictly increasing |
| FillableFields.StrictlySortedUnique | AionUi/skills/pdf/scripts/fill_fillable_fields.py:59 | a strictly sorted list is determined by its elements, so the listing depends only on the set of names |
| FillableFields.FillSucceedsIff | AionUi/skills/pdf/scripts/fill_fillable_fields.py:32-74 | the form is written iff every item has both keys, the PDF has fields, every supplied ID is one of them and there is a first page |
| FillableFields.FillFields | AionUi/skills/pdf/scripts/fill_fillable_fields.py:25-74 | apart from its own stops, the script fails only by KeyError or IndexError; a written form has the input's page count, and the count reported is the number of values written, at most the number of items |
| FillableFields.FilledValues | AionUi/skills/pdf/scripts/fill_fillable_fields.py:32-74 | the values written are last-write-wins in first-occurrence order, and the count reported is the number of distinct IDs |
| FillableFields.UnknownIdsReported | AionUi/skills/pdf/scripts/fill_fillable_fields.py:48-61 | one unknown ID stops the script; it lists each unknown ID once, in first-occurrence order, then every known ID, strictly sorted |
| FillableFields.NoFieldsStopsFirst | AionUi/skills/pdf/scripts/fill_fillable_fields.py:42-45 | without form fields the script stops before looking at any ID |
| FillableFields.FillFormFields | AionUi/skills/pdf/scripts/fill_fillable_fields.py:25-74 | the validation loop and the checks around it give the specification's outcome |
| ValidationImage.BoxCommands | AionUi/skills/pdf/scripts/create_validation_image.py:39-48 | a present box of four numbers gives one outline of the given colour and width 2 with the box's coordinates unchanged; a missing box gives none; other lengths raise ValueError |
| ValidationImage.FieldCommands | AionUi/skills/pdf/scripts/create_validation_image.py:37-48 | a field's entry outline comes before its label outline |
| ValidationImage.Commands | AionUi/skills/pdf/scripts/create_validation_image.py:37-48 | the drawing succeeds iff every field's boxes unpack; its only error is ValueError |
| ValidationImage.EntryCount | AionUi/skills/pdf/scripts/create_validation_image.py:53 | the red count is at most the number of page fields, and 0 iff none has an entry box |
| ValidationImage.LabelCount | AionUi/skills/pdf/scripts/create_validation_image.py:54 | the blue count is at most the number of page fields, and 0 iff none has a label box |
| ValidationImage.ColorCountAppend | AionUi/skills/pdf/scripts/create_validation_image.py:42-48 | counting outlines of one colour distributes over concatenation |
| ValidationImage.FieldColorCounts | AionUi/skills/pdf/scripts/create_validation_image.py:39-48 | a field draws one red outline iff it has an entry box and one blue outline iff it has a label box |
| ValidationImage.CountsMatchDrawing | AionUi/skills/pdf/scripts/create_validation_image.py:37-54 | the red and blue counts reported equal the numbers of red and blue outlines drawn |
| ValidationImage.OutlinesAreFieldBoxes | AionUi/skills/pdf/scripts/create_validation_image.py:41-48 | every outline is a page field's box of its colour, unscaled and unflipped |
| ValidationImage.Render | AionUi/skills/pdf/scripts/create_validation_image.py:33-54 | the image is saved iff the page's fields draw, and the counts match the outlines of each colour |
| ValidationImage.FieldOnOtherPageIgnored | AionUi/skills/pdf/scripts/create_validation_image.py:34-54 | a field on another page changes neither the drawing nor the counts |
| ValidationImage.FieldDrawnRedThenBlue | AionUi/skills/pdf/scripts/create_validation_image.py:37-48 | a last page field with both boxes ends the drawing with its red outline and then its blue one |
| ValidationImage.CreateValidationImage | AionUi/skills/pdf/scripts/create_validation_image.py:22-54 | the drawing loop appends the specification's outlines, or stops at the first malformed box |
| ValidationImage.DrawField | AionUi/skills/pdf/scripts/create_validation_image.py:39-48 | one iteration of the drawing loop produces exactly that field's outlines, entry before label, or the ValueError of its first malformed box |
| ValidationImage.CommandsFailurePropagates | AionUi/skills/pdf/scripts/create_validation_image.py:37-48 | a box that fails to unpack aborts the whole drawing |

## Left out

- File and JSON I/O, `print` output, `sys.argv` and `sys.exit` are outside the model. Each script starts from its parsed inputs and ends in a `Result`. Messages are datatypes, not formatted text.
- Library internals are parameters or plain data. pypdf's reader, writer and `merge_page`, reportlab's canvas and PIL's drawing become values: a page is its media-box size, an overlay is its list of text runs, a drawing is its list of outlines. The libraries' own argument checks are not modelled: an outline is recorded for any four numbers, even where PIL's `rectangle` might reject a box whose right edge is left of its left edge.
- Page references (`indirect_reference`) are natural numbers compared for equality.
- Floating point is modelled with `real`. The bounding-box height test and the coordinate conversion are therefore exact.
- `int()` accepts only whitespace, an optional sign and ASCII digits. Underscores between digits and non-ASCII digits are not modelled.
- FillColor: reportlab's `HexColor` parser is the parameter `colorOk`. The fallback `#000000` is assumed to be accepted.
- JSON `null` and a missing key are one case (`None`). Plain `field.get(key)` treats them alike, but `field.get(key, default)` returns `None`, not the default, for a `null` value, and `item[key]` on a `null` value does not raise. Where the model then differs from the scripts:
  - `page_number` null: the annotation filler and the validation image never select the field, and the box check names the page `None`; the model gives the field page 1 (Layout.PageOf).
  - `pages[].page_number` null: the annotation filler stores the entry under the key `None`, which no page looks up, and runs on; the model raises KeyError (Annotations.PagesInfo).
  - `image_width` or `image_height` null: the annotation filler raises TypeError in the scale division; the model falls back to the page size (Annotations.ImageSize).
  - `description` null: the box check prints `None` in its messages; the model names the field `Field i` (BoundingBoxes.Describe).
  - `form_fields` or `pages` null: iterating `None` raises TypeError; the model reads an empty list.
  - `text` or `font_size` null: the value goes to reportlab, whose behaviour is outside the model.
  - `font_color` null: the script builds `#None`, which the colour parser rejects, so black is used; the model's black fallback agrees.
  - `field_id` or `value` null: the script keeps the null as a key or value; the model has no null string.
- FillableFields.FillFields: `update_page_form_field_values` is not modelled beyond the values passed to it. The model records those values and the first page; which widgets they reach is pypdf's business.
- FieldInfo.RadioFlagSet: the flag test is proved equal to `ff & (1 << 15) != 0` for every integer (FieldInfo.RadioFlagIsBitAnd). The reference FieldInfo.AndPow2 defines `&` by its two bit rules, `x & 1 == x % 2` and the shift rule, rather than by Python's bit-level definition.
- BoundingBoxes.BoxesIntersect: for a box whose corners are out of order the script's gap test can answer true for boxes that share no point (BoundingBoxes.InvertedBoxIntersects). The model keeps the script's test; "the boxes meet" is proved only for ordered boxes.
- merge_pdfs.py, convert_pdf_to_images.py and check_fillable_fields.py are not part of this model. Each is library calls and file writes with no logic of its own. `split_all_pages` in split_pdf.py is left out for the same reason.
- A missing `/Rect` element list and a `float()` of a non-number are not modelled: rects are lists of reals.
- An explicit zero image dimension has no fallback: the scale division raises `ZeroDivisionError` (Annotations.ZeroImageDimensionFails).
