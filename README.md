# Shipment e-mail extraction to a markdown table

This project models the data path of `chat-gpt-extract-to-table-demo.py`, a script that turns a text file of shipment-notification e-mails into a markdown table. The script works in four steps:

1. It splits the text on the literal separator `---EMAIL_SEPARATOR---`.
2. It strips each piece and asks a chat-completion model to extract the shipment details as JSON.
3. It cuts the model's reply down to the span from its first `{` to its last `}` and decodes that span. A reply that does not decode counts as the empty mapping.
4. It flattens the details into rows, then renders the rows as a pipe-delimited markdown table:
   - The purchase-order, part-number and quantity lists are padded with `""` to a common length.
   - There is one row per position, with the tracking number, source and e-mail type on the first row only.
   - An e-mail with no list entries gets one row.
   - An empty piece also gets one row, blank except for the e-mail's 1-based index.

The model is written in four modules:

- `PyStrings` (`py_strings.dfy`): the Python `str` operations the script relies on, with Python's semantics.
  - `find` and `rfind` return -1 when the substring is absent.
  - Slicing normalises a negative bound against the length and clamps out-of-range bounds.
  - `strip` removes the characters `str.isspace()` accepts.
  - `split` cuts at non-overlapping occurrences of the separator, from left to right; `join` works as usual.
- `Extraction` (`extraction.dfy`): the reply handling of `parse_email_with_gpt`.
  - `BraceSpan` is the slice `reply[reply.find('{'):reply.rfind('}')+1]`.
  - `ParseReply` decodes the span, falling back to the empty mapping.
  - The decoded mapping is the `Extracted` datatype. Each of its six keys is `None` when the key is absent, which is how `.get(key, default)` is modelled.
- `Batch` (`batch.dfy`): the row builder of `process_test_emails_from_text`.
  - The specification functions are `DetailRows` (the rows of one decoded reply), `PieceRows` (the rows of one piece) and `BatchRows` (the rows of the whole text).
  - The imperative methods `AppendShipmentRows`, `ProcessEmail` and `ProcessEmails` follow the script's loops and append to the accumulator. Each is proved equal to its specification function.
- `Markdown` (`markdown.dfy`): `generate_markdown_table`.
  - `Table` is the text as a function of the rows.
  - `GenerateMarkdownTable` builds the list of cell lists and appends the table line by line. `FormatTable` is its formatting loop. Both are proved equal to their specification.

The script's outside dependencies appear as parameters:

- `reply: (nat, string) -> string` stands for the chat-completion call. It gives the raw reply for an e-mail's 0-based position and stripped text.
- `decode: string -> Option<Extracted>` stands for `json.loads`: `None` means a `JSONDecodeError`.

Values in the decoded mapping are `Value`s:

- `Str` (a JSON string) and `Int` (a JSON integer), whose `str()` is modelled exactly.
- `Other`, which stands for any other JSON value and carries the text `str()` gives for it.

## Model

| member | source | states |
|---|---|---|
| PyStrings.FindSpec | chat-gpt-extract-to-table-demo.py:53 | `s.find(sub)` is -1 exactly when `sub` does not occur in `s`; otherwise it is an occurrence with none before it |
| PyStrings.FindFromSpec | chat-gpt-extract-to-table-demo.py:53 | the search from `start` returns -1 only when nothing occurs from `start` on, and otherwise the first occurrence at or after `start` |
| PyStrings.RFindSpec | chat-gpt-extract-to-table-demo.py:53 | `s.rfind(sub)` is -1 exactly when `sub` does not occur in `s`; otherwise it is an occurrence with none after it |
| PyStrings.RFindBelowSpec | chat-gpt-extract-to-table-demo.py:53 | the backward search below `bound` returns -1 or an occurrence below `bound` with no occurrence between it and `bound` |
| PyStrings.Find | chat-gpt-extract-to-table-demo.py:53 | `str.find`: its meaning (-1 exactly when absent, else the leftmost occurrence) is stated by `FindSpec` |
| PyStrings.RFind | chat-gpt-extract-to-table-demo.py:53 | `str.rfind`: its meaning (-1 exactly when absent, else the rightmost occurrence) is stated by `RFindSpec` |
| PyStrings.SliceBound | chat-gpt-extract-to-table-demo.py:53 | a slice bound in range is kept, a negative one counts from the end, and anything outside `0..len` is clamped |
| PyStrings.Slice | chat-gpt-extract-to-table-demo.py:53 | `s[a:b]` is the substring between the normalised bounds when they increase, and empty otherwise |
| PyStrings.IsSpace | chat-gpt-extract-to-table-demo.py:72 | the `str.isspace()` character set that `strip` removes; `LeadingSpaces`, `TrailingSpaces` and `Strip` state their results in terms of it |
| PyStrings.LeadingSpaces | chat-gpt-extract-to-table-demo.py:72 | counts exactly the maximal run of whitespace at the start |
| PyStrings.TrailingSpaces | chat-gpt-extract-to-table-demo.py:72 | counts exactly the maximal run of whitespace at the end |
| PyStrings.Strip | chat-gpt-extract-to-table-demo.py:72 | the result is the text with exactly its maximal leading whitespace run and its trailing whitespace cut off: a contiguous slice starting after the leading run, followed only by whitespace, and neither starting nor ending with whitespace when non-empty |
| PyStrings.StripEmptyIffBlank | chat-gpt-extract-to-table-demo.py:72-73 | `email.strip()` is empty, so `if email:` fails, exactly when every character is whitespace |
| PyStrings.Split | chat-gpt-extract-to-table-demo.py:67 | `split` yields at least one piece, and yields the whole text as its only piece exactly when the separator does not occur |
| PyStrings.Join | chat-gpt-extract-to-table-demo.py:135-138 | `sep.join(parts)`: `SplitJoin` proves it inverts `split`, and `CountJoin`/`LineCounts` count what it adds between cells |
| PyStrings.SplitJoin | chat-gpt-extract-to-table-demo.py:67 | joining the pieces with the separator gives back the text: no character is lost or duplicated |
| PyStrings.SplitFirstPiece | chat-gpt-extract-to-table-demo.py:67 | when the separator occurs, the first piece is the text before its leftmost occurrence, and the remaining pieces are the split of the text after it |
| PyStrings.SplitPiecesFree | chat-gpt-extract-to-table-demo.py:67 | no piece of the split contains the separator |
| Extraction.ListOr | chat-gpt-extract-to-table-demo.py:78-80 | a list key reads as `[]` when absent and as its value when present |
| Extraction.ScalarOr | chat-gpt-extract-to-table-demo.py:81-83 | a scalar key reads as `""` when absent and as its value when present |
| Extraction.FindChar | chat-gpt-extract-to-table-demo.py:53 | `reply.find('{')` is -1 exactly when there is no `{`; otherwise it indexes a `{` with none before it |
| Extraction.RFindChar | chat-gpt-extract-to-table-demo.py:53 | `reply.rfind('}')` is -1 exactly when there is no `}`; otherwise it indexes a `}` with none after it |
| Extraction.BraceSpan | chat-gpt-extract-to-table-demo.py:53 | the extracted span is never longer than the reply |
| Extraction.BraceSpanEnclosed | chat-gpt-extract-to-table-demo.py:53 | with a first `{` before a last `}`, the span is exactly the text from that `{` to that `}` inclusive, so it opens with `{` and closes with `}` |
| Extraction.BraceSpanNoClose | chat-gpt-extract-to-table-demo.py:53 | a reply with no `}` gives the empty span |
| Extraction.BraceSpanReversed | chat-gpt-extract-to-table-demo.py:53 | a reply whose last `}` precedes its first `{` gives the empty span |
| Extraction.BraceSpanNoOpen | chat-gpt-extract-to-table-demo.py:53 | a reply with no `{` slices from index -1: the span is `"}"` if the reply ends with `}`, and empty otherwise |
| Extraction.ParseReply | chat-gpt-extract-to-table-demo.py:51-58 | the details are the decoded span when it decodes, and the empty mapping when decoding fails |
| Extraction.ParseReplyNoClose | chat-gpt-extract-to-table-demo.py:53-57 | a reply without `}` always ends in the empty mapping, because the empty span never decodes |
| Batch.MaxLen | chat-gpt-extract-to-table-demo.py:86 | the common length is at least each list's length and equal to one of them |
| Batch.PadTo | chat-gpt-extract-to-table-demo.py:87-89 | padding reaches the common length, keeps the original entries in place and fills the rest with `""` |
| Batch.BlankRow | chat-gpt-extract-to-table-demo.py:114-122 | the row of an empty e-mail; `EmptyPieceRow` and `UndecodedPieceRow` state when a piece yields exactly this row |
| Batch.DetailRows | chat-gpt-extract-to-table-demo.py:78-111 | one row per padded position, or a single row when all three lists are empty; every row carries the e-mail index; the tracking number, source and type stand on the first row only and are blank on the others; the list columns hold the padded lists position by position |
| Batch.PieceRows | chat-gpt-extract-to-table-demo.py:72-122 | the rows of one piece: `ProcessEmail` is proved to append exactly these, and `PieceRowsShape`, `EmptyPieceRow` and `UndecodedPieceRow` state their count, index and blank cases |
| Batch.BatchRows | chat-gpt-extract-to-table-demo.py:69-122 | the rows of the whole text: `ProcessEmails` is proved to build exactly these, and `BatchRowsCount`, `BatchRowsOrdered`, `BatchRowsPrefix` and `PieceBlockIndices` state their count, order and grouping |
| Batch.AppendShipmentRows | chat-gpt-extract-to-table-demo.py:78-111 | the in-place padding and the append loop extend the accumulator by exactly the rows of the decoded reply |
| Batch.ProcessEmail | chat-gpt-extract-to-table-demo.py:71-122 | one pass of the loop body extends the accumulator by exactly the rows of that piece: its details rows, or one blank row for an empty piece |
| Batch.ProcessEmails | chat-gpt-extract-to-table-demo.py:67-122 | the accumulated rows are exactly the rows of the split pieces, in order |
| Batch.EmptyPieceRow | chat-gpt-extract-to-table-demo.py:112-122 | an all-whitespace piece yields exactly one row, blank except for its 1-based index |
| Batch.UndecodedPieceRow | chat-gpt-extract-to-table-demo.py:91-100 | a non-empty piece whose reply does not decode yields the same single blank row as an empty piece |
| Batch.PieceRowsShape | chat-gpt-extract-to-table-demo.py:86-122 | every piece yields at least one row, as many as its independently counted expectation, all carrying its 1-based index |
| Batch.BatchRowsSnoc | chat-gpt-extract-to-table-demo.py:71-122 | the rows of the text are the rows of all pieces but the last, followed by the rows of the last piece |
| Batch.BatchRowsStep | chat-gpt-extract-to-table-demo.py:71-122 | handling piece `i` after the pieces before it extends their rows by the rows of piece `i` |
| Batch.BatchRowsPrefix | chat-gpt-extract-to-table-demo.py:71-122 | the rows of the first `j` pieces are a prefix of the rows of all pieces: later pieces never change earlier rows |
| Batch.BatchRowsCount | chat-gpt-extract-to-table-demo.py:71-122 | the number of rows is the sum of the per-piece counts, hence at least the number of pieces |
| Batch.BatchRowsOrdered | chat-gpt-extract-to-table-demo.py:71-122 | every row carries the index of some piece, between 1 and the number of pieces, and the indices never decrease along the rows |
| Batch.PieceBlockIndices | chat-gpt-extract-to-table-demo.py:71-122 | the rows carrying index `i + 1` are exactly one contiguous run, right after the rows of the pieces before piece `i` |
| Batch.FlattenOrdered | chat-gpt-extract-to-table-demo.py:71-122 | concatenating blocks whose rows carry their block's position gives indices within range and in non-decreasing order |
| Markdown.Repeat | chat-gpt-extract-to-table-demo.py:136 | `['---'] * n` has `n` entries, each `'---'` |
| Markdown.NatToString | chat-gpt-extract-to-table-demo.py:132 | `str(i + 1)` is a non-empty run of decimal digits, without a leading zero, whose value is the number |
| Markdown.IntToString | chat-gpt-extract-to-table-demo.py:132 | `str(n)` for a non-negative integer is its canonical decimal text, digits without a leading zero whose value is `n`; for a negative one it is `-` followed by the canonical decimal text of `-n` |
| Markdown.HEADERS | chat-gpt-extract-to-table-demo.py:128 | the seven headers in table order; `CellsInHeaderOrder` and `HeaderCellsSingleLine` state what the model relies on about them |
| Markdown.Show | chat-gpt-extract-to-table-demo.py:132 | `str(value)`: the string itself for a string, its decimal text for an integer (as `IntToString` states it), and the carried text for any other value |
| Markdown.Column | chat-gpt-extract-to-table-demo.py:132 | `row[h]` for a header `h`; `CellsInHeaderOrder` states which field each header selects |
| Markdown.Cells | chat-gpt-extract-to-table-demo.py:132 | `[str(row[h]) for h in headers]`; `CellsInHeaderOrder` states it cell by cell |
| Markdown.CellsInHeaderOrder | chat-gpt-extract-to-table-demo.py:128-132 | the cells of a row are its index in decimal and then the string forms of its six columns, in header order |
| Markdown.CellRows | chat-gpt-extract-to-table-demo.py:131-132 | the table body holds one cell list per row, in order |
| Markdown.Line | chat-gpt-extract-to-table-demo.py:135-138 | one table line; `LineCounts` states it ends in its only newline and holds one more pipe than cells |
| Markdown.FormatLines | chat-gpt-extract-to-table-demo.py:135-138 | the lines are the header line, a `---` separator line with one cell per header, and one line per body row |
| Markdown.FormatTable | chat-gpt-extract-to-table-demo.py:135-138 | the text built by appending line after line is the concatenation of the table's lines |
| Markdown.GenerateMarkdownTable | chat-gpt-extract-to-table-demo.py:127-140 | the text built from the cell table is the table of the rows |
| Markdown.Table | chat-gpt-extract-to-table-demo.py:127-140 | the table text of the rows: `GenerateMarkdownTable` is proved to build exactly this, and `TableSnoc` and `TableNewlines` state its line structure |
| Markdown.TableSnoc | chat-gpt-extract-to-table-demo.py:131-138 | one more data row adds exactly its line at the end of the table and leaves the earlier text unchanged |
| Markdown.LineCounts | chat-gpt-extract-to-table-demo.py:135-138 | a line ends with a newline; it holds exactly one newline when its cells hold none, and exactly one more pipe character than it has cells when its cells hold no pipe |
| Markdown.FormatNewlines | chat-gpt-extract-to-table-demo.py:135-138 | a table whose cells hold no newline has exactly `len(rows) + 2` newlines |
| Markdown.HeaderCellsSingleLine | chat-gpt-extract-to-table-demo.py:128 | no header contains a newline |
| Markdown.RowCellsSingleLine | chat-gpt-extract-to-table-demo.py:132 | a row whose values print without newlines has cells without newlines, its decimal index included |
| Markdown.TableNewlines | chat-gpt-extract-to-table-demo.py:127-140 | when no value prints with a newline, the table of `data` has exactly `len(data) + 2` lines |

## Left out

- The chat-completion call, the API key and `load_dotenv` (lines 7-21) are the `reply` parameter. Like the model's answer, it is an arbitrary function of the e-mail's position and text. Retries, failures of the call and non-determinism between calls are not modelled.
- The `.strip()` of the completion text (line 21) is folded into `reply`: `reply` gives the text already stripped. When the reply holds a `{`, stripping does not change the span. When it holds none, the span can differ: `"x} "` slices to the empty text and `"x}"` to `"}"` (`BraceSpanNoOpen`). Neither span decodes as JSON, so the rows are the same.
- The prompt text (lines 26-46) is not modelled: only the reply matters to the rows.
- `json.loads` (line 54) is the `decode` parameter: any total function from text to a mapping or a failure. JSON syntax is not modelled. The lemmas that need it assume only that the empty text does not decode.
- Exceptions other than `JSONDecodeError` are not modelled. In particular, the script crashes when a decoded list key holds a non-list, and the model assumes list keys hold lists. A number fails at `len()` (line 86). A string or an object fails at `+=` with a list (lines 87-89). Both raise `TypeError`.
- `str()` of a JSON float, boolean, null, list or object is not computed: `Value.Other` carries its text.
- Reading the input file (lines 63-64), every `print` (lines 48, 56, 74, 76, 140) and the module-level call (line 143) are I/O and are not modelled. `ProcessEmails` takes the text, and `GenerateMarkdownTable` returns the table instead of printing it.
- The generic helper `FormatTable` is a method of its own. In the script, the header line, the separator line and the body lines are appended inline in `generate_markdown_table`; the appended text is the same.
- The script slices whether or not the braces are found. A reply with no `{` slices from index -1 (`BraceSpanNoOpen`). A last `}` before the first `{` gives the empty span (`BraceSpanReversed`). Neither span decodes as JSON, so both end in the empty mapping.
