# ttt-cli core in Dafny

ttt-cli turns loosely delimited text into tables. Each line of a file is split
into fields under one of four line types. A line type is either plain or
quote-aware, and it either keeps contiguous delimiters or collapses them. The
resulting rows can then be rendered as a Markdown table or as one SQL `INSERT`
statement. This project models that core and proves what it computes:

- `rust_str.dfy` (module `RustStr`) models the parts of the Rust standard library
  the core relies on:
  - `str::split` on a set of characters;
  - `str::lines`, including how it treats `\r\n`;
  - `join`, `repeat` and `{:<width$}` padding;
  - `iter().skip(n)`;
  - the maximum row length.

  It also proves how these functions invert one another: splitting what was joined,
  and reading lines back from text.
- `lines.dfy` (module `Lines`) models the four `Line::split` implementations and
  `num_fields`.
  - The two quote-aware loops are a single automaton. `Step` is one pass of the loop
    body and `Finish` is the end of input. `SplitQuoted` is the imperative loop,
    proved equal to that automaton.
  - Each automaton state is a `Scanner`, which holds the state, the field being
    read and the fields done.
- `lines_tests.dfy` (module `LinesTests`) proves the split results and field counts
  on the sample line of the unit tests in `src/lines.rs`.
- `tables.dfy` (module `Tables`) models three things:
  - `TableContent`: `new` and the fail-fast `split`;
  - the `Table` enum and its `split`;
  - the `TableBuilder` class, with its default constructor, its three setters, and
    the variant selection of `from_path`. The file contents are given as a string.
- `markdown.dfy` (module `Markdown`) models the row formatters and the
  `MarkdownTable` class.
  - `GetColumnWidths` is the nested loop over an array of widths.
  - `ToMarkdown` is the rendering. `Render` gives the same text as a value, and the
    lemmas read that text back line by line and cell by cell.
- `sqlddl.dfy` (module `SqlDdl`) models the `SqlDdlTable` class and its `to_sql`,
  and reads the statement back line by line.

## Behaviour worth knowing

- **A double quote stays in its field.** The quote-aware splitters push every double
  quote into the field being read (`src/lines.rs:111`, `:129`, `:144`, `:185`,
  `:200`, `:215`). A quote only switches between the `Quoted` and `Unquoted` states:
  it is neither stripped nor un-doubled.
  - `Lines.QuotedKeepsText` states exactly which characters survive.
  - `LinesTests.SampleQuotedComma` shows the field `"kas  jd"` with both of its quotes.
- **An empty line gives no field under three of the four line types.** Only
  `LineSplitContiguous` gives one empty field. The quote-aware loop ends in the
  `Delimiter` state and pushes nothing (`src/lines.rs:109`), and the collapsing split
  drops the empty piece. `Lines.QuotedSplit` states the empty case, and
  `Lines.QuotedSplitWithoutQuotes` states the general one: the plain split without a
  final empty field.

## Model

| member | source | states |
|---|---|---|
| `Lines.Split` | src/lines.rs:41-47 | the plain line types never fail; the only error any line type produces is `CannotParseLine` |
| `Lines.Step` | src/lines.rs:107-152 | the definition of one loop pass (the `Some(c)` arms); its contract states that a pass enters or leaves `Quoted` exactly on a double quote, and `StepKeepsText` states what it keeps |
| `Lines.Finish` | src/lines.rs:109-142 | the definition of the `None` arms (lines 109, 124-127 and 142); its contract states that it fails, with `CannotParseLine`, exactly in the `Quoted` state, and that otherwise the fields done come first with at most the buffer added |
| `Lines.QuotedSplit` | src/lines.rs:99-155 | the definition of both quote-aware `split`s (also src/lines.rs:173-226, the `collapse` flag choosing line 115 or 188); its contract gives the error kind and no field for the empty line; `QuotedFailsIffOddQuotes`, `QuotedKeepsText` and `QuotedSplitWithoutQuotes` carry its properties |
| `Lines.NumFields` | src/lines.rs:26-28 | succeeds exactly when `split` succeeds, and then equals the number of fields `split` returns |
| `Lines.SplitQuoted` | src/lines.rs:99-155 | the quote-aware loop (either contiguous-delimiter policy) returns what the automaton `QuotedSplit` computes, and fails exactly when the line has an odd number of double quotes |
| `Lines.FieldEmptyExactlyBetweenFields` | src/lines.rs:103-125 | loop invariant: the field buffer is empty exactly in the `Delimiter` state, so nothing is lost at `None => break` and the empty field pushed for a delimiter is the buffer's content |
| `Lines.QuotedIffOddQuotes` | src/lines.rs:141-151 | after any prefix, the automaton is in `Quoted` exactly when the prefix holds an odd number of double quotes |
| `Lines.QuotedFailsIffOddQuotes` | src/lines.rs:142 | a quote-aware split fails exactly when the line holds an odd number of double quotes |
| `Lines.StepKeepsText` | src/lines.rs:107-152 | one loop pass keeps its character in the text, unless the character is a delimiter read outside quotes |
| `Lines.ScanKeepsText` | src/lines.rs:105-153 | the fields done plus the buffer, concatenated, are the input read so far with the delimiters read outside quotes removed |
| `Lines.QuotedKeepsText` | src/lines.rs:99-155 | on success, the fields concatenated are the line with the delimiters read outside quotes removed; quotes and quoted delimiters stay |
| `Lines.CollapseEmitsNoEmptyField` | src/lines.rs:188 | the collapsing automaton never emits an empty field |
| `Lines.QuotedIgnoreNoEmptyField` | src/lines.rs:173-226 | the quote-aware collapsing split never returns an empty field |
| `Lines.CollapseDropsEmptyFields` | src/lines.rs:114-117 | the collapsing automaton is in the same state and buffer as the non-collapsing one, and its fields are the non-collapsing fields without the empty ones |
| `Lines.QuotedIgnoreIsQuotedSplitNonEmpty` | src/lines.rs:173-226 | quote-aware collapsing is quote-aware splitting with the empty fields dropped, and fails on the same lines |
| `Lines.SplitContiguousFields` | src/lines.rs:41-47 | the plain split has one field more than the line has delimiters, no field holds a delimiter, and weaving the delimiters back between the fields gives the line |
| `Lines.IgnoreContiguousFields` | src/lines.rs:65-72 | the plain collapsing split is the plain split without empty fields; no field is empty or holds a delimiter; it has no fields exactly when every character is a delimiter |
| `Lines.NonEmptyFree` | src/lines.rs:69 | dropping empty fields keeps every field free of delimiters |
| `Lines.ScanWithoutQuotes` | src/lines.rs:108-140 | on a line without quotes, the automaton's buffer is the last piece of the plain split, and its fields done are the other pieces (only the non-empty ones when collapsing) |
| `Lines.QuotedIgnoreWithoutQuotes` | src/lines.rs:173-226 | on a line without quotes, the quote-aware collapsing split equals the plain collapsing split |
| `Lines.QuotedSplitWithoutQuotes` | src/lines.rs:99-155 | on a line without quotes, the quote-aware split equals the plain split without a final empty field |
| `Lines.ResumeConcat` | src/lines.rs:105-153 | running the loop over `x + y` is running it over `x` and then over `y` |
| `Lines.ResumeWord` | src/lines.rs:118-121 | outside quotes, a word without delimiters or quotes extends the buffer and leaves the state `Unquoted` |
| `Lines.ResumeInQuotes` | src/lines.rs:147-150 | inside quotes, text without quotes extends the buffer, delimiters included |
| `Lines.WordThenDelimiter` | src/lines.rs:118-138 | between fields, a word free of delimiters and quotes followed by a delimiter becomes exactly one more field (its first letter at lines 118-121, the rest at 136-138, the delimiter at 132-135), and the loop is back in `Delimiter` |
| `LinesTests.SampleSplitSpaceComma` | src/lines.rs:240-253 | the plain split of the sample line on space and comma, field by field |
| `LinesTests.SampleIgnoreSpaceComma` | src/lines.rs:240-253 | the plain collapsing split of the sample line on space and comma, field by field |
| `LinesTests.SampleQuotedSpaceComma` | src/lines.rs:240-253 | the quote-aware split of the sample line on space and comma, field by field |
| `LinesTests.SampleQuotedIgnoreSpaceComma` | src/lines.rs:240-253 | the quote-aware collapsing split of the sample line on space and comma, field by field |
| `LinesTests.SampleNumFieldsSpaceComma` | src/lines.rs:240-253 | field counts 11, 7, 9 and 6 on space and comma |
| `LinesTests.SampleSplitComma` | src/lines.rs:256-269 | the plain split of the sample line on comma, field by field |
| `LinesTests.SampleIgnoreComma` | src/lines.rs:256-269 | the plain collapsing split of the sample line on comma, field by field |
| `LinesTests.SampleQuotedComma` | src/lines.rs:256-269 | the quote-aware split of the sample line on comma: the quoted field keeps its quotes and its two spaces |
| `LinesTests.SampleQuotedIgnoreComma` | src/lines.rs:256-269 | the quote-aware collapsing split of the sample line on comma, field by field |
| `LinesTests.SampleNumFieldsComma` | src/lines.rs:256-269 | field counts 9, 6, 9 and 6 on comma |
| `LinesTests.SampleQuotedOn` | src/lines.rs:240-269 | the quote-aware split of the sample line gives the same nine fields on both delimiter sets of the tests |
| `RustStr.SplitOn` | src/lines.rs:44 | `str::split` on a character set gives one piece more than there are delimiters |
| `RustStr.WeaveSplitOn` | src/lines.rs:44 | the pieces with the delimiters put back between them give the string |
| `RustStr.SplitOnWeave` | src/lines.rs:44 | delimiter-free pieces woven with delimiters split back into the same pieces |
| `RustStr.ConcatSplitOn` | src/lines.rs:44 | the pieces concatenated are the string with its delimiters removed |
| `RustStr.NonEmpty` | src/lines.rs:69 | the kept pieces are all non-empty |
| `RustStr.StrLines` | src/table.rs:96 | `str::lines` gives one line per `\n`, plus one for unterminated text, and no line holds a `\n` |
| `RustStr.StrLinesOfTerminated` | src/table.rs:96 | lines written out each with a `\n` or `\r\n` terminator are read back unchanged |
| `RustStr.StrLinesTerminated` | src/table.rs:96 | terminated text: each line is the corresponding `\n` piece with a trailing `\r` removed |
| `RustStr.SplitOnJoin` | src/markdown.rs:117-125 | parts joined with a separator ending in `d` split on `d` into the parts, each followed by the rest of the separator |
| `RustStr.SplitOnJoinQuoted` | src/sqlddl.rs:69 | parts joined by `','` split on the quote into the parts with `,` between them |
| `RustStr.Join` | src/markdown.rs:26 | the definition of `join` (also src/markdown.rs:40, 120 and src/sqlddl.rs:69-75); `JoinLength`, `SplitOnJoin`, `SplitOnJoinQuoted` and `SplitOnJoinChar` carry its properties |
| `RustStr.JoinLength` | src/markdown.rs:26 | the joined text is the parts plus one separator between each two parts |
| `RustStr.StripCR` | src/table.rs:96 | the definition of the `\r` removal of `lines()`; its contract states that it removes at most one trailing `\r`; `StrLinesTerminated` applies it to each terminated line |
| `RustStr.Repeat` | src/markdown.rs:38 | `repeat` gives `n` copies; a one-character value fills every position |
| `RustStr.PadRight` | src/markdown.rs:24 | `{:<width$}` keeps the value at the front, pads it with spaces to the width, and never truncates |
| `RustStr.MaxLength` | src/markdown.rs:75-81 | the longest row length bounds every row and is attained, and is 0 for no rows |
| `RustStr.Skip` | src/markdown.rs:112-116 | `skip(n)` keeps the rows after the first `n`, in order |
| `Tables.TableContent.Split` | src/table.rs:101-109 | the fail-fast collection of the line splits, front to back: succeeds exactly when every line splits; then one row per line, row `i` being line `i` split; a failure is `CannotParseLine` |
| `Tables.NewContent` | src/table.rs:94-99 | the delimiters are copied and the lines are those of `str::lines`, in order: one per `\n`, plus one for unterminated text, none holding a `\n` (`RustStr.StrLinesOfTerminated` reads written lines back) |
| `Tables.Table.Split` | src/table.rs:23-30 | every variant splits its content under its own line type, with the properties of `TableContent.Split` |
| `Tables.Select` | src/table.rs:75-80 | the selected table wraps the content, and its line type collapses and is quote-aware exactly as the two flags say |
| `Tables.SelectOnto` | src/table.rs:75-80 | every table is selected by its own pair of flags |
| `Tables.SelectInjective` | src/table.rs:75-80 | different pairs of flags select different line types |
| `Tables.TableFailsIffOddQuotes` | src/table.rs:101-109 | a quote-aware table fails to split exactly when one of its lines has an odd number of double quotes |
| `Tables.TableBuilder.constructor` | src/table.rs:42-55 | the default builder splits on single spaces, with both flags false |
| `Tables.TableBuilder.SetDelimiters` | src/table.rs:57-60 | replaces the delimiters and leaves both flags unchanged |
| `Tables.TableBuilder.SetContiguousDelimiters` | src/table.rs:62-65 | replaces the contiguous flag and leaves the other two fields unchanged |
| `Tables.TableBuilder.SetQuotedFields` | src/table.rs:67-70 | replaces the quoted flag and leaves the other two fields unchanged |
| `Tables.TableBuilder.FromContents` | src/table.rs:72-82 | the table's line type follows the builder's flags, with the builder's delimiters and the lines of the contents |
| `Markdown.MarkdownRow` | src/markdown.rs:19-27 | a row starts and ends with `\|`; no cells give `\|\|` |
| `Markdown.ValuesRow` | src/markdown.rs:18-28 | the definition of `values_to_markdown_row`; its contract states the bars at both ends and `\|\|` for no values; `ValuesRowCells` reads the row back cell by cell |
| `Markdown.RepeatedRow` | src/markdown.rs:33-42 | the definition of `repeated_to_markdown_row`; its contract states the bars at both ends and `\|\|` for no widths; `RepeatedRowCells` reads the row back cell by cell |
| `Markdown.Heading` | src/markdown.rs:105-110 | the definition of the heading row (the first row, or `?` cells); its contract states the bars at both ends; `RenderLines` places it on the first line |
| `Markdown.Layout` | src/markdown.rs:122-125 | the definition of the final `format!`; its contract states that the text starts with the heading and a line break and ends with a line break; `LayoutLinesAt` reads it back line by line |
| `Markdown.ValueCell` | src/markdown.rs:24 | a value cell is the value left-aligned in its width with a space either side, and never narrower than the value |
| `Markdown.RepeatedCell` | src/markdown.rs:38 | a repeated cell is `width` copies of the value with a space either side |
| `Markdown.ValueCells` | src/markdown.rs:21-25 | one cell per value, cell `i` padded to width `i` |
| `Markdown.RepeatedCells` | src/markdown.rs:36-39 | one cell per width |
| `Markdown.RenderRows` | src/markdown.rs:117-119 | one rendered row per body row |
| `Markdown.ValuesRowCells` | src/markdown.rs:18-28 | a values row read back on `\|` gives an empty piece, one cell per value, then an empty piece |
| `Markdown.RepeatedRowCells` | src/markdown.rs:33-42 | a repeated row read back on `\|` gives an empty piece, one cell per width, then an empty piece |
| `Markdown.MarkdownRowCells` | src/markdown.rs:19-27 | cells free of `\|`, joined by `\|` inside bars, are read back between two empty pieces |
| `Markdown.ColumnWidthIsMax` | src/markdown.rs:86-97 | a column's width is at least 3, at least every value in the column, and either 3 or some value's length |
| `Markdown.ColumnWidth` | src/markdown.rs:86-97 | the definition of one column's width, row by row; its contract states the minimum of 3; `ColumnWidthIsMax` states that it is the longest value or 3 |
| `Markdown.ColumnWidths` | src/markdown.rs:86-97 | one width per column, the widest row fixing the number of columns |
| `Markdown.ColumnWidthsAreMax` | src/markdown.rs:7 | every width is at least `MIN_COLUMN_WIDTH`, every value fits in its column's width, and each width is 3 or attained by a value |
| `Markdown.ColumnWidthSnoc` | src/markdown.rs:89-95 | one more row widens a column exactly when it holds a longer value |
| `Markdown.CellsAligned` | src/markdown.rs:102-125 | every value cell is exactly as wide as the separator cell of its column |
| `Markdown.JoinedLines` | src/markdown.rs:117-124 | rows joined by `\n` and a final `\n` are read back line by line |
| `Markdown.LayoutLinesAt` | src/markdown.rs:122-125 | the output is the heading, the separator and the body rows, one per line, then an empty line; an empty body leaves an empty line |
| `Markdown.Render` | src/markdown.rs:102-125 | fails exactly when the first row is the header and there are no rows |
| `Markdown.RenderLines` | src/markdown.rs:102-125 | read back line by line: the heading (the first row, or `?` cells), the `-` separator, every body row (the first row left out when it is the header), then an empty line |
| `Markdown.MarkdownTable.constructor` | src/markdown.rs:57-62 | a new table keeps its rows and has no header |
| `Markdown.MarkdownTable.SetHasHeader` | src/markdown.rs:67-70 | sets the flag and keeps the rows |
| `Markdown.MarkdownTable.NumColumns` | src/markdown.rs:75-81 | the longest row length: bounds every row, is attained, is 0 for no rows |
| `Markdown.MarkdownTable.GetColumnWidths` | src/markdown.rs:86-97 | the nested loop over the widths array computes `ColumnWidths` of the rows |
| `Markdown.MarkdownTable.ToMarkdown` | src/markdown.rs:102-125 | fails with `EmptyContents` exactly when the header flag is set and there are no rows |
| `SqlDdl.ValueTuple` | src/sqlddl.rs:69 | a tuple starts with `('` and ends with `')`; no values give `('')` |
| `SqlDdl.ValueTupleFields` | src/sqlddl.rs:69 | a tuple read back on `'` gives `(`, the values with `,` between them, then `)` |
| `SqlDdl.Statement` | src/sqlddl.rs:73-77 | the statement starts with `INSERT INTO table_name` and a line break and `(`, and ends with `;` and a line break |
| `SqlDdl.ColumnNames` | src/sqlddl.rs:55-62 | the header row, or one `?` per column of the widest row |
| `SqlDdl.ColumnListFields` | src/sqlddl.rs:75 | the column list read back on `,` gives the column names |
| `SqlDdl.Tuples` | src/sqlddl.rs:68-70 | one tuple per body row |
| `SqlDdl.TupleLines` | src/sqlddl.rs:71-76 | tuples joined by `,` and a line break and closed by `;` are read back one per line |
| `SqlDdl.StatementLines` | src/sqlddl.rs:73-77 | the statement read back line by line |
| `SqlDdl.Render` | src/sqlddl.rs:54-78 | fails exactly when the first row is the header and there are no rows; otherwise it has the statement's prefix and suffix |
| `SqlDdl.RenderLines` | src/sqlddl.rs:54-78 | read back line by line: `INSERT INTO table_name`, the column names in parentheses, `VALUES`, one tuple per body row followed by `,` (the last by `;`), then an empty line |
| `SqlDdl.SqlDdlTable.constructor` | src/sqlddl.rs:25-30 | a new table keeps its rows and has no header |
| `SqlDdl.SqlDdlTable.SetHasHeader` | src/sqlddl.rs:35-38 | sets the flag and keeps the rows |
| `SqlDdl.SqlDdlTable.NumColumns` | src/sqlddl.rs:43-49 | the longest row length: bounds every row, is attained, is 0 for no rows |
| `SqlDdl.SqlDdlTable.ToSql` | src/sqlddl.rs:54-78 | fails with `EmptyContents` exactly when the header flag is set and there are no rows; otherwise it has the statement's prefix and suffix |

## Left out

- Reading the file in `TableBuilder::from_path` (`std::fs::read_to_string`) is left out, and so are its I/O errors. `FromContents` takes the text that was read.
- `src/io.rs`, `src/readfile.rs`, `src/cli_args.rs` and `src/main.rs` are left out: they hold file creation, the external CSV/HTML writers, argument parsing and printing. `src/readfile.rs` is an older copy of the table layer.
- The column-count error `ColumnCountError` is declared but never produced, so it appears only as a value of `ParseError`.
- The setters return `&mut Self` so that calls can be chained. The model's setters return nothing; chained calls are consecutive calls.
- Widths are measured in characters. The code measures a value with its UTF-8 byte length (`src/markdown.rs:91`) but pads it by characters (`src/markdown.rs:24`). The two agree on ASCII text, and the model assumes that.
- SQL values are placed between quotes without escaping, and the model claims no escaping. `SqlDdl.ValueTupleFields` and `SqlDdl.RenderLines` require that no value holds a `'` or a line break, because with one the text cannot be read back.
- `Markdown.RenderLines`, `SqlDdl.RenderLines`: the line-by-line shape is stated of `Render`, the value that `ToMarkdown` and `ToSql` return for the object's rows and flag.
- `Markdown.ValuesRow`: the source indexes `col_widths[i]` and would panic on a row longer than the widths. The model requires the widths to cover the row, which holds for every row `to_markdown` renders, because the widths come from the widest row.
- `RustStr.StrLines` recognises only the `\n` and `\r\n` terminators. A `\r` that no `\n` follows stays in its line, as in the standard library.
