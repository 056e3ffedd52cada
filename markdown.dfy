/** Rendering a table of strings as a Markdown table: a heading row, a
    separator row of dashes and one row per line of data, every column padded
    to the width of its longest value (and at least `MinColumnWidth`). */
module Markdown {
  import opened RustStr

  /** The narrowest a column is drawn, so that the separator has at least three dashes. */
  const MinColumnWidth: nat := 3

  datatype MarkdownError = EmptyContents

  /** `format!("|{}|", cells.join("|"))`. */
  function MarkdownRow(cells: seq<string>): (r: string)
    ensures |r| >= 2 && r[0] == '|' && Last(r) == '|'
    ensures cells == [] ==> r == "||"
  {
    "|" + Join(cells, "|") + "|"
  }

  /** One cell of `values_to_markdown_row`: the value left-aligned in `width` characters, a space either side. */
  function ValueCell(value: string, width: nat): (c: string)
    ensures |c| == Max(|value|, width) + 2
    ensures c[0] == ' ' && Last(c) == ' '
    ensures c[1..|value| + 1] == value
    ensures forall k :: |value| + 1 <= k < |c| ==> c[k] == ' '
  {
    var padded := PadRight(value, width);
    assert (" " + padded + " ")[1..|value| + 1] == padded[..|value|];
    " " + padded + " "
  }

  /** One cell of `repeated_to_markdown_row`: `value` repeated `width` times, a space either side. */
  function RepeatedCell(value: string, width: nat): (c: string)
    ensures |c| == width * |value| + 2
    ensures c[0] == ' ' && Last(c) == ' '
    ensures |value| == 1 ==> forall k :: 1 <= k < |c| - 1 ==> c[k] == value[0]
  {
    " " + Repeat(value, width) + " "
  }

  /** The cells of a values row. */
  function ValueCells(values: seq<string>, widths: seq<nat>): (cells: seq<string>)
    requires |values| <= |widths|
    ensures |cells| == |values|
    ensures forall i :: 0 <= i < |values| ==> cells[i] == ValueCell(values[i], widths[i])
  {
    seq(|values|, i requires 0 <= i < |values| => ValueCell(values[i], widths[i]))
  }

  /** The cells of a repeated row. */
  function RepeatedCells(value: string, widths: seq<nat>): (cells: seq<string>)
    ensures |cells| == |widths|
    ensures forall i :: 0 <= i < |widths| ==> cells[i] == RepeatedCell(value, widths[i])
  {
    seq(|widths|, i requires 0 <= i < |widths| => RepeatedCell(value, widths[i]))
  }

  /** `values_to_markdown_row`: one cell per value; value `i` is padded to `widths[i]`
      (the source indexes `col_widths[i]`, so there must be a width for every value). */
  function ValuesRow(values: seq<string>, widths: seq<nat>): (r: string)
    requires |values| <= |widths|
    ensures |r| >= 2 && r[0] == '|' && Last(r) == '|'
    ensures values == [] ==> r == "||"
  {
    MarkdownRow(ValueCells(values, widths))
  }

  /** `repeated_to_markdown_row`: one cell per width, filled with `value`. */
  function RepeatedRow(value: string, widths: seq<nat>): (r: string)
    ensures |r| >= 2 && r[0] == '|' && Last(r) == '|'
    ensures widths == [] ==> r == "||"
  {
    MarkdownRow(RepeatedCells(value, widths))
  }

  /** The body rows rendered, one string per row. */
  function RenderRows(rows: seq<seq<string>>, widths: seq<nat>): (r: seq<string>)
    requires forall i :: 0 <= i < |rows| ==> |rows[i]| <= |widths|
    ensures |r| == |rows|
    ensures forall i :: 0 <= i < |rows| ==> r[i] == ValuesRow(rows[i], widths)
  {
    seq(|rows|, i requires 0 <= i < |rows| => ValuesRow(rows[i], widths))
  }

  /** `format!("{}\n{}\n{}\n", heading, separator, rows.join("\n"))`. */
  function Layout(heading: string, separator: string, rows: seq<string>): (r: string)
    ensures |r| > |heading| && r[..|heading|] == heading && r[|heading|] == '\n'
    ensures Last(r) == '\n'
  {
    heading + "\n" + separator + "\n" + Join(rows, "\n") + "\n"
  }

  /** The width of column `j` over `rows`: `MinColumnWidth` widened to every longer value
      met in that column, row by row (see `ColumnWidthIsMax`). */
  function ColumnWidth(rows: seq<seq<string>>, j: nat): (w: nat)
    ensures w >= MinColumnWidth
  {
    if rows == [] then MinColumnWidth
    else
      var w := ColumnWidth(DropLast(rows), j);
      if j < |Last(rows)| && |Last(rows)[j]| > w then |Last(rows)[j]| else w
  }

  /** The width of a column is the longest value in it, and never less than `MinColumnWidth`;
      rows too short to reach the column do not count. */
  lemma {:induction false} ColumnWidthIsMax(rows: seq<seq<string>>, j: nat)
    ensures ColumnWidth(rows, j) >= MinColumnWidth
    ensures forall i :: 0 <= i < |rows| && j < |rows[i]| ==> |rows[i][j]| <= ColumnWidth(rows, j)
    ensures ColumnWidth(rows, j) == MinColumnWidth ||
            exists i :: 0 <= i < |rows| && j < |rows[i]| && |rows[i][j]| == ColumnWidth(rows, j)
  {
    if rows != [] {
      ColumnWidthIsMax(DropLast(rows), j);
      assert forall i :: 0 <= i < |rows| - 1 ==> rows[i] == DropLast(rows)[i];
    }
  }

  /** The widths of all the columns there are. */
  function ColumnWidths(rows: seq<seq<string>>): (ws: seq<nat>)
    ensures |ws| == MaxLength(rows)
    ensures forall j :: 0 <= j < |ws| ==> ws[j] == ColumnWidth(rows, j)
  {
    seq(MaxLength(rows), j requires 0 <= j => ColumnWidth(rows, j))
  }

  /** `get_column_widths`' promise: one width per column, each the longest value in its
      column and at least `MinColumnWidth`. */
  lemma ColumnWidthsAreMax(rows: seq<seq<string>>)
    ensures var ws := ColumnWidths(rows);
            && |ws| == MaxLength(rows)
            && (forall j :: 0 <= j < |ws| ==> ws[j] >= MinColumnWidth)
            && (forall i, j :: 0 <= i < |rows| && 0 <= j < |rows[i]| ==> |rows[i][j]| <= ws[j])
            && (forall j :: 0 <= j < |ws| ==>
                  ws[j] == MinColumnWidth || exists i :: 0 <= i < |rows| && j < |rows[i]| && |rows[i][j]| == ws[j])
  {
    forall j | 0 <= j < MaxLength(rows)
      ensures var w := ColumnWidth(rows, j);
              && w >= MinColumnWidth
              && (forall i :: 0 <= i < |rows| && j < |rows[i]| ==> |rows[i][j]| <= w)
              && (w == MinColumnWidth || exists i :: 0 <= i < |rows| && j < |rows[i]| && |rows[i][j]| == w)
    {
      ColumnWidthIsMax(rows, j);
    }
  }

  /** Column widths after one more row: a longer value in the new row widens its column. */
  lemma ColumnWidthSnoc(rows: seq<seq<string>>, line: seq<string>, j: nat)
    ensures ColumnWidth(rows + [line], j) ==
            if j < |line| && |line[j]| > ColumnWidth(rows, j) then |line[j]| else ColumnWidth(rows, j)
  {
    assert DropLast(rows + [line]) == rows;
  }

  // ---------------------------------------------------------------------------
  // Reading a row back
  // ---------------------------------------------------------------------------

  /** A row read back on `|`: an empty piece before the first bar, the cells, an empty piece after the last. */
  lemma MarkdownRowCells(cells: seq<string>)
    requires cells != [] && AllFreeOf(cells, "|")
    ensures SplitOn(MarkdownRow(cells), "|") == [""] + cells + [""]
  {
    var j := Join(cells, "|");
    SplitOnJoinChar(cells, '|');
    assert MarkdownRow(cells) == "" + ['|'] + (j + ['|'] + "");
    SplitOnConcat("", '|', j + ['|'] + "", "|");
    SplitOnConcat(j, '|', "", "|");
  }

  /** A values row read back on `|`: an empty piece, one cell per value (the value
      left-aligned and padded, see `ValueCell`), an empty piece. */
  lemma ValuesRowCells(values: seq<string>, widths: seq<nat>)
    requires values != [] && |values| <= |widths|
    requires AllFreeOf(values, "|")
    ensures SplitOn(ValuesRow(values, widths), "|") == [""] + ValueCells(values, widths) + [""]
  {
    ValueCellsFree(values, widths, "|");
    MarkdownRowCells(ValueCells(values, widths));
  }

  /** A repeated row read back on `|`: an empty piece, one cell per width (`value`
      repeated that many times, see `RepeatedCell`), an empty piece. */
  lemma RepeatedRowCells(value: string, widths: seq<nat>)
    requires widths != [] && FreeOf(value, "|")
    ensures SplitOn(RepeatedRow(value, widths), "|") == [""] + RepeatedCells(value, widths) + [""]
  {
    RepeatedCellsFree(value, widths, "|");
    MarkdownRowCells(RepeatedCells(value, widths));
  }

  /** Every cell of every row is as wide as the separator's cell in its column:
      the column widths leave room for every value. */
  lemma CellsAligned(rows: seq<seq<string>>)
    ensures var ws := ColumnWidths(rows);
            forall i, j :: 0 <= i < |rows| && 0 <= j < |rows[i]| ==>
              |ValueCell(rows[i][j], ws[j])| == |RepeatedCell("-", ws[j])|
  {
    ColumnWidthsAreMax(rows);
  }

  // ---------------------------------------------------------------------------
  // Rows hold no characters their values do not hold, but for spaces and bars
  // ---------------------------------------------------------------------------

  lemma ValueCellsFree(values: seq<string>, widths: seq<nat>, cs: seq<char>)
    requires |values| <= |widths|
    requires AllFreeOf(values, cs) && ' ' !in cs
    ensures AllFreeOf(ValueCells(values, widths), cs)
  {
    forall i | 0 <= i < |values|
      ensures FreeOf(ValueCell(values[i], widths[i]), cs)
    {
      assert FreeOf(values[i], cs);
      FreeOfPadRight(values[i], widths[i], cs);
      FreeOfAppend(" ", PadRight(values[i], widths[i]), cs);
      FreeOfAppend(" " + PadRight(values[i], widths[i]), " ", cs);
    }
  }

  lemma RepeatedCellsFree(value: string, widths: seq<nat>, cs: seq<char>)
    requires FreeOf(value, cs) && ' ' !in cs
    ensures AllFreeOf(RepeatedCells(value, widths), cs)
  {
    forall i | 0 <= i < |widths|
      ensures FreeOf(RepeatedCell(value, widths[i]), cs)
    {
      FreeOfRepeat(value, widths[i], cs);
      FreeOfAppend(" ", Repeat(value, widths[i]), cs);
      FreeOfAppend(" " + Repeat(value, widths[i]), " ", cs);
    }
  }

  lemma MarkdownRowFree(cells: seq<string>, cs: seq<char>)
    requires AllFreeOf(cells, cs) && '|' !in cs
    ensures FreeOf(MarkdownRow(cells), cs)
  {
    FreeOfJoin(cells, "|", cs);
    FreeOfAppend("|", Join(cells, "|"), cs);
    FreeOfAppend("|" + Join(cells, "|"), "|", cs);
  }

  lemma ValuesRowFree(values: seq<string>, widths: seq<nat>, cs: seq<char>)
    requires |values| <= |widths|
    requires AllFreeOf(values, cs) && '|' !in cs && ' ' !in cs
    ensures FreeOf(ValuesRow(values, widths), cs)
  {
    ValueCellsFree(values, widths, cs);
    MarkdownRowFree(ValueCells(values, widths), cs);
  }

  lemma RepeatedRowFree(value: string, widths: seq<nat>, cs: seq<char>)
    requires FreeOf(value, cs) && '|' !in cs && ' ' !in cs
    ensures FreeOf(RepeatedRow(value, widths), cs)
  {
    RepeatedCellsFree(value, widths, cs);
    MarkdownRowFree(RepeatedCells(value, widths), cs);
  }

  // ---------------------------------------------------------------------------
  // Reading the text back line by line
  // ---------------------------------------------------------------------------

  /** Rows joined by line breaks, and a final line break, read back line by line. */
  lemma JoinedLines(rows: seq<string>)
    requires AllFreeOf(rows, "\n")
    ensures SplitOn(Join(rows, "\n") + "\n", "\n") == (if rows == [] then [""] else rows) + [""]
  {
    var j := Join(rows, "\n");
    if rows != [] {
      SplitOnJoinChar(rows, '\n');
    }
    assert j + "\n" == j + ['\n'] + "";
    SplitOnConcat(j, '\n', "", "\n");
  }

  lemma LayoutAssoc(heading: string, separator: string, j: string)
    ensures heading + "\n" + separator + "\n" + j + "\n" == heading + "\n" + (separator + "\n" + (j + "\n"))
  {
  }

  /** The layout read back line by line. */
  lemma LayoutLines(heading: string, separator: string, rows: seq<string>)
    requires FreeOf(heading, "\n") && FreeOf(separator, "\n") && AllFreeOf(rows, "\n")
    ensures SplitOn(Layout(heading, separator, rows), "\n") ==
            [heading, separator] + (if rows == [] then [""] else rows) + [""]
  {
    var j := Join(rows, "\n");
    LayoutAssoc(heading, separator, j);
    JoinedLines(rows);
    LineThen(separator, j + "\n");
    LineThen(heading, separator + "\n" + (j + "\n"));
  }

  /** `MarkdownTable`: rows of values and whether the first row is the heading. */
  class MarkdownTable {
    var contents: seq<seq<string>>
    var hasHeader: bool

    /** `MarkdownTable::new`: no heading row until one is asked for. */
    constructor (contents: seq<seq<string>>)
      ensures this.contents == contents && !hasHeader
    {
      this.contents := contents;
      hasHeader := false;
    }

    method SetHasHeader(hasHeader: bool)
      modifies this
      ensures this.hasHeader == hasHeader && contents == old(contents)
    {
      this.hasHeader := hasHeader;
    }

    /** `get_num_columns`: the length of the longest row, 0 when there are no rows. */
    function NumColumns(): (n: nat)
      reads this
      ensures forall i :: 0 <= i < |contents| ==> |contents[i]| <= n
      ensures contents == [] ==> n == 0
      ensures contents != [] ==> exists i :: 0 <= i < |contents| && |contents[i]| == n
    {
      MaxLength(contents)
    }

    /** `get_column_widths`: start every column at `MinColumnWidth` and widen it
        to each longer value met, row by row. */
    method GetColumnWidths() returns (widths: seq<nat>)
      ensures widths == ColumnWidths(contents)
    {
      var n := NumColumns();
      var a := new nat[n](_ => MinColumnWidth);
      for li := 0 to |contents|
        invariant forall k :: 0 <= k < n ==> a[k] == ColumnWidth(contents[..li], k)
      {
        var line := contents[li];
        assert contents[..li + 1] == contents[..li] + [line];
        forall k | 0 <= k < n
          ensures ColumnWidth(contents[..li + 1], k) ==
                  if k < |line| && |line[k]| > ColumnWidth(contents[..li], k) then |line[k]| else ColumnWidth(contents[..li], k)
        {
          ColumnWidthSnoc(contents[..li], line, k);
        }
        for j := 0 to |line|
          invariant forall k :: 0 <= k < n ==>
                      a[k] == if k < j then ColumnWidth(contents[..li + 1], k) else ColumnWidth(contents[..li], k)
        {
          if |line[j]| > a[j] {
            a[j] := |line[j]|;
          }
        }
      }
      assert contents[..|contents|] == contents;
      widths := a[..];
    }

    /** `to_markdown`: heading, separator and body rows, each ended by a line break.
        A table whose heading is its first row has none to show when it has no rows. */
    function ToMarkdown(): (r: Result<string, MarkdownError>)
      reads this
      ensures r.Err? <==> hasHeader && contents == []
    {
      Render(contents, hasHeader)
    }
  }

  /** The heading row: the first row of values, or `?` cells. */
  function Heading(contents: seq<seq<string>>, hasHeader: bool, widths: seq<nat>): (r: string)
    requires hasHeader ==> contents != [] && |contents[0]| <= |widths|
    ensures |r| >= 2 && r[0] == '|' && Last(r) == '|'
  {
    if hasHeader then ValuesRow(contents[0], widths) else RepeatedRow("?", widths)
  }

  /** The body of `to_markdown` on the table's rows and flag. */
  function Render(contents: seq<seq<string>>, hasHeader: bool): (r: Result<string, MarkdownError>)
    ensures r.Err? <==> hasHeader && contents == []
  {
    if hasHeader && contents == [] then Err(EmptyContents)
    else
      var widths := ColumnWidths(contents);
      Ok(Layout(Heading(contents, hasHeader, widths), RepeatedRow("-", widths), RenderRows(Skip(contents, if hasHeader then 1 else 0), widths)))
  }

  /** The layout read back line by line, position by position. */
  lemma LayoutLinesAt(heading: string, separator: string, rows: seq<string>)
    requires FreeOf(heading, "\n") && FreeOf(separator, "\n") && AllFreeOf(rows, "\n")
    ensures var ls := SplitOn(Layout(heading, separator, rows), "\n");
            && |ls| == (if rows == [] then 4 else |rows| + 3)
            && ls[0] == heading && ls[1] == separator
            && (forall i :: 0 <= i < |rows| ==> ls[i + 2] == rows[i])
            && (rows == [] ==> ls[2] == "")
            && Last(ls) == ""
  {
    LayoutLines(heading, separator, rows);
  }

  /** No rendered row holds a line break when no value does. */
  lemma RenderRowsFree(rows: seq<seq<string>>, widths: seq<nat>)
    requires forall i :: 0 <= i < |rows| ==> |rows[i]| <= |widths|
    requires forall i :: 0 <= i < |rows| ==> AllFreeOf(rows[i], "\n")
    ensures AllFreeOf(RenderRows(rows, widths), "\n")
  {
    forall i | 0 <= i < |rows|
      ensures FreeOf(ValuesRow(rows[i], widths), "\n")
    {
      ValuesRowFree(rows[i], widths, "\n");
    }
  }

  lemma HeadingFree(contents: seq<seq<string>>, hasHeader: bool, ws: seq<nat>)
    requires hasHeader ==> contents != [] && |contents[0]| <= |ws| && AllFreeOf(contents[0], "\n")
    ensures FreeOf(Heading(contents, hasHeader, ws), "\n")
  {
    if hasHeader {
      ValuesRowFree(contents[0], ws, "\n");
    } else {
      RepeatedRowFree("?", ws, "\n");
    }
  }

  /** The layout of a table for any widths wide enough to index: see `RenderLines`. */
  lemma LayoutOfTable(contents: seq<seq<string>>, hasHeader: bool, ws: seq<nat>)
    requires !(hasHeader && contents == [])
    requires forall i :: 0 <= i < |contents| ==> |contents[i]| <= |ws|
    requires forall i :: 0 <= i < |contents| ==> AllFreeOf(contents[i], "\n")
    ensures var body := Skip(contents, if hasHeader then 1 else 0);
            var ls := SplitOn(Layout(Heading(contents, hasHeader, ws), RepeatedRow("-", ws), RenderRows(body, ws)), "\n");
            && |ls| == (if body == [] then 4 else |body| + 3)
            && ls[0] == (if hasHeader then ValuesRow(contents[0], ws) else RepeatedRow("?", ws))
            && ls[1] == RepeatedRow("-", ws)
            && (forall i :: 0 <= i < |body| ==> ls[i + 2] == ValuesRow(body[i], ws))
            && (body == [] ==> ls[2] == "")
            && Last(ls) == ""
  {
    var body := Skip(contents, if hasHeader then 1 else 0);
    var heading := Heading(contents, hasHeader, ws);
    HeadingFree(contents, hasHeader, ws);
    RepeatedRowFree("-", ws, "\n");
    RenderRowsFree(body, ws);
    LayoutLinesAt(heading, RepeatedRow("-", ws), RenderRows(body, ws));
  }

  /** The markdown text read back line by line: the heading (the first row, or `?` cells),
      the `-` separator, then one line per body row; a table with no body rows has an
      empty line there. The text ends with a line break. */
  lemma RenderLines(contents: seq<seq<string>>, hasHeader: bool)
    requires !(hasHeader && contents == [])
    requires forall i :: 0 <= i < |contents| ==> AllFreeOf(contents[i], "\n")
    ensures var ls := SplitOn(Render(contents, hasHeader).value, "\n");
            var ws := ColumnWidths(contents);
            var body := Skip(contents, if hasHeader then 1 else 0);
            && |ls| == (if body == [] then 4 else |body| + 3)
            && ls[0] == (if hasHeader then ValuesRow(contents[0], ws) else RepeatedRow("?", ws))
            && ls[1] == RepeatedRow("-", ws)
            && (forall i :: 0 <= i < |body| ==> ls[i + 2] == ValuesRow(body[i], ws))
            && (body == [] ==> ls[2] == "")
            && Last(ls) == ""
  {
    LayoutOfTable(contents, hasHeader, ColumnWidths(contents));
  }
}
