/** Rendering a table of strings as one SQL `INSERT` statement: the column
    names (the first row, or `?` placeholders), then one parenthesised tuple
    of quoted values per row. Values are written as they are, unescaped. */
module SqlDdl {
  import opened RustStr

  datatype SqlDdlError = EmptyContents

  /** `format!("('{}')", row.join("','"))`: the values quoted and separated by commas. */
  function ValueTuple(row: seq<string>): (r: string)
    ensures |r| >= 4 && r[..2] == "('" && r[|r| - 2..] == "')"
    ensures row == [] ==> r == "('')"
  {
    "('" + Join(row, "','") + "')"
  }

  /** `format!("INSERT INTO table_name\n({})\nVALUES\n{};\n", columns, tuples.join(",\n"))`. */
  function Statement(columns: string, tuples: seq<string>): (r: string)
    ensures |r| >= 33
    ensures r[..24] == "INSERT INTO table_name\n("
    ensures r[|r| - 2..] == ";\n"
  {
    var head := "INSERT INTO table_name\n(";
    var r := head + columns + ")\nVALUES\n" + Join(tuples, ",\n") + ";\n";
    assert r[..24] == head;
    r
  }

  /** The column list: the first row when it is the header, otherwise one `?` per column. */
  function ColumnNames(contents: seq<seq<string>>, hasHeader: bool): (names: seq<string>)
    requires hasHeader ==> contents != []
    ensures hasHeader ==> names == contents[0]
    ensures !hasHeader ==> |names| == MaxLength(contents) && forall i :: 0 <= i < |names| ==> names[i] == "?"
  {
    if hasHeader then contents[0] else seq(MaxLength(contents), _ => "?")
  }

  /** One value tuple per row. */
  function Tuples(rows: seq<seq<string>>): (r: seq<string>)
    ensures |r| == |rows|
    ensures forall i :: 0 <= i < |rows| ==> r[i] == ValueTuple(rows[i])
  {
    seq(|rows|, i requires 0 <= i < |rows| => ValueTuple(rows[i]))
  }

  /** The body of `to_sql` on the table's rows and flag. */
  function Render(contents: seq<seq<string>>, hasHeader: bool): (r: Result<string, SqlDdlError>)
    ensures r.Err? <==> hasHeader && contents == []
    ensures r.Ok? ==> |r.value| >= 33 && r.value[..24] == "INSERT INTO table_name\n(" && r.value[|r.value| - 2..] == ";\n"
  {
    if hasHeader && contents == [] then Err(EmptyContents)
    else
      var body := Skip(contents, if hasHeader then 1 else 0);
      Ok(Statement(Join(ColumnNames(contents, hasHeader), ","), Tuples(body)))
  }

  /** `SqlDdlTable`: rows of values and whether the first row holds the column names. */
  class SqlDdlTable {
    var contents: seq<seq<string>>
    var hasHeader: bool

    /** `SqlDdlTable::new`: no header row until one is asked for. */
    constructor (contents: seq<seq<string>>)
      ensures this.contents == contents && !hasHeader
    {
      this.contents := contents;
      hasHeader := false;
    }

    method SetHasHeader(hasHeader: bool)
      modifies this
      ensures this.hasHeader == hasHeader && contents == old(contents)
    {
      this.hasHeader := hasHeader;
    }

    /** `get_num_columns`: the length of the longest row, 0 when there are no rows. */
    function NumColumns(): (n: nat)
      reads this
      ensures forall i :: 0 <= i < |contents| ==> |contents[i]| <= n
      ensures contents == [] ==> n == 0
      ensures contents != [] ==> exists i :: 0 <= i < |contents| && |contents[i]| == n
    {
      MaxLength(contents)
    }

    /** `to_sql`: the `INSERT` statement; a table whose header is its first row has
        no column names when it has no rows. */
    function ToSql(): (r: Result<string, SqlDdlError>)
      reads this
      ensures r.Err? <==> hasHeader && contents == []
      ensures r.Ok? ==> |r.value| >= 33 && r.value[..24] == "INSERT INTO table_name\n(" && r.value[|r.value| - 2..] == ";\n"
    {
      Render(contents, hasHeader)
    }
  }

  // ---------------------------------------------------------------------------
  // Reading the statement back
  // ---------------------------------------------------------------------------

  /** A tuple read back on `'`: the opening parenthesis, the values with a comma
      between each two, and the closing parenthesis. */
  lemma ValueTupleFields(row: seq<string>)
    requires row != [] && AllFreeOf(row, "'")
    ensures SplitOn(ValueTuple(row), "'") == ["("] + Interleaved(row, ",") + [")"]
  {
    var q := '\'';
    var j := Join(row, [q] + "," + [q]);
    assert ValueTuple(row) == "(" + [q] + (j + [q] + ")") by {
      assert "','" == [q] + "," + [q];
    }
    Bracketed("(", q, j, ")");
    SplitOnJoinQuoted(row, ",", q);
  }

  /** Text between two quotes, with a free piece outside each, read back on the quote. */
  lemma Bracketed(open: string, q: char, j: string, close: string)
    requires FreeOf(open, [q]) && FreeOf(close, [q])
    ensures SplitOn(open + [q] + (j + [q] + close), [q]) == [open] + SplitOn(j, [q]) + [close]
  {
    var inner := SplitOn(j, [q]);
    assert SplitOn(j + [q] + close, [q]) == inner + [close] by {
      SplitOnConcat(j, q, close, [q]);
      SplitOnFree(close, [q]);
    }
    assert SplitOn(open + [q] + (j + [q] + close), [q]) == [open] + (inner + [close]) by {
      SplitOnConcat(open, q, j + [q] + close, [q]);
      SplitOnFree(open, [q]);
    }
    assert [open] + (inner + [close]) == [open] + inner + [close];
  }

  /** The column list read back on `,`: the names, when none holds a comma. */
  lemma ColumnListFields(contents: seq<seq<string>>, hasHeader: bool)
    requires hasHeader ==> contents != []
    requires ColumnNames(contents, hasHeader) != []
    requires AllFreeOf(ColumnNames(contents, hasHeader), ",")
    ensures SplitOn(Join(ColumnNames(contents, hasHeader), ","), ",") == ColumnNames(contents, hasHeader)
  {
    SplitOnJoinChar(ColumnNames(contents, hasHeader), ',');
  }

  lemma FreeOfNotIn(s: string, c: char)
    requires c !in s
    ensures FreeOf(s, [c])
  {
    forall i | 0 <= i < |s|
      ensures s[i] !in [c]
    {
      assert s[i] in s;
    }
  }

  /** Tuples joined by `,\n` and closed by `;\n`, read back line by line: every tuple
      but the last followed by a comma, the last by the semicolon, then the empty rest. */
  lemma TupleLines(tuples: seq<string>)
    requires AllFreeOf(tuples, "\n")
    ensures var ls := SplitOn(Join(tuples, ",\n") + ";\n", "\n");
            && |ls| == (if tuples == [] then 2 else |tuples| + 1)
            && (forall i :: 0 <= i < |tuples| - 1 ==> ls[i] == tuples[i] + ",")
            && (tuples != [] ==> ls[|tuples| - 1] == Last(tuples) + ";")
            && (tuples == [] ==> ls[0] == ";")
            && Last(ls) == ""
  {
    var j := Join(tuples, ",\n");
    FreeOfNotIn(";", '\n');
    assert SplitOn(j + ";\n", "\n") == SplitOn(j + ";", "\n") + [""] by {
      assert j + ";\n" == (j + ";") + ['\n'] + "";
      SplitOnConcat(j + ";", '\n', "", "\n");
    }
    if tuples == [] {
      SplitOnFree(";", "\n");
    } else {
      var parts := Suffixed(tuples, ",");
      assert SplitOn(j, "\n") == parts by {
        assert ",\n" == "," + ['\n'];
        SplitOnJoin(tuples, ",", '\n');
      }
      assert SplitOn(j + ";", "\n") == DropLast(parts) + [Last(parts) + ";"] by {
        SplitOnAppendFree(j, ";", "\n");
      }
    }
  }

  lemma HeadAssoc(columns: string, rest: string)
    ensures "INSERT INTO table_name\n(" + columns + ")\nVALUES\n" + rest ==
            "INSERT INTO table_name" + "\n" + (("(" + columns + ")") + "\n" + ("VALUES" + "\n" + rest))
  {
  }

  lemma ParenthesisedFree(columns: string)
    requires FreeOf(columns, "\n")
    ensures FreeOf("(" + columns + ")", "\n")
  {
    FreeOfNotIn("(", '\n');
    FreeOfNotIn(")", '\n');
    FreeOfAppend("(", columns, "\n");
    FreeOfAppend("(" + columns, ")", "\n");
  }

  /** The three lines before the tuples. */
  lemma HeadLines(columns: string, rest: string)
    requires FreeOf(columns, "\n")
    ensures SplitOn("INSERT INTO table_name\n(" + columns + ")\nVALUES\n" + rest, "\n") ==
            ["INSERT INTO table_name", "(" + columns + ")", "VALUES"] + SplitOn(rest, "\n")
  {
    var line1, line2, line3 := "INSERT INTO table_name", "(" + columns + ")", "VALUES";
    HeadAssoc(columns, rest);
    FreeOfNotIn(line1, '\n');
    FreeOfNotIn(line3, '\n');
    ParenthesisedFree(columns);
    LineThen(line3, rest);
    LineThen(line2, line3 + "\n" + rest);
    LineThen(line1, line2 + "\n" + (line3 + "\n" + rest));
  }

  /** The statement read back line by line: the `INSERT INTO` line, the column list in
      parentheses, `VALUES`, one line per tuple, and the empty rest after the final line break. */
  lemma StatementLines(columns: string, tuples: seq<string>)
    requires FreeOf(columns, "\n") && AllFreeOf(tuples, "\n")
    ensures var ls := SplitOn(Statement(columns, tuples), "\n");
            && |ls| == (if tuples == [] then 5 else |tuples| + 4)
            && ls[0] == "INSERT INTO table_name"
            && ls[1] == "(" + columns + ")"
            && ls[2] == "VALUES"
            && (forall i :: 0 <= i < |tuples| - 1 ==> ls[i + 3] == tuples[i] + ",")
            && (tuples != [] ==> ls[|tuples| + 2] == Last(tuples) + ";")
            && (tuples == [] ==> ls[3] == ";")
            && Last(ls) == ""
  {
    var rest := Join(tuples, ",\n") + ";\n";
    assert Statement(columns, tuples) == "INSERT INTO table_name\n(" + columns + ")\nVALUES\n" + rest;
    HeadLines(columns, rest);
    TupleLines(tuples);
  }

  lemma ValueTupleFree(row: seq<string>)
    requires AllFreeOf(row, "\n")
    ensures FreeOf(ValueTuple(row), "\n")
  {
    FreeOfNotIn("('", '\n');
    FreeOfNotIn("','", '\n');
    FreeOfNotIn("')", '\n');
    FreeOfJoin(row, "','", "\n");
    FreeOfAppend("('", Join(row, "','"), "\n");
    FreeOfAppend("('" + Join(row, "','"), "')", "\n");
  }

  lemma TuplesFree(rows: seq<seq<string>>)
    requires forall i :: 0 <= i < |rows| ==> AllFreeOf(rows[i], "\n")
    ensures AllFreeOf(Tuples(rows), "\n")
  {
    forall i | 0 <= i < |rows|
      ensures FreeOf(ValueTuple(rows[i]), "\n")
    {
      ValueTupleFree(rows[i]);
    }
  }

  lemma ColumnsFree(contents: seq<seq<string>>, hasHeader: bool)
    requires hasHeader ==> contents != [] && AllFreeOf(contents[0], "\n")
    ensures FreeOf(Join(ColumnNames(contents, hasHeader), ","), "\n")
  {
    FreeOfNotIn(",", '\n');
    if !hasHeader {
      FreeOfNotIn("?", '\n');
    }
    FreeOfJoin(ColumnNames(contents, hasHeader), ",", "\n");
  }

  /** `to_sql` read back line by line: `INSERT INTO table_name`, the column names (the
      header row, or one `?` per column) joined by commas in parentheses, `VALUES`, then
      one tuple per body row, each followed by a comma but the last, which is followed
      by the semicolon; with no body rows the semicolon stands alone. */
  lemma RenderLines(contents: seq<seq<string>>, hasHeader: bool)
    requires !(hasHeader && contents == [])
    requires forall i :: 0 <= i < |contents| ==> AllFreeOf(contents[i], "\n")
    ensures var ls := SplitOn(Render(contents, hasHeader).value, "\n");
            var body := Skip(contents, if hasHeader then 1 else 0);
            && |ls| == (if body == [] then 5 else |body| + 4)
            && ls[0] == "INSERT INTO table_name"
            && ls[1] == "(" + Join(ColumnNames(contents, hasHeader), ",") + ")"
            && ls[2] == "VALUES"
            && (forall i :: 0 <= i < |body| - 1 ==> ls[i + 3] == ValueTuple(body[i]) + ",")
            && (body != [] ==> ls[|body| + 2] == ValueTuple(Last(body)) + ";")
            && (body == [] ==> ls[3] == ";")
            && Last(ls) == ""
  {
    var body := Skip(contents, if hasHeader then 1 else 0);
    ColumnsFree(contents, hasHeader);
    TuplesFree(body);
    StatementLines(Join(ColumnNames(contents, hasHeader), ","), Tuples(body));
  }
}
