/** Tables: the text of a file cut into lines, every line split into fields
    under one of the four line types, and the builder that picks the line type
    from two flags. */
module Tables {
  import opened RustStr
  import Lines

  /** `TableContent<T>`: the lines of the text and the delimiters they are split on.
      The line type `T` is carried by the `Table` variant that wraps the content. */
  datatype TableContent = TableContent(lines: seq<string>, delimiters: seq<char>)
  {
    /** `TableContent::split`: every line split, front to back, collected into a
        `Result` that stops at the first line that cannot be split. */
    function Split(kind: Lines.LineKind): (r: Result<seq<seq<string>>, Lines.ParseError>)
      ensures r.Ok? <==> forall i :: 0 <= i < |lines| ==> Lines.Split(kind, lines[i], delimiters).Ok?
      ensures r.Ok? ==> |r.value| == |lines|
      ensures r.Ok? ==> forall i :: 0 <= i < |lines| ==> r.value[i] == Lines.Split(kind, lines[i], delimiters).value
      ensures r.Err? ==> r.error == Lines.CannotParseLine
      decreases |lines|
    {
      if lines == [] then Ok([])
      else
        match Lines.Split(kind, lines[0], delimiters)
        case Err(e) => Err(e)
        case Ok(row) =>
          match TableContent(lines[1..], delimiters).Split(kind)
          case Err(e) => Err(e)
          case Ok(rows) => Ok([row] + rows)
    }
  }

  /** `TableContent::new`: one line per line of the text (see `StrLines`), the delimiters copied. */
  function NewContent(contents: string, delimiters: seq<char>): (t: TableContent)
    ensures t.delimiters == delimiters
    ensures |t.lines| == CountIn(contents, "\n") + (if contents == [] || Last(contents) == '\n' then 0 else 1)
    ensures AllFreeOf(t.lines, "\n")
    ensures t.lines == StrLines(contents)
  {
    TableContent(StrLines(contents), delimiters)
  }

  /** `Table`: the content together with the line type its lines are read as. */
  datatype Table =
    | SplitContiguous(content: TableContent)
    | IgnoreContiguous(content: TableContent)
    | QuotedSplitContiguous(content: TableContent)
    | QuotedIgnoreContiguous(content: TableContent)
  {
    /** The line type of the variant. */
    function Kind(): Lines.LineKind
    {
      match this
      case SplitContiguous(_) => Lines.SplitContiguous
      case IgnoreContiguous(_) => Lines.IgnoreContiguous
      case QuotedSplitContiguous(_) => Lines.QuotedSplitContiguous
      case QuotedIgnoreContiguous(_) => Lines.QuotedIgnoreContiguous
    }

    /** `Table::split`: the wrapped content split under the variant's line type. */
    function Split(): (r: Result<seq<seq<string>>, Lines.ParseError>)
      ensures r.Ok? <==> forall i :: 0 <= i < |content.lines| ==> Lines.Split(Kind(), content.lines[i], content.delimiters).Ok?
      ensures r.Ok? ==> |r.value| == |content.lines|
      ensures r.Ok? ==> forall i :: 0 <= i < |content.lines| ==>
                r.value[i] == Lines.Split(Kind(), content.lines[i], content.delimiters).value
    {
      match this
      case SplitContiguous(t) => t.Split(Lines.SplitContiguous)
      case IgnoreContiguous(t) => t.Split(Lines.IgnoreContiguous)
      case QuotedSplitContiguous(t) => t.Split(Lines.QuotedSplitContiguous)
      case QuotedIgnoreContiguous(t) => t.Split(Lines.QuotedIgnoreContiguous)
    }
  }

  /** The `match (contiguous_delimiters, quoted_fields)` of `from_path`. */
  function Select(contiguous: bool, quoted: bool, content: TableContent): (t: Table)
    ensures t.content == content
    ensures t.Kind().Collapses() == contiguous && t.Kind().QuoteAware() == quoted
  {
    match (contiguous, quoted)
    case (false, false) => SplitContiguous(content)
    case (true, false) => IgnoreContiguous(content)
    case (false, true) => QuotedSplitContiguous(content)
    case (true, true) => QuotedIgnoreContiguous(content)
  }

  /** Every table is selected by exactly one pair of flags: its own. */
  lemma SelectOnto(t: Table)
    ensures Select(t.Kind().Collapses(), t.Kind().QuoteAware(), t.content) == t
  {
  }

  /** Different flags select different line types. */
  lemma SelectInjective(c1: bool, q1: bool, c2: bool, q2: bool, content: TableContent)
    requires (c1, q1) != (c2, q2)
    ensures Select(c1, q1, content).Kind() != Select(c2, q2, content).Kind()
  {
  }

  /** A quote-aware table fails to split exactly when one of its lines has an odd number of quotes. */
  lemma {:induction false} TableFailsIffOddQuotes(t: Table)
    requires t.Kind().QuoteAware()
    ensures t.Split().Err? <==> exists i :: 0 <= i < |t.content.lines| && Lines.Quotes(t.content.lines[i]) % 2 == 1
  {
    forall i | 0 <= i < |t.content.lines|
      ensures Lines.Split(t.Kind(), t.content.lines[i], t.content.delimiters).Err? <==> Lines.Quotes(t.content.lines[i]) % 2 == 1
    {
      Lines.QuotedFailsIffOddQuotes(t.Kind().Collapses(), t.content.lines[i], t.content.delimiters);
    }
  }

  /** `TableBuilder`: the delimiters and the two flags that choose the line type. */
  class TableBuilder {
    var delimiters: seq<char>
    var contiguousDelimiters: bool
    var quotedFields: bool

    /** `TableBuilder::new`, the default builder: split on single spaces, no quotes. */
    constructor ()
      ensures delimiters == [' ']
      ensures !contiguousDelimiters && !quotedFields
    {
      delimiters := [' '];
      contiguousDelimiters := false;
      quotedFields := false;
    }

    method SetDelimiters(delimiters: seq<char>)
      modifies this
      ensures this.delimiters == delimiters
      ensures contiguousDelimiters == old(contiguousDelimiters) && quotedFields == old(quotedFields)
    {
      this.delimiters := delimiters;
    }

    method SetContiguousDelimiters(contiguousDelimiters: bool)
      modifies this
      ensures this.contiguousDelimiters == contiguousDelimiters
      ensures delimiters == old(delimiters) && quotedFields == old(quotedFields)
    {
      this.contiguousDelimiters := contiguousDelimiters;
    }

    method SetQuotedFields(quotedFields: bool)
      modifies this
      ensures this.quotedFields == quotedFields
      ensures delimiters == old(delimiters) && contiguousDelimiters == old(contiguousDelimiters)
    {
      this.quotedFields := quotedFields;
    }

    /** `from_path` once the file has been read into `contents`: the table of
        the line type the flags choose, over the lines of `contents`. */
    function FromContents(contents: string): (t: Table)
      reads this
      ensures t.Kind().Collapses() == contiguousDelimiters
      ensures t.Kind().QuoteAware() == quotedFields
      ensures t.content.delimiters == delimiters
      ensures t.content.lines == StrLines(contents)
    {
      Select(contiguousDelimiters, quotedFields, NewContent(contents, delimiters))
    }
  }
}
