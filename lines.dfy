/** Splitting one line of text into fields, under the four policies of the
    line types: plain or quote-aware, keeping or collapsing contiguous delimiters.

    The quote-aware policies run a three-state automaton over the characters.
    A double quote is kept in the field literally; it only switches between
    the quoted and unquoted states, so a delimiter between an odd-numbered
    quote and the next one belongs to the field. The only failure is a line
    that ends inside quotes. */
module Lines {
  import opened RustStr

  const DoubleQuote: char := '"'

  datatype ParseError = CannotParseLine | ColumnCountError

  /** The four line types: `LineSplitContiguous`, `LineIgnoreContiguous`,
      `LineQuotedSplitContiguous` and `LineQuotedIgnoreContiguous`. */
  datatype LineKind =
    | SplitContiguous
    | IgnoreContiguous
    | QuotedSplitContiguous
    | QuotedIgnoreContiguous
  {
    /** Double-quoted fields are recognised. */
    predicate QuoteAware()
    {
      QuotedSplitContiguous? || QuotedIgnoreContiguous?
    }

    /** A run of delimiters separates two fields once, without empty fields between. */
    predicate Collapses()
    {
      IgnoreContiguous? || QuotedIgnoreContiguous?
    }
  }

  datatype CharState =
    | Delimiter  // between fields: at the start, or just after a delimiter
    | Unquoted   // inside a field, outside quotes
    | Quoted     // inside a field, after an odd number of quotes

  /** The variables of the quote-aware loop: `state`, the field being read and the fields done. */
  datatype Scanner = Scanner(state: CharState, field: string, fields: seq<string>)

  const Start := Scanner(Delimiter, "", [])

  /** One pass of the loop body on a character `c` (the `Some(c)` arms). */
  function Step(collapse: bool, delims: seq<char>, m: Scanner, c: char): (n: Scanner)
    ensures (n.state == Quoted) == ((m.state == Quoted) != (c == DoubleQuote))
  {
    match m.state
    case Delimiter =>
      if c == DoubleQuote then Scanner(Quoted, m.field + [c], m.fields)
      else if c in delims then
        (if collapse then m else Scanner(Delimiter, m.field, m.fields + [""]))
      else Scanner(Unquoted, m.field + [c], m.fields)
    case Unquoted =>
      if c == DoubleQuote then Scanner(Quoted, m.field + [c], m.fields)
      else if c in delims then Scanner(Delimiter, "", m.fields + [m.field])
      else Scanner(Unquoted, m.field + [c], m.fields)
    case Quoted =>
      if c == DoubleQuote then Scanner(Unquoted, m.field + [c], m.fields)
      else Scanner(Quoted, m.field + [c], m.fields)
  }

  /** The loop's variables after it has read all of `s`. */
  function Scan(collapse: bool, delims: seq<char>, s: string): Scanner
  {
    Resume(collapse, delims, Start, s)
  }

  /** The loop's variables after it has read `s`, starting from `m`. */
  function Resume(collapse: bool, delims: seq<char>, m: Scanner, s: string): Scanner
  {
    if s == [] then m else Step(collapse, delims, Resume(collapse, delims, m, DropLast(s)), Last(s))
  }

  /** The end of input (the `None` arms). */
  function Finish(m: Scanner): (r: Result<seq<string>, ParseError>)
    ensures r.Err? <==> m.state == Quoted
    ensures r.Err? ==> r.error == CannotParseLine
    ensures r.Ok? ==> m.fields <= r.value && |r.value| <= |m.fields| + 1
  {
    match m.state
    case Delimiter => Ok(m.fields)
    case Unquoted => Ok(m.fields + [m.field])
    case Quoted => Err(CannotParseLine)
  }

  /** The quote-aware split; `collapse` picks the contiguous-delimiter policy. */
  function QuotedSplit(collapse: bool, line: string, delims: seq<char>): (r: Result<seq<string>, ParseError>)
    ensures r.Err? ==> r.error == CannotParseLine
    ensures line == [] ==> r == Ok([])
  {
    Finish(Scan(collapse, delims, line))
  }

  /** `Line::split` for each of the four line types. */
  function Split(kind: LineKind, line: string, delims: seq<char>): (r: Result<seq<string>, ParseError>)
    ensures !kind.QuoteAware() ==> r.Ok?
    ensures r.Err? ==> r.error == CannotParseLine
  {
    match kind
    case SplitContiguous => Ok(SplitOn(line, delims))
    case IgnoreContiguous => Ok(NonEmpty(SplitOn(line, delims)))
    case QuotedSplitContiguous => QuotedSplit(false, line, delims)
    case QuotedIgnoreContiguous => QuotedSplit(true, line, delims)
  }

  /** `Line::num_fields`: the number of fields of `split`, failing exactly when it fails. */
  function NumFields(kind: LineKind, line: string, delims: seq<char>): (r: Result<nat, ParseError>)
    ensures r.Ok? <==> Split(kind, line, delims).Ok?
    ensures r.Ok? ==> r.value == |Split(kind, line, delims).value|
    ensures r.Err? ==> r.error == CannotParseLine
  {
    match Split(kind, line, delims)
    case Ok(fields) => Ok(|fields|)
    case Err(e) => Err(e)
  }

  /** The quote-aware loop over `line`, written as the loop it is. */
  method SplitQuoted(line: string, delims: seq<char>, collapse: bool) returns (r: Result<seq<string>, ParseError>)
    ensures r == QuotedSplit(collapse, line, delims)
    ensures r.Err? <==> CountIn(line, [DoubleQuote]) % 2 == 1
  {
    var fields: seq<string> := [];
    var field: string := "";
    var state := Delimiter;
    var i := 0;
    while i < |line|
      invariant 0 <= i <= |line|
      invariant Scanner(state, field, fields) == Scan(collapse, delims, line[..i])
      invariant state == Delimiter ==> field == []
    {
      var c := line[i];
      match state {
        case Delimiter =>
          if c == DoubleQuote {
            field := field + [c];
            state := Quoted;
          } else if c in delims {
            if !collapse {
              fields := fields + [""];
            }
          } else {
            field := field + [c];
            state := Unquoted;
          }
        case Unquoted =>
          if c == DoubleQuote {
            field := field + [c];
            state := Quoted;
          } else if c in delims {
            fields := fields + [field];
            field := "";
            state := Delimiter;
          } else {
            field := field + [c];
          }
        case Quoted =>
          field := field + [c];
          if c == DoubleQuote {
            state := Unquoted;
          }
      }
      assert DropLast(line[..i + 1]) == line[..i];
      i := i + 1;
      FieldEmptyExactlyBetweenFields(collapse, delims, line[..i]);
    }
    assert line[..i] == line;
    match state {
      case Delimiter =>
        r := Ok(fields);
      case Unquoted =>
        fields := fields + [field];
        r := Ok(fields);
      case Quoted =>
        r := Err(CannotParseLine);
    }
    QuotedFailsIffOddQuotes(collapse, line, delims);
  }

  // ---------------------------------------------------------------------------
  // What the automaton keeps
  // ---------------------------------------------------------------------------

  /** The number of double quotes in `s`. */
  function Quotes(s: string): nat
  {
    CountIn(s, [DoubleQuote])
  }

  /** `s` without the delimiters that the automaton reads outside quotes, that is,
      after an even number of double quotes. */
  function StripOutside(s: string, delims: seq<char>): string
  {
    if s == [] then []
    else
      var c := Last(s);
      StripOutside(DropLast(s), delims) +
        (if c != DoubleQuote && c in delims && Quotes(DropLast(s)) % 2 == 0 then [] else [c])
  }

  /** The field being read is empty exactly in the `Delimiter` state, so nothing is
      lost when the input ends there and the empty field pushed for a delimiter
      read in that state is the field that was being read. */
  lemma {:induction false} FieldEmptyExactlyBetweenFields(collapse: bool, delims: seq<char>, s: string)
    ensures var m := Scan(collapse, delims, s); m.state == Delimiter <==> m.field == []
  {
    if s != [] {
      FieldEmptyExactlyBetweenFields(collapse, delims, DropLast(s));
    }
  }

  /** The automaton is in the `Quoted` state exactly after an odd number of double quotes. */
  lemma {:induction false} QuotedIffOddQuotes(collapse: bool, delims: seq<char>, s: string)
    ensures Scan(collapse, delims, s).state == Quoted <==> Quotes(s) % 2 == 1
  {
    if s != [] {
      QuotedIffOddQuotes(collapse, delims, DropLast(s));
    }
  }

  /** A character that is not a delimiter read outside quotes goes into the field. */
  lemma StepAppends(collapse: bool, delims: seq<char>, m: Scanner, c: char)
    requires !(c != DoubleQuote && c in delims && m.state != Quoted)
    ensures Step(collapse, delims, m, c).fields == m.fields
    ensures Step(collapse, delims, m, c).field == m.field + [c]
  {
  }

  /** One step adds the character to the text kept, unless it is a delimiter read outside quotes. */
  lemma StepKeepsText(collapse: bool, delims: seq<char>, m: Scanner, c: char)
    ensures var n := Step(collapse, delims, m, c);
      Concat(n.fields) + n.field ==
        Concat(m.fields) + m.field + (if c != DoubleQuote && c in delims && m.state != Quoted then [] else [c])
  {
    if c != DoubleQuote && c in delims && m.state != Quoted {
      if m.state == Unquoted {
        ConcatAppend(m.fields, m.field);
      } else if !collapse {
        ConcatAppend(m.fields, "");
      }
    } else {
      StepAppends(collapse, delims, m, c);
      AppendAssoc(Concat(m.fields), m.field, [c]);
    }
  }

  /** The fields done and the field being read, concatenated, are the input read so
      far without the delimiters read outside quotes. */
  lemma {:induction false} ScanKeepsText(collapse: bool, delims: seq<char>, s: string)
    ensures var m := Scan(collapse, delims, s); Concat(m.fields) + m.field == StripOutside(s, delims)
  {
    if s != [] {
      var init := DropLast(s);
      ScanKeepsText(collapse, delims, init);
      QuotedIffOddQuotes(collapse, delims, init);
      StepKeepsText(collapse, delims, Scan(collapse, delims, init), Last(s));
    }
  }

  /** With contiguous delimiters collapsed, the automaton never emits an empty field. */
  lemma {:induction false} CollapseEmitsNoEmptyField(delims: seq<char>, s: string)
    ensures var m := Scan(true, delims, s); forall i :: 0 <= i < |m.fields| ==> m.fields[i] != []
  {
    if s != [] {
      CollapseEmitsNoEmptyField(delims, DropLast(s));
      FieldEmptyExactlyBetweenFields(true, delims, DropLast(s));
    }
  }

  /** Carrying on with `x + y` is carrying on with `x`, then with `y`. */
  lemma {:induction false} ResumeConcat(collapse: bool, delims: seq<char>, m: Scanner, x: string, y: string)
    ensures Resume(collapse, delims, m, x + y) ==
      Resume(collapse, delims, Resume(collapse, delims, m, x), y)
  {
    if y == [] {
      assert x + y == x;
    } else {
      ResumeConcat(collapse, delims, m, x, DropLast(y));
      assert DropLast(x + y) == x + DropLast(y);
      assert Last(x + y) == Last(y);
    }
  }

  /** Outside quotes, a word without delimiters or quotes is appended to the field. */
  lemma {:induction false} ResumeWord(collapse: bool, delims: seq<char>, m: Scanner, w: string)
    requires m.state != Quoted
    requires w != [] && FreeOf(w, delims + [DoubleQuote])
    ensures Resume(collapse, delims, m, w) == Scanner(Unquoted, m.field + w, m.fields)
  {
    if |w| > 1 {
      ResumeWord(collapse, delims, m, DropLast(w));
      assert m.field + DropLast(w) + [Last(w)] == m.field + w;
    }
  }

  /** Between fields, a word without delimiters or quotes followed by a delimiter
      is one more field, and the automaton is back between fields. */
  lemma WordThenDelimiter(collapse: bool, delims: seq<char>, fs: seq<string>, w: string, d: char)
    requires w != [] && FreeOf(w, delims + [DoubleQuote])
    requires d in delims && d != DoubleQuote
    ensures Resume(collapse, delims, Scanner(Delimiter, "", fs), w + [d]) == Scanner(Delimiter, "", fs + [w])
  {
    var m := Scanner(Delimiter, "", fs);
    ResumeConcat(collapse, delims, m, w, [d]);
    ResumeWord(collapse, delims, m, w);
    assert "" + w == w;
    assert DropLast([d]) == [];
  }

  /** Inside quotes, text without quotes is appended to the field, delimiters included. */
  lemma {:induction false} ResumeInQuotes(collapse: bool, delims: seq<char>, m: Scanner, w: string)
    requires m.state == Quoted
    requires DoubleQuote !in w
    ensures Resume(collapse, delims, m, w) == Scanner(Quoted, m.field + w, m.fields)
  {
    if w == [] {
      assert m.field + w == m.field;
    } else {
      ResumeInQuotes(collapse, delims, m, DropLast(w));
      assert m.field + DropLast(w) + [Last(w)] == m.field + w;
    }
  }

  /** Collapsing contiguous delimiters only drops the empty fields: the collapsing
      automaton is in the same state, reading the same field, as the non-collapsing
      one, and has emitted its fields without the empty ones. */
  lemma {:induction false} CollapseDropsEmptyFields(delims: seq<char>, s: string)
    ensures var a, b := Scan(true, delims, s), Scan(false, delims, s);
      a.state == b.state && a.field == b.field && a.fields == NonEmpty(b.fields)
  {
    if s != [] {
      CollapseDropsEmptyFields(delims, DropLast(s));
      FieldEmptyExactlyBetweenFields(false, delims, DropLast(s));
      var b := Scan(false, delims, DropLast(s));
      assert NonEmpty(b.fields + [""]) == NonEmpty(b.fields);
      assert b.field != [] ==> NonEmpty(b.fields + [b.field]) == NonEmpty(b.fields) + [b.field];
    }
  }

  /** The quote-aware collapsing split is the quote-aware non-collapsing split without
      its empty fields, and fails on the same lines. */
  lemma QuotedIgnoreIsQuotedSplitNonEmpty(line: string, delims: seq<char>)
    ensures var a, b := Split(QuotedIgnoreContiguous, line, delims), Split(QuotedSplitContiguous, line, delims);
      a.Ok? == b.Ok? && (a.Ok? ==> a.value == NonEmpty(b.value))
  {
    CollapseDropsEmptyFields(delims, line);
    FieldEmptyExactlyBetweenFields(false, delims, line);
    var b := Scan(false, delims, line);
    assert b.field != [] ==> NonEmpty(b.fields + [b.field]) == NonEmpty(b.fields) + [b.field];
  }

  // ---------------------------------------------------------------------------
  // Properties of the four splits
  // ---------------------------------------------------------------------------

  /** A quote-aware split fails exactly when the line holds an odd number of double quotes. */
  lemma QuotedFailsIffOddQuotes(collapse: bool, line: string, delims: seq<char>)
    ensures QuotedSplit(collapse, line, delims).Err? <==> Quotes(line) % 2 == 1
  {
    QuotedIffOddQuotes(collapse, delims, line);
  }

  /** Concatenating the fields of a successful quote-aware split gives the line without
      the delimiters read outside quotes; quotes and quoted delimiters stay. */
  lemma QuotedKeepsText(collapse: bool, line: string, delims: seq<char>)
    requires QuotedSplit(collapse, line, delims).Ok?
    ensures Concat(QuotedSplit(collapse, line, delims).value) == StripOutside(line, delims)
  {
    var m := Scan(collapse, delims, line);
    ScanKeepsText(collapse, delims, line);
    FieldEmptyExactlyBetweenFields(collapse, delims, line);
    ConcatAppend(m.fields, m.field);
  }

  /** The quote-aware collapsing split never returns an empty field. */
  lemma QuotedIgnoreNoEmptyField(line: string, delims: seq<char>)
    requires Split(QuotedIgnoreContiguous, line, delims).Ok?
    ensures forall i :: 0 <= i < |Split(QuotedIgnoreContiguous, line, delims).value| ==>
      Split(QuotedIgnoreContiguous, line, delims).value[i] != []
  {
    CollapseEmitsNoEmptyField(delims, line);
    FieldEmptyExactlyBetweenFields(true, delims, line);
  }

  /** The plain split: one field more than there are delimiters, none holding a
      delimiter, and putting the delimiters back between the fields gives the line. */
  lemma SplitContiguousFields(line: string, delims: seq<char>)
    ensures var r := Split(SplitContiguous, line, delims);
      r.Ok? &&
      |r.value| == CountIn(line, delims) + 1 &&
      AllFreeOf(r.value, delims) &&
      Weave(r.value, KeepOnly(line, delims)) == line
  {
    SplitOnFreeOfDelims(line, delims);
    WeaveSplitOn(line, delims);
  }

  /** The plain collapsing split: the plain split without its empty fields, so no field
      is empty or holds a delimiter, the fields concatenated are the line without its
      delimiters, and there are no fields exactly when every character is a delimiter. */
  lemma IgnoreContiguousFields(line: string, delims: seq<char>)
    ensures var r := Split(IgnoreContiguous, line, delims);
      r.Ok? &&
      r.value == NonEmpty(Split(SplitContiguous, line, delims).value) &&
      (forall i :: 0 <= i < |r.value| ==> r.value[i] != [] && FreeOf(r.value[i], delims)) &&
      Concat(r.value) == RemoveAll(line, delims) &&
      (r.value == [] <==> forall i :: 0 <= i < |line| ==> line[i] in delims)
  {
    var pieces := SplitOn(line, delims);
    SplitOnFreeOfDelims(line, delims);
    NonEmptyFree(pieces, delims);
    ConcatNonEmpty(pieces);
    ConcatSplitOn(line, delims);
    RemoveAllEmpty(line, delims);
    ConcatEmpty(NonEmpty(pieces));
  }

  /** Dropping the empty strings keeps every string free of the delimiters. */
  lemma {:induction false} NonEmptyFree(parts: seq<string>, delims: seq<char>)
    requires AllFreeOf(parts, delims)
    ensures AllFreeOf(NonEmpty(parts), delims)
  {
    if parts != [] {
      AllFreeOfSplit(parts, delims);
      NonEmptyFree(DropLast(parts), delims);
    }
  }

  /** `parts` without a final empty string. */
  function DropTrailingEmpty(parts: seq<string>): seq<string>
  {
    if parts != [] && Last(parts) == [] then DropLast(parts) else parts
  }

  /** On a line without double quotes the automaton tracks the plain split: the field
      being read is its last piece, and the fields done are the other pieces (all of
      them, or the non-empty ones when collapsing). */
  lemma {:induction false} ScanWithoutQuotes(collapse: bool, delims: seq<char>, s: string)
    requires DoubleQuote !in s
    ensures var m := Scan(collapse, delims, s); var t := SplitOn(s, delims);
      m.state != Quoted &&
      m.field == Last(t) &&
      m.fields == (if collapse then NonEmpty(DropLast(t)) else DropLast(t))
  {
    if s != [] {
      var init := DropLast(s);
      assert DoubleQuote !in init by {
        assert forall k :: 0 <= k < |init| ==> init[k] == s[k];
      }
      ScanWithoutQuotes(collapse, delims, init);
      FieldEmptyExactlyBetweenFields(collapse, delims, init);
      var t := SplitOn(init, delims);
      var t' := SplitOn(s, delims);
      if Last(s) in delims {
        assert t' == t + [""];
        assert DropLast(t') == t == DropLast(t) + [Last(t)];
      } else {
        assert t' == DropLast(t) + [Last(t) + [Last(s)]];
        assert DropLast(t') == DropLast(t);
      }
    }
  }

  /** Without double quotes, the quote-aware collapsing split is the plain collapsing split. */
  lemma QuotedIgnoreWithoutQuotes(line: string, delims: seq<char>)
    requires DoubleQuote !in line
    ensures Split(QuotedIgnoreContiguous, line, delims) == Split(IgnoreContiguous, line, delims)
  {
    ScanWithoutQuotes(true, delims, line);
    FieldEmptyExactlyBetweenFields(true, delims, line);
    var t := SplitOn(line, delims);
    var m := Scan(true, delims, line);
    assert NonEmpty(t) == NonEmpty(DropLast(t)) + (if Last(t) == [] then [] else [Last(t)]);
    if m.state == Delimiter {
      assert NonEmpty(t) == m.fields;
    } else {
      assert NonEmpty(t) == m.fields + [m.field];
    }
  }

  /** Without double quotes, the quote-aware non-collapsing split is the plain split
      without a final empty field: the empty line gives no field, and `a,` gives `a`. */
  lemma QuotedSplitWithoutQuotes(line: string, delims: seq<char>)
    requires DoubleQuote !in line
    ensures Split(QuotedSplitContiguous, line, delims) ==
      Ok(DropTrailingEmpty(Split(SplitContiguous, line, delims).value))
  {
    ScanWithoutQuotes(false, delims, line);
    FieldEmptyExactlyBetweenFields(false, delims, line);
    var t := SplitOn(line, delims);
    assert t == DropLast(t) + [Last(t)];
  }
}
