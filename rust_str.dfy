/** Models of the pieces of Rust's standard library that the table tool relies on:
    `Result`, `str::split` with a set of delimiter characters, `str::lines`,
    `[String]::join`, `str::repeat`, left-aligned `format!` padding and the
    `iter().map(|r| r.len()).max().unwrap_or(0)` idiom.

    Every recursive definition here peels off the LAST element, so that the
    value for a prefix `s[..i+1]` unfolds to the value for `s[..i]`; the loops
    elsewhere in the model keep invariants of exactly that shape. */
module RustStr {

  datatype Result<T, E> = Ok(value: T) | Err(error: E)

  function Last<T>(s: seq<T>): T
    requires s != []
  {
    s[|s| - 1]
  }

  function DropLast<T>(s: seq<T>): seq<T>
    requires s != []
  {
    s[..|s| - 1]
  }

  function Max(a: int, b: int): int
  {
    if a < b then b else a
  }

  /** No character of `s` belongs to `cs`. */
  predicate FreeOf(s: string, cs: seq<char>)
  {
    forall i :: 0 <= i < |s| ==> s[i] !in cs
  }

  /** Every string of `parts` is free of `cs`. */
  predicate AllFreeOf(parts: seq<string>, cs: seq<char>)
  {
    forall i :: 0 <= i < |parts| ==> FreeOf(parts[i], cs)
  }

  /** Every character of `s` is one of `cs`. */
  predicate Among(s: string, cs: seq<char>)
  {
    forall i :: 0 <= i < |s| ==> s[i] in cs
  }

  /** Number of characters of `s` that belong to `cs`. */
  function CountIn(s: string, cs: seq<char>): nat
  {
    if s == [] then 0 else CountIn(DropLast(s), cs) + (if Last(s) in cs then 1 else 0)
  }

  /** `s` with every character that belongs to `cs` removed. */
  function RemoveAll(s: string, cs: seq<char>): string
  {
    if s == [] then [] else RemoveAll(DropLast(s), cs) + (if Last(s) in cs then [] else [Last(s)])
  }

  /** The characters of `s` that belong to `cs`, in order. */
  function KeepOnly(s: string, cs: seq<char>): (r: string)
    ensures |r| == CountIn(s, cs)
    ensures Among(r, cs)
  {
    if s == [] then [] else KeepOnly(DropLast(s), cs) + (if Last(s) in cs then [Last(s)] else [])
  }

  /** The strings of `parts` concatenated (`concat()` on a `Vec<String>`). */
  function Concat(parts: seq<string>): string
  {
    if parts == [] then [] else Concat(DropLast(parts)) + Last(parts)
  }

  /** `parts` without its empty strings (`filter(|s| !s.is_empty())`). */
  function NonEmpty(parts: seq<string>): (r: seq<string>)
    ensures forall i :: 0 <= i < |r| ==> r[i] != []
  {
    if parts == [] then []
    else NonEmpty(DropLast(parts)) + (if Last(parts) == [] then [] else [Last(parts)])
  }

  /** `s.split(delims)`: the maximal pieces of `s` between delimiter characters.
      There is always one more piece than there are delimiters, so the empty
      string gives one empty piece. */
  function SplitOn(s: string, delims: seq<char>): (r: seq<string>)
    ensures |r| == CountIn(s, delims) + 1
  {
    if s == [] then [""]
    else
      var init := SplitOn(DropLast(s), delims);
      if Last(s) in delims then init + [""]
      else DropLast(init) + [Last(init) + [Last(s)]]
  }

  /** Puts `seps[k]` between `fields[k]` and `fields[k + 1]`: the inverse of `SplitOn`. */
  function Weave(fields: seq<string>, seps: string): string
    requires |fields| == |seps| + 1
  {
    if seps == [] then fields[0]
    else Weave(DropLast(fields), DropLast(seps)) + [Last(seps)] + Last(fields)
  }

  /** `parts.join(sep)`. */
  function Join(parts: seq<string>, sep: string): string
  {
    if parts == [] then []
    else if |parts| == 1 then parts[0]
    else Join(DropLast(parts), sep) + sep + Last(parts)
  }

  /** `s.repeat(n)`. */
  function Repeat(s: string, n: nat): (r: string)
    ensures |r| == n * |s|
    ensures |s| == 1 ==> forall i :: 0 <= i < |r| ==> r[i] == s[0]
  {
    if n == 0 then [] else Repeat(s, n - 1) + s
  }

  /** `format!("{:<width$}", s)`: `s` left-aligned, padded with spaces to `width` characters. */
  function PadRight(s: string, width: nat): (r: string)
    ensures |r| == Max(|s|, width)
    ensures r[..|s|] == s
    ensures forall i :: |s| <= i < |r| ==> r[i] == ' '
  {
    if |s| < width then s + Repeat(" ", width - |s|) else s
  }

  /** `rows.iter().map(|r| r.len()).max().unwrap_or(0)`: the length of the longest row, 0 for no rows. */
  function MaxLength<T>(rows: seq<seq<T>>): (n: nat)
    ensures forall i :: 0 <= i < |rows| ==> |rows[i]| <= n
    ensures rows == [] ==> n == 0
    ensures rows != [] ==> exists i :: 0 <= i < |rows| && |rows[i]| == n
  {
    if rows == [] then 0
    else
      var m := MaxLength(DropLast(rows));
      assert forall i :: 0 <= i < |rows| - 1 ==> rows[i] == DropLast(rows)[i];
      if |Last(rows)| > m then |Last(rows)| else m
  }

  /** `iter().skip(n)`: all but the first `n` elements, none when there are fewer. */
  function Skip<T>(s: seq<T>, n: nat): (r: seq<T>)
    ensures |r| == if n <= |s| then |s| - n else 0
    ensures forall i :: 0 <= i < |r| ==> r[i] == s[n + i]
  {
    if n <= |s| then s[n..] else []
  }

  /** One line with its line terminator removed: `\r\n` counts as one terminator. */
  function StripCR(s: string): (r: string)
    ensures s == r || s == r + "\r"
  {
    if s != [] && Last(s) == '\r' then DropLast(s) else s
  }

  /** `s.lines()`: the pieces between `\n` characters, a trailing `\r` removed from
      every piece that a `\n` ends; the final `\n` is optional, so it adds no empty line,
      and the empty text has no lines. */
  function StrLines(s: string): (r: seq<string>)
    ensures |r| == CountIn(s, "\n") + (if s == [] || Last(s) == '\n' then 0 else 1)
    ensures AllFreeOf(r, "\n")
  {
    var pieces := SplitOn(s, "\n");
    SplitOnLastEmpty(s, "\n");
    SplitOnFreeOfDelims(s, "\n");
    var ended := seq(|pieces| - 1, i requires 0 <= i < |pieces| - 1 => StripCR(pieces[i]));
    if Last(pieces) == [] then ended else ended + [Last(pieces)]
  }

  // ---------------------------------------------------------------------------
  // Lemmas about SplitOn, Weave and Join
  // ---------------------------------------------------------------------------

  /** One more character: a delimiter starts a new piece, anything else extends the last one. */
  lemma SplitOnSnoc(s: string, c: char, delims: seq<char>)
    ensures SplitOn(s + [c], delims) ==
      if c in delims then SplitOn(s, delims) + [""]
      else DropLast(SplitOn(s, delims)) + [Last(SplitOn(s, delims)) + [c]]
  {
    assert DropLast(s + [c]) == s;
    assert Last(s + [c]) == c;
  }

  /** `a + b` is `a` followed by all but the last of `b`, then the last of `b`. */
  lemma AppendSnoc<T>(a: seq<T>, b: seq<T>)
    requires b != []
    ensures a + b == (a + DropLast(b)) + [Last(b)]
  {
  }

  /** Extending the last piece of `a + b` extends the last piece of `b`. */
  lemma AppendExtendLast(a: seq<string>, b: seq<string>, z: string)
    requires b != []
    ensures DropLast(a + b) + [Last(a + b) + z] == a + (DropLast(b) + [Last(b) + z])
  {
    assert DropLast(a + b) == a + DropLast(b);
  }

  /** No piece of a split holds a delimiter. */
  lemma {:induction false} SplitOnFreeOfDelims(s: string, delims: seq<char>)
    ensures AllFreeOf(SplitOn(s, delims), delims)
  {
    if s != [] {
      SplitOnFreeOfDelims(DropLast(s), delims);
    }
  }

  lemma AllFreeOfSplit(parts: seq<string>, cs: seq<char>)
    requires parts != [] && AllFreeOf(parts, cs)
    ensures AllFreeOf(DropLast(parts), cs) && FreeOf(Last(parts), cs)
  {
    assert forall i :: 0 <= i < |parts| - 1 ==> DropLast(parts)[i] == parts[i];
  }

  lemma AmongSplit(s: string, cs: seq<char>)
    requires s != [] && Among(s, cs)
    ensures Among(DropLast(s), cs) && Last(s) in cs
  {
    assert forall i :: 0 <= i < |s| - 1 ==> DropLast(s)[i] == s[i];
  }

  /** The last piece of a split is empty exactly when the text is empty or ends in a delimiter. */
  lemma SplitOnLastEmpty(s: string, delims: seq<char>)
    ensures Last(SplitOn(s, delims)) == [] <==> (s == [] || Last(s) in delims)
  {
  }

  lemma WeaveAppend(fields: seq<string>, seps: string, y: string)
    requires |fields| == |seps| + 1
    ensures Weave(DropLast(fields) + [Last(fields) + y], seps) == Weave(fields, seps) + y
  {
    var f' := DropLast(fields) + [Last(fields) + y];
    if seps != [] {
      assert DropLast(f') == DropLast(fields);
    }
  }

  /** Putting the delimiters back between the pieces gives the text back. */
  lemma {:induction false} WeaveSplitOn(s: string, delims: seq<char>)
    ensures Weave(SplitOn(s, delims), KeepOnly(s, delims)) == s
  {
    if s != [] {
      var init, c := DropLast(s), Last(s);
      assert s == init + [c];
      WeaveSplitOn(init, delims);
      var t, k := SplitOn(init, delims), KeepOnly(init, delims);
      if c in delims {
        assert SplitOn(s, delims) == t + [""];
        assert KeepOnly(s, delims) == k + [c];
        assert DropLast(t + [""]) == t && Last(t + [""]) == "";
        assert DropLast(k + [c]) == k && Last(k + [c]) == c;
        assert Weave(t + [""], k + [c]) == Weave(t, k) + [c] + "";
      } else {
        assert SplitOn(s, delims) == DropLast(t) + [Last(t) + [c]];
        assert KeepOnly(s, delims) == k;
        WeaveAppend(t, k, [c]);
      }
    }
  }

  /** Appending delimiter-free text extends the last piece only. */
  lemma {:induction false} SplitOnAppendFree(x: string, y: string, delims: seq<char>)
    requires FreeOf(y, delims)
    ensures SplitOn(x + y, delims) == DropLast(SplitOn(x, delims)) + [Last(SplitOn(x, delims)) + y]
  {
    var t := SplitOn(x, delims);
    if y == [] {
      assert x + y == x;
      assert Last(t) + y == Last(t);
      assert t == DropLast(t) + [Last(t)];
    } else {
      var y', c := DropLast(y), Last(y);
      assert FreeOf(y', delims) && c !in delims by {
        assert forall i :: 0 <= i < |y'| ==> y'[i] == y[i];
        assert c == y[|y| - 1];
      }
      SplitOnAppendFree(x, y', delims);
      AppendSnoc(x, y);
      AppendSnoc(Last(t), y);
      SplitOnSnoc(x + y', c, delims);
      var u := DropLast(t) + [Last(t) + y'];
      assert DropLast(u) == DropLast(t) && Last(u) == Last(t) + y';
    }
  }

  /** `SplitOnAppendFree` with the pieces of `x` given as `init + [last]`. */
  lemma SplitOnExtendLast(x: string, y: string, delims: seq<char>, init: seq<string>, last: string)
    requires SplitOn(x, delims) == init + [last]
    requires FreeOf(y, delims)
    ensures SplitOn(x + y, delims) == init + [last + y]
  {
    SplitOnAppendFree(x, y, delims);
    assert DropLast(init + [last]) == init;
  }

  /** Text free of delimiters is one piece. */
  lemma SplitOnFree(x: string, delims: seq<char>)
    requires FreeOf(x, delims)
    ensures SplitOn(x, delims) == [x]
  {
    SplitOnAppendFree([], x, delims);
    assert [] + x == x;
  }

  /** Splitting at a delimiter splits the pieces there. */
  lemma {:induction false} SplitOnConcat(x: string, d: char, y: string, delims: seq<char>)
    requires d in delims
    ensures SplitOn(x + [d] + y, delims) == SplitOn(x, delims) + SplitOn(y, delims)
  {
    if y == [] {
      assert x + [d] + y == x + [d];
      SplitOnSnoc(x, d, delims);
    } else {
      var y', c := DropLast(y), Last(y);
      SplitOnConcat(x, d, y', delims);
      assert y == y' + [c];
      assert x + [d] + y == (x + [d] + y') + [c];
      SplitOnSnoc(x + [d] + y', c, delims);
      SplitOnSnoc(y', c, delims);
      var a, b := SplitOn(x, delims), SplitOn(y', delims);
      if c in delims {
        assert (a + b) + [""] == a + (b + [""]);
      } else {
        AppendExtendLast(a, b, [c]);
      }
    }
  }

  /** Splitting woven delimiter-free fields gives the fields back. */
  lemma {:induction false} SplitOnWeave(fields: seq<string>, seps: string, delims: seq<char>)
    requires |fields| == |seps| + 1
    requires AllFreeOf(fields, delims)
    requires Among(seps, delims)
    ensures SplitOn(Weave(fields, seps), delims) == fields
  {
    if seps == [] {
      SplitOnFree(fields[0], delims);
    } else {
      var init, z := DropLast(fields), Last(fields);
      AllFreeOfSplit(fields, delims);
      AmongSplit(seps, delims);
      SplitOnWeave(init, DropLast(seps), delims);
      SplitOnConcat(Weave(init, DropLast(seps)), Last(seps), z, delims);
      SplitOnFree(z, delims);
    }
  }

  /** Every part but the last followed by `s`. */
  function Suffixed(parts: seq<string>, s: string): (r: seq<string>)
    requires parts != []
    ensures |r| == |parts| && Last(r) == Last(parts)
    ensures forall i :: 0 <= i < |parts| - 1 ==> r[i] == parts[i] + s
  {
    if |parts| == 1 then parts
    else
      var init := Suffixed(DropLast(parts), s);
      DropLast(init) + [Last(init) + s] + [Last(parts)]
  }

  /** The parts with `s` placed between each two of them. */
  function Interleaved(parts: seq<string>, s: string): (r: seq<string>)
    requires parts != []
    ensures |r| == 2 * |parts| - 1
  {
    if |parts| == 1 then parts
    else Interleaved(DropLast(parts), s) + [s] + [Last(parts)]
  }

  /** `Interleaved` puts the parts at the even positions and `s` at the odd ones. */
  lemma {:induction false} InterleavedAt(parts: seq<string>, s: string)
    requires parts != []
    ensures forall i :: 0 <= i < |parts| ==> Interleaved(parts, s)[2 * i] == parts[i]
    ensures forall i :: 0 <= i < |parts| - 1 ==> Interleaved(parts, s)[2 * i + 1] == s
  {
    if |parts| > 1 {
      var init := DropLast(parts);
      InterleavedAt(init, s);
      var r := Interleaved(parts, s);
      assert r == Interleaved(init, s) + [s] + [Last(parts)];
      forall i | 0 <= i < |parts|
        ensures r[2 * i] == parts[i]
      {
        if i < |parts| - 1 {
          assert r[2 * i] == Interleaved(init, s)[2 * i];
        }
      }
      forall i | 0 <= i < |parts| - 1
        ensures r[2 * i + 1] == s
      {
        if i < |parts| - 2 {
          assert r[2 * i + 1] == Interleaved(init, s)[2 * i + 1];
        }
      }
    }
  }

  /** Splitting `parts.join(s + [d])` on `d` gives every part but the last followed by `s`. */
  lemma {:induction false} SplitOnJoin(parts: seq<string>, s: string, d: char)
    requires parts != []
    requires AllFreeOf(parts, [d]) && FreeOf(s, [d])
    ensures SplitOn(Join(parts, s + [d]), [d]) == Suffixed(parts, s)
  {
    if |parts| == 1 {
      SplitOnFree(parts[0], [d]);
    } else {
      var init, z := DropLast(parts), Last(parts);
      AllFreeOfSplit(parts, [d]);
      SplitOnJoin(init, s, d);
      var j := Join(init, s + [d]);
      assert Join(parts, s + [d]) == (j + s) + [d] + z;
      SplitOnConcat(j + s, d, z, [d]);
      SplitOnFree(z, [d]);
      SplitOnAppendFree(j, s, [d]);
    }
  }

  /** `join` puts one separator between each two parts and nothing else. */
  lemma {:induction false} JoinLength(parts: seq<string>, sep: string)
    requires parts != []
    ensures |Join(parts, sep)| == |Concat(parts)| + (|parts| - 1) * |sep|
  {
    if |parts| > 1 {
      JoinLength(DropLast(parts), sep);
      assert (|parts| - 2) * |sep| + |sep| == (|parts| - 1) * |sep|;
    }
  }

  /** Splitting `parts.join(d)` on `d` gives the parts back. */
  lemma SplitOnJoinChar(parts: seq<string>, d: char)
    requires parts != [] && AllFreeOf(parts, [d])
    ensures SplitOn(Join(parts, [d]), [d]) == parts
  {
    assert "" + [d] == [d];
    SplitOnJoin(parts, "", d);
    SuffixedEmpty(parts);
  }

  /** A line, a line break, and more text: the line, then the lines of the rest. */
  lemma LineThen(line: string, rest: string)
    requires FreeOf(line, "\n")
    ensures SplitOn(line + "\n" + rest, "\n") == [line] + SplitOn(rest, "\n")
  {
    assert line + "\n" + rest == line + ['\n'] + rest;
    SplitOnConcat(line, '\n', rest, "\n");
    SplitOnFree(line, "\n");
  }

  /** Splitting `parts.join(q + s + q)` on `q` gives the parts with `s` between them. */
  lemma {:induction false} SplitOnJoinQuoted(parts: seq<string>, s: string, q: char)
    requires parts != []
    requires AllFreeOf(parts, [q]) && FreeOf(s, [q])
    ensures SplitOn(Join(parts, [q] + s + [q]), [q]) == Interleaved(parts, s)
  {
    if |parts| == 1 {
      SplitOnFree(parts[0], [q]);
    } else {
      var init, z := DropLast(parts), Last(parts);
      AllFreeOfSplit(parts, [q]);
      SplitOnJoinQuoted(init, s, q);
      var j := Join(init, [q] + s + [q]);
      QuotedSeparator(j, q, s, z);
      assert SplitOn(s + [q] + z, [q]) == [s, z] by {
        SplitOnConcat(s, q, z, [q]);
        SplitOnFree(s, [q]);
        SplitOnFree(z, [q]);
      }
      SplitOnConcat(j, q, s + [q] + z, [q]);
      assert Interleaved(init, s) + [s] + [z] == Interleaved(init, s) + [s, z];
    }
  }

  lemma AppendAssoc<T>(a: seq<T>, b: seq<T>, c: seq<T>)
    ensures a + (b + c) == a + b + c
  {
  }

  lemma QuotedSeparator(j: string, q: char, s: string, z: string)
    ensures j + ([q] + s + [q]) + z == j + [q] + (s + [q] + z)
  {
  }

  // ---------------------------------------------------------------------------
  // Lemmas about concatenation and filtering
  // ---------------------------------------------------------------------------

  lemma ConcatAppend(parts: seq<string>, x: string)
    ensures Concat(parts + [x]) == Concat(parts) + x
  {
    assert DropLast(parts + [x]) == parts;
  }

  /** Dropping empty strings does not change the concatenation. */
  lemma {:induction false} ConcatNonEmpty(parts: seq<string>)
    ensures Concat(NonEmpty(parts)) == Concat(parts)
  {
    if parts != [] {
      ConcatNonEmpty(DropLast(parts));
      if Last(parts) != [] {
        ConcatAppend(NonEmpty(DropLast(parts)), Last(parts));
      } else {
        assert NonEmpty(parts) == NonEmpty(DropLast(parts));
      }
    }
  }

  /** The pieces of a split, concatenated, are the text without its delimiters. */
  lemma {:induction false} ConcatSplitOn(s: string, delims: seq<char>)
    ensures Concat(SplitOn(s, delims)) == RemoveAll(s, delims)
  {
    if s != [] {
      var t := SplitOn(DropLast(s), delims);
      ConcatSplitOn(DropLast(s), delims);
      if Last(s) in delims {
        ConcatAppend(t, "");
      } else {
        ConcatAppend(DropLast(t), Last(t) + [Last(s)]);
        ConcatAppend(DropLast(t), Last(t));
        assert DropLast(t) + [Last(t)] == t;
      }
    }
  }

  /** Text without its delimiters is empty exactly when every character is a delimiter. */
  lemma {:induction false} RemoveAllEmpty(s: string, delims: seq<char>)
    ensures RemoveAll(s, delims) == [] <==> forall i :: 0 <= i < |s| ==> s[i] in delims
  {
    if s != [] {
      RemoveAllEmpty(DropLast(s), delims);
      assert forall i :: 0 <= i < |s| - 1 ==> s[i] == DropLast(s)[i];
    }
  }

  /** A concatenation of non-empty strings is empty only when there are none. */
  lemma ConcatEmpty(parts: seq<string>)
    requires forall i :: 0 <= i < |parts| ==> parts[i] != []
    ensures Concat(parts) == [] <==> parts == []
  {
    if parts != [] {
      assert |Concat(parts)| >= |Last(parts)| > 0;
    }
  }

  // ---------------------------------------------------------------------------
  // str::lines
  // ---------------------------------------------------------------------------

  lemma SuffixedEmpty(parts: seq<string>)
    requires parts != []
    ensures Suffixed(parts, "") == parts
  {
    var r := Suffixed(parts, "");
    assert forall i :: 0 <= i < |parts| - 1 ==> r[i] == parts[i] + "" == parts[i];
  }

  /** Joining with one more, empty, part ends the text with the separator. */
  lemma JoinTerminated(parts: seq<string>, sep: string)
    requires sep != []
    ensures Join(parts + [""], sep) == [] || Last(Join(parts + [""], sep)) == Last(sep)
  {
    if parts != [] {
      assert DropLast(parts + [""]) == parts;
      assert Join(parts + [""], sep) == Join(parts, sep) + sep + "";
    }
  }

  lemma AllFreeOfSnoc(parts: seq<string>, x: string, cs: seq<char>)
    requires AllFreeOf(parts, cs) && FreeOf(x, cs)
    ensures AllFreeOf(parts + [x], cs)
  {
    assert forall i :: 0 <= i < |parts| ==> (parts + [x])[i] == parts[i];
  }

  /** Text that ends with its terminator: every piece but the final empty one is a line. */
  lemma StrLinesTerminated(s: string)
    requires s == [] || Last(s) == '\n'
    ensures |StrLines(s)| == |SplitOn(s, "\n")| - 1
    ensures forall i :: 0 <= i < |StrLines(s)| ==> StrLines(s)[i] == StripCR(SplitOn(s, "\n")[i])
  {
    SplitOnLastEmpty(s, "\n");
  }

  /** Lines written out each with its terminator (`\n`, or `\r\n` when `cr` is `"\r"`)
      are read back by `lines()` unchanged, provided no line holds a `\n` and, for
      plain `\n` terminators, no line ends in `\r`. */
  lemma StrLinesOfTerminated(ls: seq<string>, cr: string)
    requires cr == "" || cr == "\r"
    requires AllFreeOf(ls, "\n")
    requires cr == "" ==> forall i :: 0 <= i < |ls| ==> ls[i] == [] || Last(ls[i]) != '\r'
    ensures StrLines(Join(ls + [""], cr + "\n")) == ls
  {
    var all := ls + [""];
    var text := Join(all, cr + "\n");
    AllFreeOfSnoc(ls, "", "\n");
    JoinTerminated(ls, cr + "\n");
    assert |SplitOn(text, "\n")| == |ls| + 1 by {
      SplitOnJoin(all, cr, '\n');
    }
    assert forall i :: 0 <= i < |ls| ==> SplitOn(text, "\n")[i] == ls[i] + cr by {
      SplitOnJoin(all, cr, '\n');
      assert forall i :: 0 <= i < |ls| ==> all[i] == ls[i];
    }
    StrLinesOfPieces(text, ls, cr);
  }

  lemma StrLinesOfPieces(text: string, ls: seq<string>, cr: string)
    requires cr == "" || cr == "\r"
    requires cr == "" ==> forall i :: 0 <= i < |ls| ==> ls[i] == [] || Last(ls[i]) != '\r'
    requires text == [] || Last(text) == '\n'
    requires |SplitOn(text, "\n")| == |ls| + 1
    requires forall i :: 0 <= i < |ls| ==> SplitOn(text, "\n")[i] == ls[i] + cr
    ensures StrLines(text) == ls
  {
    StrLinesTerminated(text);
    var r := StrLines(text);
    forall i | 0 <= i < |ls|
      ensures r[i] == ls[i]
    {
      if cr == "\r" {
        assert DropLast(ls[i] + cr) == ls[i];
      } else {
        assert ls[i] + cr == ls[i];
      }
    }
  }

  // ---------------------------------------------------------------------------
  // Characters a string is free of
  // ---------------------------------------------------------------------------

  lemma FreeOfAppend(a: string, b: string, cs: seq<char>)
    requires FreeOf(a, cs) && FreeOf(b, cs)
    ensures FreeOf(a + b, cs)
  {
    assert forall i :: |a| <= i < |a + b| ==> (a + b)[i] == b[i - |a|];
  }

  lemma {:induction false} FreeOfRepeat(s: string, n: nat, cs: seq<char>)
    requires FreeOf(s, cs)
    ensures FreeOf(Repeat(s, n), cs)
  {
    if n > 0 {
      FreeOfRepeat(s, n - 1, cs);
      FreeOfAppend(Repeat(s, n - 1), s, cs);
    }
  }

  lemma FreeOfPadRight(s: string, width: nat, cs: seq<char>)
    requires FreeOf(s, cs) && ' ' !in cs
    ensures FreeOf(PadRight(s, width), cs)
  {
  }

  lemma {:induction false} FreeOfJoin(parts: seq<string>, sep: string, cs: seq<char>)
    requires AllFreeOf(parts, cs) && FreeOf(sep, cs)
    ensures FreeOf(Join(parts, sep), cs)
  {
    if |parts| > 1 {
      AllFreeOfSplit(parts, cs);
      FreeOfJoin(DropLast(parts), sep, cs);
      FreeOfAppend(Join(DropLast(parts), sep), sep, cs);
      FreeOfAppend(Join(DropLast(parts), sep) + sep, Last(parts), cs);
    } else if |parts| == 1 {
      assert FreeOf(parts[0], cs);
    }
  }
}
