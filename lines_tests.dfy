/** The sample line of the line-splitting unit tests, split four ways on two
    delimiter sets.  A quoted field keeps its quotes and, on a quote-aware split,
    the delimiters inside it. */
module LinesTests {
  import opened RustStr
  import opened Lines

  const Sample: string := "asdklsaj,,,alskjd,\"kas  jd\",,ksjd,sk,d"

  /** The sample line cut into the pieces the step lemmas below read one at a time. */
  lemma SampleSegments()
    ensures "" + "asdklsaj," + ",," + "alskjd," + "\"kas " + " jd\"" + ",," + "ksjd," + "sk," + "d" == Sample
  {
  }

  /** The plain split on space and comma. */
  lemma SampleSplitSpaceComma()
    ensures Split(SplitContiguous, Sample, " ,") == Ok(["asdklsaj", "", "", "alskjd", "\"kas", "", "jd\"", "", "ksjd", "sk", "d"])
  {
    PlainStep1(" ,", "");
    PlainStep2(" ,", "" + "asdklsaj,");
    PlainStep3(" ,", "" + "asdklsaj," + ",,");
    PlainSpaceComma4("" + "asdklsaj," + ",," + "alskjd,");
    PlainSpaceComma5("" + "asdklsaj," + ",," + "alskjd," + "\"kas ");
    PlainSpaceComma6("" + "asdklsaj," + ",," + "alskjd," + "\"kas " + " jd\"");
    PlainSpaceComma7("" + "asdklsaj," + ",," + "alskjd," + "\"kas " + " jd\"" + ",,");
    PlainSpaceComma8("" + "asdklsaj," + ",," + "alskjd," + "\"kas " + " jd\"" + ",," + "ksjd,");
    PlainSpaceComma9("" + "asdklsaj," + ",," + "alskjd," + "\"kas " + " jd\"" + ",," + "ksjd," + "sk,");
    SampleSegments();
  }

  /** The plain collapsing split on space and comma: the plain split without its empty fields. */
  lemma SampleIgnoreSpaceComma()
    ensures Split(IgnoreContiguous, Sample, " ,") == Ok(["asdklsaj", "alskjd", "\"kas", "jd\"", "ksjd", "sk", "d"])
  {
    SampleSplitSpaceComma();
    NonEmptyPiecesSpaceComma();
  }

  /** The quote-aware split on space and comma: the quoted field stays whole, quotes included. */
  lemma SampleQuotedSpaceComma()
    ensures Split(QuotedSplitContiguous, Sample, " ,") == Ok(["asdklsaj", "", "", "alskjd", "\"kas  jd\"", "", "ksjd", "sk", "d"])
  {
    SampleQuotedOn(" ,");
  }

  /** The quote-aware collapsing split on space and comma. */
  lemma SampleQuotedIgnoreSpaceComma()
    ensures Split(QuotedIgnoreContiguous, Sample, " ,") == Ok(["asdklsaj", "alskjd", "\"kas  jd\"", "ksjd", "sk", "d"])
  {
    SampleQuotedSpaceComma();
    QuotedIgnoreIsQuotedSplitNonEmpty(Sample, " ,");
    NonEmptyPiecesComma();
  }

  /** Field counts of the four line kinds on space and comma: 11, 7, 9 and 6. */
  lemma SampleNumFieldsSpaceComma()
    ensures NumFields(SplitContiguous, Sample, " ,") == Ok(11)
    ensures NumFields(IgnoreContiguous, Sample, " ,") == Ok(7)
    ensures NumFields(QuotedSplitContiguous, Sample, " ,") == Ok(9)
    ensures NumFields(QuotedIgnoreContiguous, Sample, " ,") == Ok(6)
  {
    SampleSplitSpaceComma();
    SampleIgnoreSpaceComma();
    SampleQuotedSpaceComma();
    SampleQuotedIgnoreSpaceComma();
  }

  /** The plain split on comma. */
  lemma SampleSplitComma()
    ensures Split(SplitContiguous, Sample, ",") == Ok(["asdklsaj", "", "", "alskjd", "\"kas  jd\"", "", "ksjd", "sk", "d"])
  {
    PlainStep1(",", "");
    PlainStep2(",", "" + "asdklsaj,");
    PlainStep3(",", "" + "asdklsaj," + ",,");
    PlainComma4("" + "asdklsaj," + ",," + "alskjd,");
    PlainComma5("" + "asdklsaj," + ",," + "alskjd," + "\"kas ");
    PlainComma6("" + "asdklsaj," + ",," + "alskjd," + "\"kas " + " jd\"");
    PlainComma7("" + "asdklsaj," + ",," + "alskjd," + "\"kas " + " jd\"" + ",,");
    PlainComma8("" + "asdklsaj," + ",," + "alskjd," + "\"kas " + " jd\"" + ",," + "ksjd,");
    PlainComma9("" + "asdklsaj," + ",," + "alskjd," + "\"kas " + " jd\"" + ",," + "ksjd," + "sk,");
    SampleSegments();
  }

  /** The plain collapsing split on comma: the plain split without its empty fields. */
  lemma SampleIgnoreComma()
    ensures Split(IgnoreContiguous, Sample, ",") == Ok(["asdklsaj", "alskjd", "\"kas  jd\"", "ksjd", "sk", "d"])
  {
    SampleSplitComma();
    NonEmptyPiecesComma();
  }

  /** The quote-aware split on comma: the quoted field stays whole, quotes included. */
  lemma SampleQuotedComma()
    ensures Split(QuotedSplitContiguous, Sample, ",") == Ok(["asdklsaj", "", "", "alskjd", "\"kas  jd\"", "", "ksjd", "sk", "d"])
  {
    SampleQuotedOn(",");
  }

  /** The quote-aware collapsing split on comma. */
  lemma SampleQuotedIgnoreComma()
    ensures Split(QuotedIgnoreContiguous, Sample, ",") == Ok(["asdklsaj", "alskjd", "\"kas  jd\"", "ksjd", "sk", "d"])
  {
    SampleQuotedComma();
    QuotedIgnoreIsQuotedSplitNonEmpty(Sample, ",");
    NonEmptyPiecesComma();
  }

  /** Field counts of the four line kinds on comma: 9, 6, 9 and 6. */
  lemma SampleNumFieldsComma()
    ensures NumFields(SplitContiguous, Sample, ",") == Ok(9)
    ensures NumFields(IgnoreContiguous, Sample, ",") == Ok(6)
    ensures NumFields(QuotedSplitContiguous, Sample, ",") == Ok(9)
    ensures NumFields(QuotedIgnoreContiguous, Sample, ",") == Ok(6)
  {
    SampleSplitComma();
    SampleIgnoreComma();
    SampleQuotedComma();
    SampleQuotedIgnoreComma();
  }

  lemma NonEmptyPiecesSpaceComma()
    ensures NonEmpty(["asdklsaj", "", "", "alskjd", "\"kas", "", "jd\"", "", "ksjd", "sk", "d"]) == ["asdklsaj", "alskjd", "\"kas", "jd\"", "ksjd", "sk", "d"]
  {
    assert DropLast(["asdklsaj", "", "", "alskjd", "\"kas", "", "jd\"", "", "ksjd", "sk", "d"]) == ["asdklsaj", "", "", "alskjd", "\"kas", "", "jd\"", "", "ksjd", "sk"];
    assert DropLast(["asdklsaj", "", "", "alskjd", "\"kas", "", "jd\"", "", "ksjd", "sk"]) == ["asdklsaj", "", "", "alskjd", "\"kas", "", "jd\"", "", "ksjd"];
    assert DropLast(["asdklsaj", "", "", "alskjd", "\"kas", "", "jd\"", "", "ksjd"]) == ["asdklsaj", "", "", "alskjd", "\"kas", "", "jd\"", ""];
    assert DropLast(["asdklsaj", "", "", "alskjd", "\"kas", "", "jd\"", ""]) == ["asdklsaj", "", "", "alskjd", "\"kas", "", "jd\""];
    assert DropLast(["asdklsaj", "", "", "alskjd", "\"kas", "", "jd\""]) == ["asdklsaj", "", "", "alskjd", "\"kas", ""];
    assert DropLast(["asdklsaj", "", "", "alskjd", "\"kas", ""]) == ["asdklsaj", "", "", "alskjd", "\"kas"];
    assert DropLast(["asdklsaj", "", "", "alskjd", "\"kas"]) == ["asdklsaj", "", "", "alskjd"];
    assert DropLast(["asdklsaj", "", "", "alskjd"]) == ["asdklsaj", "", ""];
    assert DropLast(["asdklsaj", "", ""]) == ["asdklsaj", ""];
    assert DropLast(["asdklsaj", ""]) == ["asdklsaj"];
    assert DropLast(["asdklsaj"]) == [];
  }

  lemma NonEmptyPiecesComma()
    ensures NonEmpty(["asdklsaj", "", "", "alskjd", "\"kas  jd\"", "", "ksjd", "sk", "d"]) == ["asdklsaj", "alskjd", "\"kas  jd\"", "ksjd", "sk", "d"]
  {
    assert DropLast(["asdklsaj", "", "", "alskjd", "\"kas  jd\"", "", "ksjd", "sk", "d"]) == ["asdklsaj", "", "", "alskjd", "\"kas  jd\"", "", "ksjd", "sk"];
    assert DropLast(["asdklsaj", "", "", "alskjd", "\"kas  jd\"", "", "ksjd", "sk"]) == ["asdklsaj", "", "", "alskjd", "\"kas  jd\"", "", "ksjd"];
    assert DropLast(["asdklsaj", "", "", "alskjd", "\"kas  jd\"", "", "ksjd"]) == ["asdklsaj", "", "", "alskjd", "\"kas  jd\"", ""];
    assert DropLast(["asdklsaj", "", "", "alskjd", "\"kas  jd\"", ""]) == ["asdklsaj", "", "", "alskjd", "\"kas  jd\""];
    assert DropLast(["asdklsaj", "", "", "alskjd", "\"kas  jd\""]) == ["asdklsaj", "", "", "alskjd"];
    assert DropLast(["asdklsaj", "", "", "alskjd"]) == ["asdklsaj", "", ""];
    assert DropLast(["asdklsaj", "", ""]) == ["asdklsaj", ""];
    assert DropLast(["asdklsaj", ""]) == ["asdklsaj"];
    assert DropLast(["asdklsaj"]) == [];
  }

  /** The delimiter sets of the unit tests: both split the quote-aware sample alike. */
  predicate SampleDelims(delims: seq<char>)
  {
    delims == " ," || delims == ","
  }

  /** A word of lower-case letters holds neither a sample delimiter nor a quote. */
  lemma LetterWord(w: string, delims: seq<char>)
    requires SampleDelims(delims)
    requires forall i :: 0 <= i < |w| ==> 'a' <= w[i] <= 'z'
    ensures FreeOf(w, delims) && FreeOf(w, delims + [DoubleQuote])
  {
  }

  /** The quote-aware split of the sample on either delimiter set of the unit tests. */
  lemma SampleQuotedOn(delims: seq<char>)
    requires SampleDelims(delims)
    ensures Split(QuotedSplitContiguous, Sample, delims) == Ok(["asdklsaj", "", "", "alskjd", "\"kas  jd\"", "", "ksjd", "sk", "d"])
  {
    assert Resume(false, delims, Start, "" + "asdklsaj,") == Scanner(Delimiter, "", [] + ["asdklsaj"]) by {
      LetterWord("asdklsaj", delims);
      WordThenDelimiter(false, delims, [], "asdklsaj", ',');
      assert "asdklsaj" + [','] == "asdklsaj,";
      ResumeConcat(false, delims, Start, "", "asdklsaj,");
    }
    assert Resume(false, delims, Start, "" + "asdklsaj," + ",,") == Scanner(Delimiter, "", [] + ["asdklsaj"] + ["", ""]) by {
      QuotedStep2(delims, [] + ["asdklsaj"]);
      ResumeConcat(false, delims, Start, "" + "asdklsaj,", ",,");
    }
    assert Resume(false, delims, Start, "" + "asdklsaj," + ",," + "alskjd,") == Scanner(Delimiter, "", [] + ["asdklsaj"] + ["", ""] + ["alskjd"]) by {
      LetterWord("alskjd", delims);
      WordThenDelimiter(false, delims, [] + ["asdklsaj"] + ["", ""], "alskjd", ',');
      assert "alskjd" + [','] == "alskjd,";
      ResumeConcat(false, delims, Start, "" + "asdklsaj," + ",,", "alskjd,");
    }
    assert Resume(false, delims, Start, "" + "asdklsaj," + ",," + "alskjd," + "\"kas ") == Scanner(Quoted, "\"kas ", [] + ["asdklsaj"] + ["", ""] + ["alskjd"]) by {
      QuotedStep4(delims, [] + ["asdklsaj"] + ["", ""] + ["alskjd"]);
      ResumeConcat(false, delims, Start, "" + "asdklsaj," + ",," + "alskjd,", "\"kas ");
    }
    assert Resume(false, delims, Start, "" + "asdklsaj," + ",," + "alskjd," + "\"kas " + " jd\"") == Scanner(Unquoted, "\"kas  jd\"", [] + ["asdklsaj"] + ["", ""] + ["alskjd"]) by {
      QuotedStep5(delims, [] + ["asdklsaj"] + ["", ""] + ["alskjd"]);
      ResumeConcat(false, delims, Start, "" + "asdklsaj," + ",," + "alskjd," + "\"kas ", " jd\"");
    }
    assert Resume(false, delims, Start, "" + "asdklsaj," + ",," + "alskjd," + "\"kas " + " jd\"" + ",,") == Scanner(Delimiter, "", [] + ["asdklsaj"] + ["", ""] + ["alskjd"] + ["\"kas  jd\"", ""]) by {
      QuotedStep6(delims, [] + ["asdklsaj"] + ["", ""] + ["alskjd"]);
      ResumeConcat(false, delims, Start, "" + "asdklsaj," + ",," + "alskjd," + "\"kas " + " jd\"", ",,");
    }
    assert Resume(false, delims, Start, "" + "asdklsaj," + ",," + "alskjd," + "\"kas " + " jd\"" + ",," + "ksjd,") == Scanner(Delimiter, "", [] + ["asdklsaj"] + ["", ""] + ["alskjd"] + ["\"kas  jd\"", ""] + ["ksjd"]) by {
      LetterWord("ksjd", delims);
      WordThenDelimiter(false, delims, [] + ["asdklsaj"] + ["", ""] + ["alskjd"] + ["\"kas  jd\"", ""], "ksjd", ',');
      assert "ksjd" + [','] == "ksjd,";
      ResumeConcat(false, delims, Start, "" + "asdklsaj," + ",," + "alskjd," + "\"kas " + " jd\"" + ",,", "ksjd,");
    }
    assert Resume(false, delims, Start, "" + "asdklsaj," + ",," + "alskjd," + "\"kas " + " jd\"" + ",," + "ksjd," + "sk,") == Scanner(Delimiter, "", [] + ["asdklsaj"] + ["", ""] + ["alskjd"] + ["\"kas  jd\"", ""] + ["ksjd"] + ["sk"]) by {
      LetterWord("sk", delims);
      WordThenDelimiter(false, delims, [] + ["asdklsaj"] + ["", ""] + ["alskjd"] + ["\"kas  jd\"", ""] + ["ksjd"], "sk", ',');
      assert "sk" + [','] == "sk,";
      ResumeConcat(false, delims, Start, "" + "asdklsaj," + ",," + "alskjd," + "\"kas " + " jd\"" + ",," + "ksjd,", "sk,");
    }
    assert Resume(false, delims, Start, "" + "asdklsaj," + ",," + "alskjd," + "\"kas " + " jd\"" + ",," + "ksjd," + "sk," + "d") == Scanner(Unquoted, "d", [] + ["asdklsaj"] + ["", ""] + ["alskjd"] + ["\"kas  jd\"", ""] + ["ksjd"] + ["sk"]) by {
      QuotedStep9(delims, [] + ["asdklsaj"] + ["", ""] + ["alskjd"] + ["\"kas  jd\"", ""] + ["ksjd"] + ["sk"]);
      ResumeConcat(false, delims, Start, "" + "asdklsaj," + ",," + "alskjd," + "\"kas " + " jd\"" + ",," + "ksjd," + "sk,", "d");
    }
    QuotedStep9(delims, [] + ["asdklsaj"] + ["", ""] + ["alskjd"] + ["\"kas  jd\"", ""] + ["ksjd"] + ["sk"]);
    SampleSegments();
    SampleQuotedFields();
  }

  lemma SampleQuotedFields()
    ensures [] + ["asdklsaj"] + ["", ""] + ["alskjd"] + ["\"kas  jd\"", ""] + ["ksjd"] + ["sk"] + ["d"] == ["asdklsaj", "", "", "alskjd", "\"kas  jd\"", "", "ksjd", "sk", "d"]
  {
  }

  // Step lemmas: each extends the split of a prefix of the sample by one segment.

  lemma PlainStep1(delims: seq<char>, p: string)
    requires SampleDelims(delims)
    requires SplitOn(p, delims) == [""]
    ensures SplitOn(p + "asdklsaj,", delims) == ["asdklsaj", ""]
  {
    var q := p;
    assert SplitOn(q + "asdklsaj", delims) == ["asdklsaj"] by {
      LetterWord("asdklsaj", delims);
      assert [""] == [] + [""];
      SplitOnExtendLast(q, "asdklsaj", delims, [], "");
      assert "" + "asdklsaj" == "asdklsaj";
    }
    q := q + "asdklsaj";
    assert SplitOn(q + ",", delims) == ["asdklsaj", ""] by {
      SplitOnConcat(q, ',', "", delims);
      assert q + [','] + "" == q + ",";
    }
    q := q + ",";
    AppendAssoc(p, "asdklsaj", ",");
    assert "asdklsaj" + "," == "asdklsaj,";
  }

  lemma PlainStep2(delims: seq<char>, p: string)
    requires SampleDelims(delims)
    requires SplitOn(p, delims) == ["asdklsaj", ""]
    ensures SplitOn(p + ",,", delims) == ["asdklsaj", "", "", ""]
  {
    var q := p;
    assert SplitOn(q + ",", delims) == ["asdklsaj", "", ""] by {
      SplitOnConcat(q, ',', "", delims);
      assert q + [','] + "" == q + ",";
    }
    q := q + ",";
    assert SplitOn(q + ",", delims) == ["asdklsaj", "", "", ""] by {
      SplitOnConcat(q, ',', "", delims);
      assert q + [','] + "" == q + ",";
    }
    q := q + ",";
    AppendAssoc(p, ",", ",");
    assert "," + "," == ",,";
  }

  lemma PlainStep3(delims: seq<char>, p: string)
    requires SampleDelims(delims)
    requires SplitOn(p, delims) == ["asdklsaj", "", "", ""]
    ensures SplitOn(p + "alskjd,", delims) == ["asdklsaj", "", "", "alskjd", ""]
  {
    var q := p;
    assert SplitOn(q + "alskjd", delims) == ["asdklsaj", "", "", "alskjd"] by {
      LetterWord("alskjd", delims);
      assert ["asdklsaj", "", "", ""] == ["asdklsaj", "", ""] + [""];
      SplitOnExtendLast(q, "alskjd", delims, ["asdklsaj", "", ""], "");
      assert "" + "alskjd" == "alskjd";
    }
    q := q + "alskjd";
    assert SplitOn(q + ",", delims) == ["asdklsaj", "", "", "alskjd", ""] by {
      SplitOnConcat(q, ',', "", delims);
      assert q + [','] + "" == q + ",";
    }
    q := q + ",";
    AppendAssoc(p, "alskjd", ",");
    assert "alskjd" + "," == "alskjd,";
  }

  lemma PlainSpaceComma4(p: string)
    requires SplitOn(p, " ,") == ["asdklsaj", "", "", "alskjd", ""]
    ensures SplitOn(p + "\"kas ", " ,") == ["asdklsaj", "", "", "alskjd", "\"kas", ""]
  {
    var q := p;
    assert SplitOn(q + "\"kas", " ,") == ["asdklsaj", "", "", "alskjd", "\"kas"] by {
      assert ["asdklsaj", "", "", "alskjd", ""] == ["asdklsaj", "", "", "alskjd"] + [""];
      SplitOnExtendLast(q, "\"kas", " ,", ["asdklsaj", "", "", "alskjd"], "");
      assert "" + "\"kas" == "\"kas";
    }
    q := q + "\"kas";
    assert SplitOn(q + " ", " ,") == ["asdklsaj", "", "", "alskjd", "\"kas", ""] by {
      SplitOnConcat(q, ' ', "", " ,");
      assert q + [' '] + "" == q + " ";
    }
    q := q + " ";
    AppendAssoc(p, "\"kas", " ");
    assert "\"kas" + " " == "\"kas ";
  }

  lemma PlainSpaceComma5(p: string)
    requires SplitOn(p, " ,") == ["asdklsaj", "", "", "alskjd", "\"kas", ""]
    ensures SplitOn(p + " jd\"", " ,") == ["asdklsaj", "", "", "alskjd", "\"kas", "", "jd\""]
  {
    var q := p;
    assert SplitOn(q + " ", " ,") == ["asdklsaj", "", "", "alskjd", "\"kas", "", ""] by {
      SplitOnConcat(q, ' ', "", " ,");
      assert q + [' '] + "" == q + " ";
    }
    q := q + " ";
    assert SplitOn(q + "jd\"", " ,") == ["asdklsaj", "", "", "alskjd", "\"kas", "", "jd\""] by {
      assert ["asdklsaj", "", "", "alskjd", "\"kas", "", ""] == ["asdklsaj", "", "", "alskjd", "\"kas", ""] + [""];
      SplitOnExtendLast(q, "jd\"", " ,", ["asdklsaj", "", "", "alskjd", "\"kas", ""], "");
      assert "" + "jd\"" == "jd\"";
    }
    q := q + "jd\"";
    AppendAssoc(p, " ", "jd\"");
    assert " " + "jd\"" == " jd\"";
  }

  lemma PlainSpaceComma6(p: string)
    requires SplitOn(p, " ,") == ["asdklsaj", "", "", "alskjd", "\"kas", "", "jd\""]
    ensures SplitOn(p + ",,", " ,") == ["asdklsaj", "", "", "alskjd", "\"kas", "", "jd\"", "", ""]
  {
    var q := p;
    assert SplitOn(q + ",", " ,") == ["asdklsaj", "", "", "alskjd", "\"kas", "", "jd\"", ""] by {
      SplitOnConcat(q, ',', "", " ,");
      assert q + [','] + "" == q + ",";
    }
    q := q + ",";
    assert SplitOn(q + ",", " ,") == ["asdklsaj", "", "", "alskjd", "\"kas", "", "jd\"", "", ""] by {
      SplitOnConcat(q, ',', "", " ,");
      assert q + [','] + "" == q + ",";
    }
    q := q + ",";
    AppendAssoc(p, ",", ",");
    assert "," + "," == ",,";
  }

  lemma PlainSpaceComma7(p: string)
    requires SplitOn(p, " ,") == ["asdklsaj", "", "", "alskjd", "\"kas", "", "jd\"", "", ""]
    ensures SplitOn(p + "ksjd,", " ,") == ["asdklsaj", "", "", "alskjd", "\"kas", "", "jd\"", "", "ksjd", ""]
  {
    var q := p;
    assert SplitOn(q + "ksjd", " ,") == ["asdklsaj", "", "", "alskjd", "\"kas", "", "jd\"", "", "ksjd"] by {
      assert ["asdklsaj", "", "", "alskjd", "\"kas", "", "jd\"", "", ""] == ["asdklsaj", "", "", "alskjd", "\"kas", "", "jd\"", ""] + [""];
      SplitOnExtendLast(q, "ksjd", " ,", ["asdklsaj", "", "", "alskjd", "\"kas", "", "jd\"", ""], "");
      assert "" + "ksjd" == "ksjd";
    }
    q := q + "ksjd";
    assert SplitOn(q + ",", " ,") == ["asdklsaj", "", "", "alskjd", "\"kas", "", "jd\"", "", "ksjd", ""] by {
      SplitOnConcat(q, ',', "", " ,");
      assert q + [','] + "" == q + ",";
    }
    q := q + ",";
    AppendAssoc(p, "ksjd", ",");
    assert "ksjd" + "," == "ksjd,";
  }

  lemma PlainSpaceComma8(p: string)
    requires SplitOn(p, " ,") == ["asdklsaj", "", "", "alskjd", "\"kas", "", "jd\"", "", "ksjd", ""]
    ensures SplitOn(p + "sk,", " ,") == ["asdklsaj", "", "", "alskjd", "\"kas", "", "jd\"", "", "ksjd", "sk", ""]
  {
    var q := p;
    assert SplitOn(q + "sk", " ,") == ["asdklsaj", "", "", "alskjd", "\"kas", "", "jd\"", "", "ksjd", "sk"] by {
      assert ["asdklsaj", "", "", "alskjd", "\"kas", "", "jd\"", "", "ksjd", ""] == ["asdklsaj", "", "", "alskjd", "\"kas", "", "jd\"", "", "ksjd"] + [""];
      SplitOnExtendLast(q, "sk", " ,", ["asdklsaj", "", "", "alskjd", "\"kas", "", "jd\"", "", "ksjd"], "");
      assert "" + "sk" == "sk";
    }
    q := q + "sk";
    assert SplitOn(q + ",", " ,") == ["asdklsaj", "", "", "alskjd", "\"kas", "", "jd\"", "", "ksjd", "sk", ""] by {
      SplitOnConcat(q, ',', "", " ,");
      assert q + [','] + "" == q + ",";
    }
    q := q + ",";
    AppendAssoc(p, "sk", ",");
    assert "sk" + "," == "sk,";
  }

  lemma PlainSpaceComma9(p: string)
    requires SplitOn(p, " ,") == ["asdklsaj", "", "", "alskjd", "\"kas", "", "jd\"", "", "ksjd", "sk", ""]
    ensures SplitOn(p + "d", " ,") == ["asdklsaj", "", "", "alskjd", "\"kas", "", "jd\"", "", "ksjd", "sk", "d"]
  {
    assert SplitOn(p + "d", " ,") == ["asdklsaj", "", "", "alskjd", "\"kas", "", "jd\"", "", "ksjd", "sk", "d"] by {
      assert ["asdklsaj", "", "", "alskjd", "\"kas", "", "jd\"", "", "ksjd", "sk", ""] == ["asdklsaj", "", "", "alskjd", "\"kas", "", "jd\"", "", "ksjd", "sk"] + [""];
      SplitOnExtendLast(p, "d", " ,", ["asdklsaj", "", "", "alskjd", "\"kas", "", "jd\"", "", "ksjd", "sk"], "");
      assert "" + "d" == "d";
    }
  }

  lemma PlainComma4(p: string)
    requires SplitOn(p, ",") == ["asdklsaj", "", "", "alskjd", ""]
    ensures SplitOn(p + "\"kas ", ",") == ["asdklsaj", "", "", "alskjd", "\"kas "]
  {
    assert SplitOn(p + "\"kas ", ",") == ["asdklsaj", "", "", "alskjd", "\"kas "] by {
      assert ["asdklsaj", "", "", "alskjd", ""] == ["asdklsaj", "", "", "alskjd"] + [""];
      SplitOnExtendLast(p, "\"kas ", ",", ["asdklsaj", "", "", "alskjd"], "");
      assert "" + "\"kas " == "\"kas ";
    }
  }

  lemma PlainComma5(p: string)
    requires SplitOn(p, ",") == ["asdklsaj", "", "", "alskjd", "\"kas "]
    ensures SplitOn(p + " jd\"", ",") == ["asdklsaj", "", "", "alskjd", "\"kas  jd\""]
  {
    assert SplitOn(p + " jd\"", ",") == ["asdklsaj", "", "", "alskjd", "\"kas  jd\""] by {
      assert ["asdklsaj", "", "", "alskjd", "\"kas "] == ["asdklsaj", "", "", "alskjd"] + ["\"kas "];
      SplitOnExtendLast(p, " jd\"", ",", ["asdklsaj", "", "", "alskjd"], "\"kas ");
      assert "\"kas " + " jd\"" == "\"kas  jd\"";
    }
  }

  lemma PlainComma6(p: string)
    requires SplitOn(p, ",") == ["asdklsaj", "", "", "alskjd", "\"kas  jd\""]
    ensures SplitOn(p + ",,", ",") == ["asdklsaj", "", "", "alskjd", "\"kas  jd\"", "", ""]
  {
    var q := p;
    assert SplitOn(q + ",", ",") == ["asdklsaj", "", "", "alskjd", "\"kas  jd\"", ""] by {
      SplitOnConcat(q, ',', "", ",");
      assert q + [','] + "" == q + ",";
    }
    q := q + ",";
    assert SplitOn(q + ",", ",") == ["asdklsaj", "", "", "alskjd", "\"kas  jd\"", "", ""] by {
      SplitOnConcat(q, ',', "", ",");
      assert q + [','] + "" == q + ",";
    }
    q := q + ",";
    AppendAssoc(p, ",", ",");
    assert "," + "," == ",,";
  }

  lemma PlainComma7(p: string)
    requires SplitOn(p, ",") == ["asdklsaj", "", "", "alskjd", "\"kas  jd\"", "", ""]
    ensures SplitOn(p + "ksjd,", ",") == ["asdklsaj", "", "", "alskjd", "\"kas  jd\"", "", "ksjd", ""]
  {
    var q := p;
    assert SplitOn(q + "ksjd", ",") == ["asdklsaj", "", "", "alskjd", "\"kas  jd\"", "", "ksjd"] by {
      assert ["asdklsaj", "", "", "alskjd", "\"kas  jd\"", "", ""] == ["asdklsaj", "", "", "alskjd", "\"kas  jd\"", ""] + [""];
      SplitOnExtendLast(q, "ksjd", ",", ["asdklsaj", "", "", "alskjd", "\"kas  jd\"", ""], "");
      assert "" + "ksjd" == "ksjd";
    }
    q := q + "ksjd";
    assert SplitOn(q + ",", ",") == ["asdklsaj", "", "", "alskjd", "\"kas  jd\"", "", "ksjd", ""] by {
      SplitOnConcat(q, ',', "", ",");
      assert q + [','] + "" == q + ",";
    }
    q := q + ",";
    AppendAssoc(p, "ksjd", ",");
    assert "ksjd" + "," == "ksjd,";
  }

  lemma PlainComma8(p: string)
    requires SplitOn(p, ",") == ["asdklsaj", "", "", "alskjd", "\"kas  jd\"", "", "ksjd", ""]
    ensures SplitOn(p + "sk,", ",") == ["asdklsaj", "", "", "alskjd", "\"kas  jd\"", "", "ksjd", "sk", ""]
  {
    var q := p;
    assert SplitOn(q + "sk", ",") == ["asdklsaj", "", "", "alskjd", "\"kas  jd\"", "", "ksjd", "sk"] by {
      assert ["asdklsaj", "", "", "alskjd", "\"kas  jd\"", "", "ksjd", ""] == ["asdklsaj", "", "", "alskjd", "\"kas  jd\"", "", "ksjd"] + [""];
      SplitOnExtendLast(q, "sk", ",", ["asdklsaj", "", "", "alskjd", "\"kas  jd\"", "", "ksjd"], "");
      assert "" + "sk" == "sk";
    }
    q := q + "sk";
    assert SplitOn(q + ",", ",") == ["asdklsaj", "", "", "alskjd", "\"kas  jd\"", "", "ksjd", "sk", ""] by {
      SplitOnConcat(q, ',', "", ",");
      assert q + [','] + "" == q + ",";
    }
    q := q + ",";
    AppendAssoc(p, "sk", ",");
    assert "sk" + "," == "sk,";
  }

  lemma PlainComma9(p: string)
    requires SplitOn(p, ",") == ["asdklsaj", "", "", "alskjd", "\"kas  jd\"", "", "ksjd", "sk", ""]
    ensures SplitOn(p + "d", ",") == ["asdklsaj", "", "", "alskjd", "\"kas  jd\"", "", "ksjd", "sk", "d"]
  {
    assert SplitOn(p + "d", ",") == ["asdklsaj", "", "", "alskjd", "\"kas  jd\"", "", "ksjd", "sk", "d"] by {
      assert ["asdklsaj", "", "", "alskjd", "\"kas  jd\"", "", "ksjd", "sk", ""] == ["asdklsaj", "", "", "alskjd", "\"kas  jd\"", "", "ksjd", "sk"] + [""];
      SplitOnExtendLast(p, "d", ",", ["asdklsaj", "", "", "alskjd", "\"kas  jd\"", "", "ksjd", "sk"], "");
      assert "" + "d" == "d";
    }
  }

  lemma QuotedStep2(delims: seq<char>, fs: seq<string>)
    requires SampleDelims(delims)
    ensures Resume(false, delims, Scanner(Delimiter, "", fs), ",,") == Scanner(Delimiter, "", fs + ["", ""])
  {
    ResumeConcat(false, delims, Scanner(Delimiter, "", fs), ",", ",");
    assert "," + "," == ",,";
    assert DropLast(",") == [];
    assert DropLast(",") == [];
    assert fs + [""] + [""] == fs + ["", ""];
  }

  lemma QuotedStep4(delims: seq<char>, fs: seq<string>)
    requires SampleDelims(delims)
    ensures Resume(false, delims, Scanner(Delimiter, "", fs), "\"kas ") == Scanner(Quoted, "\"kas ", fs)
  {
    ResumeConcat(false, delims, Scanner(Delimiter, "", fs), "\"", "kas ");
    assert "\"" + "kas " == "\"kas ";
    assert DropLast("\"") == [];
    assert "" + ['\"'] == "\"";
    ResumeInQuotes(false, delims, Scanner(Quoted, "\"", fs), "kas ");
    assert "\"" + "kas " == "\"kas ";
  }

  lemma QuotedStep5(delims: seq<char>, fs: seq<string>)
    requires SampleDelims(delims)
    ensures Resume(false, delims, Scanner(Quoted, "\"kas ", fs), " jd\"") == Scanner(Unquoted, "\"kas  jd\"", fs)
  {
    ResumeConcat(false, delims, Scanner(Quoted, "\"kas ", fs), " jd", "\"");
    assert " jd" + "\"" == " jd\"";
    ResumeInQuotes(false, delims, Scanner(Quoted, "\"kas ", fs), " jd");
    assert "\"kas " + " jd" == "\"kas  jd";
    assert DropLast("\"") == [];
    assert "\"kas  jd" + ['\"'] == "\"kas  jd\"";
  }

  lemma QuotedStep6(delims: seq<char>, fs: seq<string>)
    requires SampleDelims(delims)
    ensures Resume(false, delims, Scanner(Unquoted, "\"kas  jd\"", fs), ",,") == Scanner(Delimiter, "", fs + ["\"kas  jd\"", ""])
  {
    ResumeConcat(false, delims, Scanner(Unquoted, "\"kas  jd\"", fs), ",", ",");
    assert "," + "," == ",,";
    assert DropLast(",") == [];
    assert DropLast(",") == [];
    assert fs + ["\"kas  jd\""] + [""] == fs + ["\"kas  jd\"", ""];
  }

  lemma QuotedStep9(delims: seq<char>, fs: seq<string>)
    requires SampleDelims(delims)
    ensures Resume(false, delims, Scanner(Delimiter, "", fs), "d") == Scanner(Unquoted, "d", fs)
    ensures Finish(Resume(false, delims, Scanner(Delimiter, "", fs), "d")) == Ok(fs + ["d"])
  {
    assert DropLast("d") == [];
    assert "" + ['d'] == "d";
  }
}
