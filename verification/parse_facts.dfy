/** What `Parse` computes, stated against definitions read directly off
    the list of lines rather than off the parser's state: where the header
    ends, which date owns each line, which lines are data, and the first
    unreadable date header. */
module ParseFacts {
  import opened Results
  import opened Text
  import opened Dates
  import opened DateMap
  import opened Ddf

  /** A date-header line whose token is not a valid date. */
  predicate IsInvalidDateLine(raw: string) {
    IsDateLine(raw) && ParseToken(Strip(raw)).None?
  }

  /** The index of the first invalid date-header line, or the number of
      lines when every date header is valid. */
  function FirstInvalid(lines: seq<string>): (k: nat)
    ensures k <= |lines|
    ensures forall i :: 0 <= i < k ==> !IsInvalidDateLine(lines[i])
    ensures k < |lines| ==> IsInvalidDateLine(lines[k])
    decreases |lines|
  {
    if lines == [] then 0
    else
      var p := lines[..|lines| - 1];
      var k := FirstInvalid(p);
      assert forall i :: 0 <= i < |p| ==> lines[i] == p[i];
      if k < |p| then k
      else if IsInvalidDateLine(lines[|lines| - 1]) then |p|
      else |lines|
  }

  /** The index of the first date-header line, or the number of lines when
      there is none: the lines before it form the header. */
  function HeaderEnd(lines: seq<string>): (k: nat)
    ensures k <= |lines|
    ensures forall i :: 0 <= i < k ==> !IsDateLine(lines[i])
    ensures k < |lines| ==> IsDateLine(lines[k])
    decreases |lines|
  {
    if lines == [] then 0
    else
      var p := lines[..|lines| - 1];
      var k := HeaderEnd(p);
      assert forall i :: 0 <= i < |p| ==> lines[i] == p[i];
      if k < |p| then k
      else if IsDateLine(lines[|lines| - 1]) then |p|
      else |lines|
  }

  /** The date of the last date-header line, the one that owns the lines
      that follow it. */
  function Owner(lines: seq<string>): Option<Date>
    decreases |lines|
  {
    if lines == [] then None
    else if IsDateLine(lines[|lines| - 1]) then ParseToken(Strip(lines[|lines| - 1]))
    else Owner(lines[..|lines| - 1])
  }

  /** A line that contributes data once a date is open: neither a date
      header nor blank after stripping. */
  predicate IsContentLine(raw: string) {
    !IsDateLine(raw) && Strip(raw) != []
  }

  /** The stripped content lines owned by `d`, in file order, across every
      date header that names `d`. */
  function DataFor(lines: seq<string>, d: Date): seq<string>
    decreases |lines|
  {
    if lines == [] then []
    else
      var p := lines[..|lines| - 1];
      var x := lines[|lines| - 1];
      DataFor(p, d) + (if Owner(p) == Some(d) && IsContentLine(x) then [Strip(x)] else [])
  }

  /** The dates in the order in which each first owns a content line. */
  function DataOrder(lines: seq<string>): seq<Date>
    decreases |lines|
  {
    if lines == [] then []
    else
      var p := lines[..|lines| - 1];
      var prev := DataOrder(p);
      match Owner(p)
      case Some(c) => if IsContentLine(lines[|lines| - 1]) && c !in prev then prev + [c] else prev
      case None => prev
  }

  function NonEmpty(ls: seq<string>): Option<seq<string>> {
    if ls == [] then None else Some(ls)
  }

  /** What the parser's header buffer and current date hold after a prefix
      of the lines. */
  ghost predicate HeaderMatches(header: string, current: Option<Date>, lines: seq<string>) {
    && current == Owner(lines)
    && (current.None? <==> HeaderEnd(lines) == |lines|)
    && header == JoinLines(lines[..HeaderEnd(lines)])
  }

  /** What the parser's mapping holds after a prefix of the lines. */
  ghost predicate DataMatches(data: seq<Entry>, lines: seq<string>) {
    && Keys(data) == DataOrder(lines)
    && DistinctKeys(data)
    && forall d :: Lookup(data, d) == NonEmpty(DataFor(lines, d))
  }

  /** What the parser's state holds after a prefix of the lines. */
  ghost predicate StateMatches(st: ParseState, lines: seq<string>) {
    HeaderMatches(st.header, st.current, lines) && DataMatches(st.data, lines)
  }

  /** The fold over the lines fails at exactly the first invalid date
      header and otherwise ends in the state the reference definitions
      describe. */
  lemma {:induction false} FoldMatches(lines: seq<string>)
    ensures FirstInvalid(lines) == |lines| ==> Fold(Init, lines).Success? && StateMatches(Fold(Init, lines).value, lines)
    ensures FirstInvalid(lines) < |lines| ==> Fold(Init, lines) == Failure(InvalidDate(Strip(lines[FirstInvalid(lines)])))
    decreases |lines|
  {
    if lines == [] {
      InitMatches();
    } else {
      var p := lines[..|lines| - 1];
      var x := lines[|lines| - 1];
      assert lines == p + [x];
      FoldMatches(p);
      var k := FirstInvalid(p);
      if k < |p| {
        assert FirstInvalid(lines) == k;
        assert lines[k] == p[k];
      } else {
        var st := Fold(Init, p).value;
        assert Fold(Init, lines) == Step(st, x);
        if IsInvalidDateLine(x) {
          assert FirstInvalid(lines) == |p|;
        } else {
          assert FirstInvalid(lines) == |lines|;
          StepMatches(st, p, x);
        }
      }
    }
  }

  lemma InitMatches()
    ensures StateMatches(Init, [])
  {
    var e: seq<string> := [];
    assert e[..0] == [];
    forall d ensures Lookup(Init.data, d) == NonEmpty(DataFor(e, d)) {
    }
  }

  // The reference definitions, one line further.

  lemma HeaderEndSnoc(p: seq<string>, x: string)
    ensures HeaderEnd(p + [x]) == if HeaderEnd(p) < |p| then HeaderEnd(p) else if IsDateLine(x) then |p| else |p| + 1
  {
    assert (p + [x])[..|p|] == p;
  }

  lemma OwnerSnoc(p: seq<string>, x: string)
    ensures Owner(p + [x]) == if IsDateLine(x) then ParseToken(Strip(x)) else Owner(p)
  {
    assert (p + [x])[..|p|] == p;
  }

  lemma DataOrderSnoc(p: seq<string>, x: string)
    ensures DataOrder(p + [x]) == match Owner(p)
                                  case Some(c) => if IsContentLine(x) && c !in DataOrder(p) then DataOrder(p) + [c] else DataOrder(p)
                                  case None => DataOrder(p)
  {
    assert (p + [x])[..|p|] == p;
  }

  lemma DataForSnoc(p: seq<string>, x: string, d: Date)
    ensures DataFor(p + [x], d) == DataFor(p, d) + (if Owner(p) == Some(d) && IsContentLine(x) then [Strip(x)] else [])
  {
    assert (p + [x])[..|p|] == p;
  }

  // One step of the parser, per kind of line.

  /** A date header opens its date and leaves the header buffer alone. */
  lemma HeaderAfterDateLine(header: string, current: Option<Date>, p: seq<string>, x: string)
    requires HeaderMatches(header, current, p)
    requires IsDateLine(x) && ParseToken(Strip(x)).Some?
    ensures HeaderMatches(header, ParseToken(Strip(x)), p + [x])
  {
    HeaderEndSnoc(p, x);
    OwnerSnoc(p, x);
    var k := HeaderEnd(p);
    assert (p + [x])[..k] == p[..k];
  }

  /** Before the first date header, a line is added to the header buffer. */
  lemma HeaderAfterHeaderLine(header: string, p: seq<string>, x: string)
    requires HeaderMatches(header, None, p)
    requires !IsDateLine(x)
    ensures HeaderMatches(header + x + "\n", None, p + [x])
  {
    HeaderEndSnoc(p, x);
    OwnerSnoc(p, x);
    assert p[..|p|] == p;
    assert (p + [x])[..|p| + 1] == p + [x];
    JoinLinesConcat(p, [x]);
    assert JoinLines([x]) == x + "\n";
  }

  /** After a date header, no line changes the header buffer or the date. */
  lemma HeaderAfterBodyLine(header: string, c: Date, p: seq<string>, x: string)
    requires HeaderMatches(header, Some(c), p)
    requires !IsDateLine(x)
    ensures HeaderMatches(header, Some(c), p + [x])
  {
    HeaderEndSnoc(p, x);
    OwnerSnoc(p, x);
    var k := HeaderEnd(p);
    assert (p + [x])[..k] == p[..k];
  }

  /** A line that is not content for an open date leaves the mapping alone. */
  lemma DataAfterIdleLine(data: seq<Entry>, p: seq<string>, x: string)
    requires DataMatches(data, p)
    requires Owner(p).None? || !IsContentLine(x)
    ensures DataMatches(data, p + [x])
  {
    DataOrderSnoc(p, x);
    forall d ensures DataFor(p + [x], d) == DataFor(p, d) {
      DataForSnoc(p, x, d);
      assert DataFor(p, d) + [] == DataFor(p, d);
    }
  }

  /** A content line under date `c` is appended to `c`'s lines. */
  lemma DataAfterContentLine(data: seq<Entry>, c: Date, p: seq<string>, x: string)
    requires DataMatches(data, p)
    requires Owner(p) == Some(c) && IsContentLine(x)
    ensures DataMatches(Append(data, c, Strip(x)), p + [x])
  {
    var r := Append(data, c, Strip(x));
    DataOrderSnoc(p, x);
    AppendKeys(data, c, Strip(x));
    AppendLookup(data, c, Strip(x));
    forall d ensures Lookup(r, d) == NonEmpty(DataFor(p + [x], d)) {
      DataForSnoc(p, x, d);
      if d == c {
        assert LinesOf(data, c) == DataFor(p, c);
      } else {
        assert DataFor(p, d) + [] == DataFor(p, d);
      }
    }
  }

  /** One step of the parser keeps its state in line with the reference
      definitions. */
  lemma StepMatches(st: ParseState, p: seq<string>, x: string)
    requires StateMatches(st, p)
    requires !IsInvalidDateLine(x)
    ensures Step(st, x).Success? && StateMatches(Step(st, x).value, p + [x])
  {
    if IsDateLine(x) {
      HeaderAfterDateLine(st.header, st.current, p, x);
      DataAfterIdleLine(st.data, p, x);
    } else if st.current.None? {
      HeaderAfterHeaderLine(st.header, p, x);
      DataAfterIdleLine(st.data, p, x);
    } else {
      HeaderAfterBodyLine(st.header, st.current.value, p, x);
      if Strip(x) != [] {
        DataAfterContentLine(st.data, st.current.value, p, x);
      } else {
        DataAfterIdleLine(st.data, p, x);
      }
    }
  }

  // ---------------------------------------------------------------------
  // The parser's result, stated on the text

  /** Parsing fails exactly when some date-header line does not hold a
      valid date, and then it reports the first such line, stripped. */
  lemma ParseOutcome(text: string)
    ensures var lines := SplitLines(text);
            Parse(text).Success? <==> FirstInvalid(lines) == |lines|
    ensures var lines := SplitLines(text);
            FirstInvalid(lines) < |lines| ==> Parse(text) == Failure(InvalidDate(Strip(lines[FirstInvalid(lines)])))
  {
    FoldMatches(SplitLines(text));
  }

  /** The header is the raw lines before the first date header, each
      followed by a newline, with all trailing newlines removed; the
      newline count is one less than the number removed, so it is -1
      exactly when no line precedes the first date header. */
  lemma ParseHeader(text: string, doc: Doc)
    requires Parse(text) == Success(doc)
    ensures var lines := SplitLines(text);
            doc.fileHeader + Newlines(doc.headerNewlines + 1) == JoinLines(lines[..HeaderEnd(lines)])
    ensures doc.fileHeader == [] || doc.fileHeader[|doc.fileHeader| - 1] != '\n'
    ensures doc.headerNewlines >= -1
    ensures doc.headerNewlines == -1 <==> HeaderEnd(SplitLines(text)) == 0
  {
    var lines := SplitLines(text);
    FoldMatches(lines);
    var st := Fold(Init, lines).value;
    assert doc == Finish(st);
    var k := HeaderEnd(lines);
    assert st.header == JoinLines(lines[..k]);
    JoinLinesEndsInNewline(lines[..k]);
    if k == 0 {
      assert st.header == [];
    } else {
      assert st.header != [] && st.header[|st.header| - 1] == '\n';
    }
  }

  /** `raw_file_header` of a parsed document is the header text exactly as
      it stood before the first date header, without the newline that ends
      its last line; empty when nothing precedes the first date header. */
  lemma ParseRawFileHeader(text: string, doc: Doc)
    requires Parse(text) == Success(doc)
    ensures var lines := SplitLines(text);
            HeaderEnd(lines) > 0 ==> RawFileHeader(doc) + "\n" == JoinLines(lines[..HeaderEnd(lines)])
    ensures HeaderEnd(SplitLines(text)) == 0 ==> RawFileHeader(doc) == []
  {
    ParseHeader(text, doc);
    var n := doc.headerNewlines;
    if n >= 0 {
      assert Newlines(n + 1) == Newlines(n) + "\n";
    }
  }

  /** Every date's lines are the stripped non-blank lines under every
      header naming that date, in file order; a date with none has no
      entry. Dates appear in the order in which each first receives a line. */
  lemma ParseData(text: string, doc: Doc)
    requires Parse(text) == Success(doc)
    ensures forall d :: Day(doc, d) == NonEmpty(DataFor(SplitLines(text), d))
    ensures Keys(doc.data) == DataOrder(SplitLines(text))
  {
    FoldMatches(SplitLines(text));
  }

  /** The lines a date owns are data lines: stripped, non-empty, without
      newlines and not shaped like a date header. */
  lemma {:induction false} DataForAreDataLines(lines: seq<string>, d: Date)
    requires NoNewlines(lines)
    ensures forall j :: 0 <= j < |DataFor(lines, d)| ==> IsDataLine(DataFor(lines, d)[j])
    decreases |lines|
  {
    if lines != [] {
      var p := lines[..|lines| - 1];
      var x := lines[|lines| - 1];
      assert NoNewlines(p) by {
        forall i | 0 <= i < |p| ensures '\n' !in p[i] { assert p[i] == lines[i]; }
      }
      DataForAreDataLines(p, d);
      if Owner(p) == Some(d) && IsContentLine(x) {
        assert '\n' !in x;
        StripSpec(x);
        assert IsDataLine(Strip(x));
      }
    }
  }

  /** A parsed document's data has distinct dates, no date without lines,
      and only data lines. */
  lemma ParseValidData(text: string, doc: Doc)
    requires Parse(text) == Success(doc)
    ensures ValidData(doc.data)
  {
    var lines := SplitLines(text);
    FoldMatches(lines);
    forall i | 0 <= i < |doc.data|
      ensures doc.data[i].lines != [] && forall j :: 0 <= j < |doc.data[i].lines| ==> IsDataLine(doc.data[i].lines[j])
    {
      var e := doc.data[i];
      LookupEntry(doc.data, i);
      assert Lookup(doc.data, e.date) == NonEmpty(DataFor(lines, e.date));
      DataForAreDataLines(lines, e.date);
    }
  }
}
