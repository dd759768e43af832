/** Rendering a document and parsing the text back gives the document
    again, for every document the parser itself could have produced from
    a file with a header line and at least one dated line. */
module RoundTrip {
  import opened Results
  import opened Text
  import opened Dates
  import opened DateMap
  import opened Ddf
  import opened ParseFacts

  /** A header that survives rendering: it does not end in a newline and
      none of its lines would be read as a date header. */
  predicate HeaderOk(h: string) {
    && (h == [] || h[|h| - 1] != '\n')
    && forall i :: 0 <= i < |SplitOn(h)| ==> !IsDateLine(SplitOn(h)[i])
  }

  /** Documents whose rendering is guaranteed to parse back to themselves. */
  predicate Renderable(doc: Doc) {
    && doc.data != []
    && ValidData(doc.data)
    && doc.headerNewlines >= 0
    && HeaderOk(doc.fileHeader)
  }

  // ---------------------------------------------------------------------
  // The rendered text as a list of lines

  function Blanks(n: nat): (r: seq<string>)
    ensures |r| == n && forall i :: 0 <= i < n ==> r[i] == []
  {
    seq(n, _ => [])
  }

  lemma {:induction false} JoinLinesBlanks(n: nat)
    ensures JoinLines(Blanks(n)) == Newlines(n)
    decreases n
  {
    if n > 0 {
      JoinLinesBlanks(n - 1);
      assert Blanks(n) == [[]] + Blanks(n - 1);
      NewlineFirst(n - 1);
    }
  }

  /** The lines of one block: its date header, then its lines. */
  function BlockLines(e: Entry): seq<string> {
    [Token(e.date)] + e.lines
  }

  /** The lines of the blocks of `es`: the first block, then every later
      block preceded by one empty line. */
  function BodyLines(es: seq<Entry>): seq<string>
    requires es != []
    decreases |es|
  {
    var e := es[|es| - 1];
    if |es| == 1 then BlockLines(e)
    else BodyLines(es[..|es| - 1]) + [[]] + BlockLines(e)
  }

  lemma BlockAsLines(e: Entry)
    ensures Block(e) == "\n" + JoinLines(BlockLines(e))
  {
    var t := Token(e.date);
    JoinLinesConcat([t], e.lines);
    JoinLinesOne(t);
    assert JoinLines(BlockLines(e)) == (t + "\n") + JoinLines(e.lines);
  }

  lemma LaterBlockLines(bi: seq<string>, bl: seq<string>)
    ensures "\n" + JoinLines(bi + [[]] + bl) == ("\n" + JoinLines(bi)) + ("\n" + JoinLines(bl))
  {
    JoinLinesConcat(bi + [[]], bl);
    JoinLinesConcat(bi, [[]]);
    JoinLinesOne([]);
    var x, y := JoinLines(bi), JoinLines(bl);
    assert "\n" + ((x + ([] + "\n")) + y) == ("\n" + x) + ("\n" + y);
  }

  lemma {:induction false} RenderEntriesAsLines(es: seq<Entry>)
    requires es != []
    ensures RenderEntries(es) == "\n" + JoinLines(BodyLines(es))
    decreases |es|
  {
    var e := es[|es| - 1];
    var init := es[..|es| - 1];
    assert RenderEntries(es) == RenderEntries(init) + Block(e);
    BlockAsLines(e);
    if |es| == 1 {
      assert RenderEntries(init) == "";
    } else {
      RenderEntriesAsLines(init);
      LaterBlockLines(BodyLines(init), BlockLines(e));
    }
  }

  lemma JoinLinesOne(a: string)
    ensures JoinLines([a]) == a + "\n"
  {
    assert JoinLines([a]) == a + "\n" + JoinLines([]);
  }

  /** The header lines of a rendering: the header's own lines, then one
      empty line per counted newline. */
  function HeaderLines(doc: Doc): seq<string>
    requires doc.headerNewlines >= 0
  {
    SplitOn(doc.fileHeader) + Blanks(doc.headerNewlines)
  }

  lemma JoinHeaderLines(doc: Doc)
    requires doc.headerNewlines >= 0
    ensures JoinLines(HeaderLines(doc)) == doc.fileHeader + Newlines(doc.headerNewlines + 1)
  {
    var h, n := doc.fileHeader, doc.headerNewlines;
    JoinLinesConcat(SplitOn(h), Blanks(n));
    JoinLinesIsJoin(SplitOn(h));
    JoinSnoc(SplitOn(h), []);
    JoinSplitOn(h);
    JoinLinesBlanks(n);
    NewlineFirst(n);
  }

  lemma Regroup(f: string, n: string, b: string)
    ensures (f + n) + ("\n" + b) == (f + (n + "\n")) + b
  {
  }

  /** A renderable document is written as exactly these lines. */
  lemma RenderAsLines(doc: Doc)
    requires doc.data != [] && doc.headerNewlines >= 0
    ensures Render(doc) == JoinLines(HeaderLines(doc) + BodyLines(doc.data))
  {
    var n := doc.headerNewlines;
    RenderEntriesAsLines(doc.data);
    JoinHeaderLines(doc);
    JoinLinesConcat(HeaderLines(doc), BodyLines(doc.data));
    assert Newlines(n + 1) == Newlines(n) + "\n";
    Regroup(doc.fileHeader, Newlines(n), JoinLines(BodyLines(doc.data)));
  }

  // ---------------------------------------------------------------------
  // Parsing those lines

  /** Folding over two runs of lines is folding over the first, then the second. */
  lemma {:induction false} FoldConcat(st: ParseState, a: seq<string>, b: seq<string>)
    ensures Fold(st, a + b) == match Fold(st, a)
                               case Failure(e) => Failure(e)
                               case Success(s) => Fold(s, b)
    decreases |b|
  {
    if b == [] {
      assert a + b == a;
    } else {
      var b' := b[..|b| - 1];
      assert (a + b)[..|a + b| - 1] == a + b';
      assert (a + b)[|a + b| - 1] == b[|b| - 1];
      FoldConcat(st, a, b');
    }
  }

  lemma StepOnHeaderLine(st: ParseState, x: string)
    requires !IsDateLine(x) && st.current.None?
    ensures Step(st, x) == Success(st.(header := st.header + x + "\n"))
  {
  }

  lemma StepOnDataLine(st: ParseState, x: string)
    requires IsDataLine(x) && st.current.Some?
    ensures Step(st, x) == Success(st.(data := Append(st.data, st.current.value, x)))
  {
    StripDataLine(x);
  }

  lemma StepOnBlankLine(st: ParseState)
    requires st.current.Some?
    ensures Step(st, []) == Success(st)
  {
    BlankLine();
  }

  lemma StepOnToken(st: ParseState, d: Date)
    ensures Step(st, Token(d)) == Success(st.(current := Some(d)))
  {
    TokenLine(d);
  }

  lemma FoldOne(st: ParseState, x: string)
    ensures Fold(st, [x]) == Step(st, x)
  {
    assert [x][..0] == [];
  }

  lemma FoldSnoc(st: ParseState, p: seq<string>, x: string)
    ensures Fold(st, p + [x]) == match Fold(st, p)
                                 case Failure(e) => Failure(e)
                                 case Success(s) => Step(s, x)
  {
    assert (p + [x])[..|p|] == p;
  }

  lemma FoldEmpty(st: ParseState)
    ensures Fold(st, []) == Success(st)
  {
  }

  lemma {:induction false} FoldHeader(hl: seq<string>)
    requires forall i :: 0 <= i < |hl| ==> !IsDateLine(hl[i])
    ensures Fold(Init, hl) == Success(ParseState(JoinLines(hl), None, []))
    decreases |hl|
  {
    if hl != [] {
      var p := hl[..|hl| - 1];
      var x := hl[|hl| - 1];
      assert hl == p + [x];
      assert forall i :: 0 <= i < |p| ==> p[i] == hl[i];
      FoldHeader(p);
      FoldSnoc(Init, p, x);
      var st := ParseState(JoinLines(p), None, []);
      StepOnHeaderLine(st, x);
      JoinLinesConcat(p, [x]);
      JoinLinesOne(x);
      assert JoinLines(hl) == JoinLines(p) + x + "\n";
      assert Fold(Init, hl) == Step(st, x);
    } else {
      FoldEmpty(Init);
    }
  }

  lemma StripDataLine(l: string)
    requires IsDataLine(l)
    ensures Strip(l) == l && !IsDateLine(l) && IsContentLine(l)
  {
    StripFixesStripped(l);
  }

  /** After a date header for a date not yet in the data, its data lines
      become one new entry at the end. */
  lemma {:induction false} FoldValues(h: string, d: Date, data: seq<Entry>, vals: seq<string>)
    requires d !in Keys(data) && vals != []
    requires forall j :: 0 <= j < |vals| ==> IsDataLine(vals[j])
    ensures Fold(ParseState(h, Some(d), data), vals) == Success(ParseState(h, Some(d), data + [Entry(d, vals)]))
    decreases |vals|
  {
    var st := ParseState(h, Some(d), data);
    var p := vals[..|vals| - 1];
    var x := vals[|vals| - 1];
    assert p + [x] == vals;
    FoldSnoc(st, p, x);
    if |vals| == 1 {
      assert p == [];
      StepOnDataLine(st, x);
      AppendNew(data, d, x);
    } else {
      FoldValues(h, d, data, p);
      StepOnDataLine(ParseState(h, Some(d), data + [Entry(d, p)]), x);
      AppendToLast(data, d, p, x);
    }
  }

  lemma TokenLine(d: Date)
    ensures Strip(Token(d)) == Token(d) && IsDateLine(Token(d))
    ensures ParseToken(Strip(Token(d))) == Some(d)
  {
    TokenShape(d);
    StripFixesStripped(Token(d));
    ParseTokenOfToken(d);
  }

  lemma BlankLine()
    ensures Strip([]) == [] && !IsDateLine([])
  {
    StripFixesStripped([]);
  }

  lemma ValidDataPrefix(es: seq<Entry>)
    requires es != [] && ValidData(es)
    ensures ValidData(es[..|es| - 1])
    ensures es[|es| - 1].date !in Keys(es[..|es| - 1])
    ensures var e := es[|es| - 1];
            e.lines != [] && forall j :: 0 <= j < |e.lines| ==> IsDataLine(e.lines[j])
  {
    var init := es[..|es| - 1];
    assert forall i :: 0 <= i < |init| ==> init[i] == es[i];
    assert forall i :: 0 <= i < |init| ==> Keys(init)[i] == es[i].date;
  }

  /** A block for a date not yet in the data adds that date's entry at the end. */
  lemma FoldBlock(h: string, c: Option<Date>, data: seq<Entry>, e: Entry)
    requires e.date !in Keys(data) && e.lines != []
    requires forall j :: 0 <= j < |e.lines| ==> IsDataLine(e.lines[j])
    ensures Fold(ParseState(h, c, data), BlockLines(e)) == Success(ParseState(h, Some(e.date), data + [e]))
  {
    var st := ParseState(h, c, data);
    var t := Token(e.date);
    FoldConcat(st, [t], e.lines);
    FoldOne(st, t);
    StepOnToken(st, e.date);
    FoldValues(h, e.date, data, e.lines);
  }

  /** The block lines of valid data parse back to that data. */
  lemma {:induction false} FoldBody(h: string, c: Option<Date>, es: seq<Entry>)
    requires es != [] && ValidData(es)
    ensures Fold(ParseState(h, c, []), BodyLines(es)) == Success(ParseState(h, Some(es[|es| - 1].date), es))
    decreases |es|
  {
    var st := ParseState(h, c, []);
    var e := es[|es| - 1];
    var init := es[..|es| - 1];
    var fin := ParseState(h, Some(e.date), es);
    FrontLast(es);
    ValidDataPrefix(es);
    if |es| == 1 {
      FoldBlock(h, c, init, e);
    } else {
      var mid := ParseState(h, Some(init[|init| - 1].date), init);
      FoldBody(h, c, init);
      FoldBlock(h, mid.current, init, e);
      StepOnBlankLine(mid);
      FoldThenBlock(st, BodyLines(init), BlockLines(e), mid, fin);
    }
  }

  /** Folding the blocks so far, an empty line, then one more block. */
  lemma FoldThenBlock(st: ParseState, bi: seq<string>, bl: seq<string>, mid: ParseState, fin: ParseState)
    requires Fold(st, bi) == Success(mid) && Step(mid, []) == Success(mid)
    requires Fold(mid, bl) == Success(fin)
    ensures Fold(st, bi + [[]] + bl) == Success(fin)
  {
    FoldConcat(st, bi + [[]], bl);
    FoldSnoc(st, bi, []);
  }

  /** Two (header, newline count) pairs giving the same padded text are equal. */
  lemma PaddedHeaderUnique(a: string, m: int, b: string, k: int)
    requires a == [] || a[|a| - 1] != '\n'
    requires b == [] || b[|b| - 1] != '\n'
    requires m >= -1 && k >= -1
    requires a + Newlines(m + 1) == b + Newlines(k + 1)
    ensures a == b && m == k
  {
    RStripNewlinesOfPadded(a, m + 1);
    RStripNewlinesOfPadded(b, k + 1);
  }

  lemma HeaderLinesNoNewlines(doc: Doc)
    requires doc.headerNewlines >= 0
    ensures NoNewlines(HeaderLines(doc))
  {
    var hl := HeaderLines(doc);
    forall i | 0 <= i < |hl| ensures '\n' !in hl[i] {
      if i >= |SplitOn(doc.fileHeader)| {
        assert hl[i] == [];
      }
    }
  }

  lemma NoNewlinesInLines(doc: Doc)
    requires Renderable(doc)
    ensures NoNewlines(HeaderLines(doc) + BodyLines(doc.data))
  {
    HeaderLinesNoNewlines(doc);
    BodyNoNewlines(doc.data);
    NoNewlinesConcat(HeaderLines(doc), BodyLines(doc.data));
  }

  lemma BlockNoNewlines(e: Entry)
    requires forall j :: 0 <= j < |e.lines| ==> IsDataLine(e.lines[j])
    ensures NoNewlines(BlockLines(e))
  {
    TokenShape(e.date);
    assert '\n' !in Token(e.date);
    NoNewlinesConcat([Token(e.date)], e.lines);
  }

  lemma {:induction false} BodyNoNewlines(es: seq<Entry>)
    requires es != [] && ValidData(es)
    ensures NoNewlines(BodyLines(es))
    decreases |es|
  {
    var e := es[|es| - 1];
    assert forall j :: 0 <= j < |e.lines| ==> IsDataLine(e.lines[j]);
    BlockNoNewlines(e);
    if |es| > 1 {
      var init := es[..|es| - 1];
      ValidDataPrefix(es);
      BodyNoNewlines(init);
      NoNewlinesConcat(BodyLines(init), [[]]);
      NoNewlinesConcat(BodyLines(init) + [[]], BlockLines(e));
    }
  }

  /** Parsing the rendering of a renderable document gives it back. */
  lemma {:induction false} RoundTrip(doc: Doc)
    requires Renderable(doc)
    ensures Parse(Render(doc)) == Success(doc)
  {
    var lines := HeaderLines(doc) + BodyLines(doc.data);
    var text := Render(doc);
    RenderAsLines(doc);
    NoNewlinesInLines(doc);
    SplitLinesOfJoinLines(lines);
    FoldRendered(doc);
    var st := ParseState(JoinLines(HeaderLines(doc)), Some(doc.data[|doc.data| - 1].date), doc.data);
    ParseViaFold(text, lines, st);
    FinishRendered(doc, st);
  }

  lemma ParseViaFold(text: string, lines: seq<string>, st: ParseState)
    requires SplitLines(text) == lines && Fold(Init, lines) == Success(st)
    ensures Parse(text) == Success(Finish(st))
  {
  }

  lemma FoldRendered(doc: Doc)
    requires Renderable(doc)
    ensures Fold(Init, HeaderLines(doc) + BodyLines(doc.data))
         == Success(ParseState(JoinLines(HeaderLines(doc)), Some(doc.data[|doc.data| - 1].date), doc.data))
  {
    var hl := HeaderLines(doc);
    HeaderLinesAreNotDates(doc);
    FoldHeader(hl);
    FoldConcat(Init, hl, BodyLines(doc.data));
    FoldBody(JoinLines(hl), None, doc.data);
  }

  lemma FinishRendered(doc: Doc, st: ParseState)
    requires doc.headerNewlines >= 0
    requires doc.fileHeader == [] || doc.fileHeader[|doc.fileHeader| - 1] != '\n'
    requires st.header == JoinLines(HeaderLines(doc)) && st.data == doc.data
    ensures Finish(st) == doc
  {
    JoinHeaderLines(doc);
    var r := Finish(st);
    PaddedHeaderUnique(r.fileHeader, r.headerNewlines, doc.fileHeader, doc.headerNewlines);
  }

  lemma HeaderLinesAreNotDates(doc: Doc)
    requires doc.headerNewlines >= 0 && HeaderOk(doc.fileHeader)
    ensures forall i :: 0 <= i < |HeaderLines(doc)| ==> !IsDateLine(HeaderLines(doc)[i])
  {
    var hl := HeaderLines(doc);
    var sp := SplitOn(doc.fileHeader);
    forall i | 0 <= i < |hl| ensures !IsDateLine(hl[i]) {
      if i >= |sp| {
        assert hl[i] == [];
        BlankLine();
      } else {
        assert hl[i] == sp[i];
      }
    }
  }

  // ---------------------------------------------------------------------
  // Re-parsing a parsed document

  /** The lines of a header the parser built from raw lines none of which
      is a date header are themselves not date headers: they are those raw
      lines with the empty ones at the end dropped. */
  lemma {:induction false} PiecesNotDates(hs: seq<string>)
    requires NoNewlines(hs)
    requires forall i :: 0 <= i < |hs| ==> !IsDateLine(hs[i])
    ensures var sp := SplitOn(RStripNewlines(JoinLines(hs)));
            forall i :: 0 <= i < |sp| ==> !IsDateLine(sp[i])
    decreases |hs|
  {
    if hs == [] {
      assert JoinLines(hs) == [];
      assert SplitOn([]) == [[]];
      BlankLine();
    } else {
      var p := hs[..|hs| - 1];
      var x := hs[|hs| - 1];
      assert hs == p + [x];
      assert forall i :: 0 <= i < |p| ==> p[i] == hs[i];
      if x == [] {
        SplitTrimmedBlankLast(p);
        PiecesNotDates(p);
      } else {
        SplitTrimmedLines(p, x);
      }
    }
  }

  lemma ParsedHeaderIsTrimmed(text: string, doc: Doc)
    requires Parse(text) == Success(doc)
    ensures doc.fileHeader == RStripNewlines(JoinLines(SplitLines(text)[..HeaderEnd(SplitLines(text))]))
  {
    ParseHeader(text, doc);
    RStripNewlinesOfPadded(doc.fileHeader, doc.headerNewlines + 1);
  }

  lemma HeaderPrefixLines(lines: seq<string>)
    requires NoNewlines(lines)
    ensures NoNewlines(lines[..HeaderEnd(lines)])
    ensures forall i :: 0 <= i < |lines[..HeaderEnd(lines)]| ==> !IsDateLine(lines[..HeaderEnd(lines)][i])
  {
    var hs := lines[..HeaderEnd(lines)];
    assert forall i :: 0 <= i < |hs| ==> hs[i] == lines[i];
  }

  /** A parsed header never has a line that reads as a date header. */
  lemma ParsedHeaderOk(text: string, doc: Doc)
    requires Parse(text) == Success(doc)
    ensures HeaderOk(doc.fileHeader)
  {
    var lines := SplitLines(text);
    ParsedHeaderIsTrimmed(text, doc);
    HeaderPrefixLines(lines);
    PiecesNotDates(lines[..HeaderEnd(lines)]);
  }

  /** A parsed document with at least one line before its first date header
      and at least one dated line renders to text that parses back to it. */
  lemma ParseRenderParse(text: string, doc: Doc)
    requires Parse(text) == Success(doc)
    requires doc.data != [] && doc.headerNewlines >= 0
    ensures Parse(Render(doc)) == Success(doc)
  {
    ParsedHeaderOk(text, doc);
    ParseValidData(text, doc);
    assert Renderable(doc);
    RoundTrip(doc);
  }

  // ---------------------------------------------------------------------
  // Where the round trip stops

  /** A document whose count is -1 (nothing stood before its first date
      header) renders as if the count were 0, because `render` always writes
      a newline before each date header; parsing that text back yields
      count 0, so such a document is not a fixed point of render-then-parse. */
  lemma HeaderlessGainsBlankLine(doc: Doc)
    requires doc.data != [] && ValidData(doc.data) && HeaderOk(doc.fileHeader)
    requires doc.headerNewlines == -1
    ensures Parse(Render(doc)) == Success(doc.(headerNewlines := 0))
  {
    var doc0 := doc.(headerNewlines := 0);
    assert Render(doc) == Render(doc0);
    RoundTrip(doc0);
  }

  /** A document without dates and a count of at least 1 comes back from
      render-then-parse with a count one lower: the count subtracts the
      newline that would have come before a first date header, and none is
      written. `DatelessRenderParse` says where the decrease stops. */
  lemma DatelessLosesBlankLine(doc: Doc)
    requires doc.data == [] && HeaderOk(doc.fileHeader)
    requires doc.headerNewlines >= 1
    ensures Parse(Render(doc)) == Success(doc.(headerNewlines := doc.headerNewlines - 1))
  {
    var fewer := doc.(headerNewlines := doc.headerNewlines - 1);
    DatelessRendersAsHeader(doc, fewer);
    DatelessParsesAs(fewer);
  }

  lemma DatelessRendersAsHeader(doc: Doc, fewer: Doc)
    requires doc.data == [] && doc.headerNewlines >= 1
    requires fewer == doc.(headerNewlines := doc.headerNewlines - 1)
    ensures Render(doc) == JoinLines(HeaderLines(fewer))
  {
    JoinHeaderLines(fewer);
    assert RenderEntries(doc.data) == [];
  }

  /** The header lines of a document without dates parse back to it. */
  lemma DatelessParsesAs(doc: Doc)
    requires doc.data == [] && HeaderOk(doc.fileHeader)
    requires doc.headerNewlines >= 0
    ensures Parse(JoinLines(HeaderLines(doc))) == Success(doc)
  {
    var hl := HeaderLines(doc);
    var st := ParseState(JoinLines(hl), None, []);
    HeaderLinesNoNewlines(doc);
    SplitLinesOfJoinLines(hl);
    HeaderLinesAreNotDates(doc);
    FoldHeader(hl);
    ParseViaFold(JoinLines(hl), hl, st);
    FinishRendered(doc, st);
  }

  /** The empty text is the document with no header, no dates and count -1. */
  lemma ParseEmpty()
    ensures Parse([]) == Success(Doc([], [], -1))
  {
  }

  /** The count a document without dates comes back with from
      render-then-parse: one lower while it is at least 1; then 0 for a
      header with text, -1 for an empty header. */
  function DatelessCount(h: string, n: int): int {
    if n >= 1 then n - 1 else if h == [] then -1 else 0
  }

  /** Render-then-parse of a document without dates changes at most its
      count, as `DatelessCount` says. */
  lemma DatelessRenderParse(doc: Doc)
    requires doc.data == [] && HeaderOk(doc.fileHeader)
    ensures Parse(Render(doc)) == Success(doc.(headerNewlines := DatelessCount(doc.fileHeader, doc.headerNewlines)))
  {
    if doc.headerNewlines >= 1 {
      DatelessLosesBlankLine(doc);
    } else {
      DatelessRendersAsText(doc);
      if doc.fileHeader == [] {
        ParseEmpty();
      } else {
        HeaderTextParses(doc.(headerNewlines := 0));
      }
    }
  }

  /** With no dates and a count of at most 0, the rendering is the header text. */
  lemma DatelessRendersAsText(doc: Doc)
    requires doc.data == [] && doc.headerNewlines <= 0
    ensures Render(doc) == doc.fileHeader
  {
    assert RenderEntries(doc.data) == [];
    assert Newlines(doc.headerNewlines) == [];
  }

  /** A header text with no date lines, taken on its own, parses to that
      header with count 0. */
  lemma HeaderTextParses(doc: Doc)
    requires doc.data == [] && HeaderOk(doc.fileHeader) && doc.fileHeader != []
    requires doc.headerNewlines == 0
    ensures Parse(doc.fileHeader) == Success(doc)
  {
    DatelessParsesAs(doc);
    JoinHeaderLines(doc);
    assert Newlines(1) == "\n";
    SplitLinesFinalNewline(doc.fileHeader);
  }

  /** The count a parse result comes back with from render-then-parse. */
  function ReparsedCount(doc: Doc): int {
    if doc.data == [] then DatelessCount(doc.fileHeader, doc.headerNewlines)
    else if doc.headerNewlines < 0 then 0
    else doc.headerNewlines
  }

  /** Render-then-parse of any parse result gives it back except for the
      count: with dates, a count of -1 becomes 0; without dates, the count
      moves as `DatelessCount` says. */
  lemma ReparseChangesOnlyCount(text: string, doc: Doc)
    requires Parse(text) == Success(doc)
    ensures Parse(Render(doc)) == Success(doc.(headerNewlines := ReparsedCount(doc)))
  {
    ParsedHeaderOk(text, doc);
    ParseValidData(text, doc);
    ParseHeader(text, doc);
    if doc.data == [] {
      DatelessRenderParse(doc);
    } else if doc.headerNewlines < 0 {
      HeaderlessGainsBlankLine(doc);
    } else {
      ParseRenderParse(text, doc);
    }
  }
}
