/** The date-keyed data format: a free-form file header followed by blocks
    of data lines, each block opened by a `[DD/MM/YYYY]` date header.

    `Doc` is the `DDF` record, `Parse` turns text into a `Doc` in one pass
    over its lines, and `Render` writes a `Doc` back as text. */
module Ddf {
  import opened Results
  import opened Text
  import opened Dates
  import opened DateMap

  /** A parsed file: the header text with its trailing newlines removed,
      the date-to-lines mapping in insertion order, and `headerNewlines`,
      which is one less than the number of newlines removed from the end
      of the header (`_file_header_newlines`). A `dict` holds each date at
      most once; `data` may repeat a date, and every result that depends on
      distinct dates requires `ValidData`, which `Parse` establishes
      (`ParseValidData`). */
  datatype Doc = Doc(fileHeader: string, data: seq<Entry>, headerNewlines: int)

  /** The only way parsing fails: a date-header-shaped line whose contents
      are not a valid `[DD/MM/YYYY]` date (`strptime` raising `ValueError`). */
  datatype ParseError = InvalidDate(token: string)

  /** `DDF.day`: the data lines stored under `d`, if any. */
  function Day(doc: Doc, d: Date): (r: Option<seq<string>>)
    ensures r.None? <==> d !in Keys(doc.data)
    ensures r.Some? ==> Entry(d, r.value) in doc.data
  {
    Lookup(doc.data, d)
  }

  /** `DDF.raw_file_header`: the header followed by `headerNewlines`
      newlines, none when the count is negative. */
  function RawFileHeader(doc: Doc): string {
    doc.fileHeader + Newlines(doc.headerNewlines)
  }

  /** The raw header is the header followed by as many newlines as the count
      says, none when the count is negative. */
  lemma RawFileHeaderShape(doc: Doc)
    ensures |RawFileHeader(doc)| == |doc.fileHeader| + (if doc.headerNewlines > 0 then doc.headerNewlines else 0)
    ensures RawFileHeader(doc)[..|doc.fileHeader|] == doc.fileHeader
    ensures forall i :: |doc.fileHeader| <= i < |RawFileHeader(doc)| ==> RawFileHeader(doc)[i] == '\n'
  {
    var r := RawFileHeader(doc);
    assert forall i :: |doc.fileHeader| <= i < |r| ==> r[i] == Newlines(doc.headerNewlines)[i - |doc.fileHeader|];
  }

  /** A line the parser stores as data: non-empty, already stripped,
      free of newlines and not shaped like a date header. */
  predicate IsDataLine(l: string) {
    l != [] && IsStripped(l) && '\n' !in l && !IsBracketed(l)
  }

  /** The data of a parsed document: distinct dates, each with at least
      one line, every line a data line. */
  predicate ValidData(es: seq<Entry>) {
    && DistinctKeys(es)
    && forall i :: 0 <= i < |es| ==> es[i].lines != [] && forall j :: 0 <= j < |es[i].lines| ==> IsDataLine(es[i].lines[j])
  }

  /** A line the parser treats as a date header: after stripping, it starts
      with `[` and ends with `]`. */
  predicate IsDateLine(raw: string) {
    IsBracketed(Strip(raw))
  }

  // ---------------------------------------------------------------------
  // Parsing

  /** What the parser has built after a prefix of the lines: the raw header
      buffer, the date of the last date header seen, and the data so far. */
  datatype ParseState = ParseState(header: string, current: Option<Date>, data: seq<Entry>)

  const Init := ParseState("", None, [])

  /** One iteration of the parser's loop over the lines. A date-header line
      selects the current date (or fails); before any date header the raw
      line and a newline go to the header; after one, the stripped line is
      added under the current date unless it is blank. */
  function Step(st: ParseState, raw: string): (r: Result<ParseState, ParseError>)
    ensures r.Failure? <==> IsDateLine(raw) && ParseToken(Strip(raw)).None?
    ensures r.Failure? ==> r.error == InvalidDate(Strip(raw))
    ensures r.Success? && IsDateLine(raw) ==> r.value.current.Some? && Token(r.value.current.value) == Strip(raw)
    ensures r.Success? && !IsDateLine(raw) ==> r.value.current == st.current
  {
    var line := Strip(raw);
    if IsBracketed(line) then
      match ParseToken(line)
      case None => Failure(InvalidDate(line))
      case Some(d) =>
        ParseTokenSound(line);
        Success(st.(current := Some(d)))
    else if st.current.None? then
      Success(st.(header := st.header + raw + "\n"))
    else if line != [] then
      Success(st.(data := Append(st.data, st.current.value, line)))
    else
      Success(st)
  }

  /** The loop over all lines, stopping at the first failure. */
  function Fold(st: ParseState, lines: seq<string>): Result<ParseState, ParseError>
    decreases |lines|
  {
    if lines == [] then Success(st)
    else
      match Fold(st, lines[..|lines| - 1])
      case Failure(e) => Failure(e)
      case Success(s) => Step(s, lines[|lines| - 1])
  }

  /** The end of `parse`: the header buffer loses its trailing newlines,
      and the count of newlines removed, minus one, is kept. */
  function Finish(st: ParseState): (r: Doc)
    ensures r.fileHeader + Newlines(r.headerNewlines + 1) == st.header
    ensures r.fileHeader == [] || r.fileHeader[|r.fileHeader| - 1] != '\n'
    ensures r.headerNewlines >= -1 && r.data == st.data
  {
    var h := RStripNewlines(st.header);
    var n := |st.header| - |h| - 1;
    var pad := Newlines(n + 1);
    assert |pad| == |st.header| - |h|;
    assert st.header == h + st.header[|h|..];
    assert pad == st.header[|h|..];
    Doc(h, st.data, n)
  }

  /** `parse(text)`. */
  function Parse(text: string): Result<Doc, ParseError> {
    match Fold(Init, SplitLines(text))
    case Failure(e) => Failure(e)
    case Success(st) => Success(Finish(st))
  }

  // ---------------------------------------------------------------------
  // Rendering

  /** The block of one date: `\n[DD/MM/YYYY]\n`, then each of its lines
      followed by `\n`. */
  function Block(e: Entry): string {
    "\n" + Token(e.date) + "\n" + JoinLines(e.lines)
  }

  lemma BlockEndsInNewline(e: Entry)
    ensures Block(e) != [] && Block(e)[|Block(e)| - 1] == '\n'
  {
    JoinLinesEndsInNewline(e.lines);
    var b := Block(e);
    if e.lines == [] {
      assert b == ("\n" + Token(e.date)) + "\n";
    } else {
      assert b == ("\n" + Token(e.date) + "\n") + JoinLines(e.lines);
    }
  }

  /** The blocks of the given entries, in order. */
  function RenderEntries(es: seq<Entry>): (r: string)
    ensures es != [] ==> r != [] && r[|r| - 1] == '\n'
    decreases |es|
  {
    if es == [] then ""
    else
      var r := RenderEntries(es[..|es| - 1]) + Block(es[|es| - 1]);
      BlockEndsInNewline(es[|es| - 1]);
      r
  }

  lemma JoinLinesEndsInNewline(ls: seq<string>)
    ensures ls != [] ==> JoinLines(ls) != [] && JoinLines(ls)[|JoinLines(ls)| - 1] == '\n'
  {
    if ls != [] {
      JoinLinesConcat(ls[..|ls| - 1], [ls[|ls| - 1]]);
      assert ls[..|ls| - 1] + [ls[|ls| - 1]] == ls;
    }
  }

  /** `render(ddf)`: the raw header, then every block in insertion order.
      The text starts with the raw header, and ends in a newline whenever
      there is at least one date. */
  function Render(doc: Doc): string {
    RawFileHeader(doc) + RenderEntries(doc.data)
  }

  /** The rendering starts with the raw header, and ends in a newline
      whenever there is at least one date. */
  lemma RenderShape(doc: Doc)
    ensures |Render(doc)| >= |RawFileHeader(doc)| && Render(doc)[..|RawFileHeader(doc)|] == RawFileHeader(doc)
    ensures doc.data != [] ==> Render(doc) != [] && Render(doc)[|Render(doc)| - 1] == '\n'
  {
    EndsOfConcat(RawFileHeader(doc), RenderEntries(doc.data));
  }

  lemma EndsOfConcat(a: string, b: string)
    ensures (a + b)[..|a|] == a
    ensures b != [] ==> (a + b)[|a + b| - 1] == b[|b| - 1]
  {
  }
}
