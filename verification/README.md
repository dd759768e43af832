# Date-keyed data format (DDF) in Dafny

A DDF file is plain text: a free-form file header, then blocks of data
lines, each block opened by a date header line `[DD/MM/YYYY]`. The Python
module `datedataformat/ddf.py` holds the whole format:

- the `DDF` record: the header text, an insertion-ordered `dict` from date to
  data lines, and `_file_header_newlines`, one less than the number of
  newlines trimmed off the end of the header. It also has the `day` lookup and
  the `raw_file_header` property;
- `parse`: one pass over the lines of the text;
- `render`: writes a `DDF` back as text.

This project models all three as pure Dafny functions and proves what they
do.

| file | module | models |
|---|---|---|
| `results.dfy` | `Results` | `Option` and `Result` (Python's `None` and raised exceptions) |
| `text.dfy` | `Text` | `str.splitlines`, `str.strip` and `str.rstrip("\n")`, narrowed as described below, plus joining lines back into text |
| `dates.dfy` | `Dates` | `datetime.date` validity (month lengths, Gregorian leap years, years 1 to 9999), `strptime(line, "[%d/%m/%Y]")` and `f"[{date:%d/%m/%Y}]"` |
| `datemap.dfy` | `DateMap` | the insertion-ordered `dict[date, list[str]]` as a sequence of entries, `dict.get` and `defaultdict(list)` append |
| `ddf.dfy` | `Ddf` | `DDF`, `day`, `raw_file_header`, `parse` (as `Step`, `Fold`, `Finish`) and `render` |
| `parse_facts.dfy` | `ParseFacts` | what `parse` returns, stated on the list of input lines |
| `roundtrip.dfy` | `RoundTrip` | `parse(render(d)) == d` and where it stops holding |

`parse` is modelled as a left fold over the lines (`Fold`), one `Step` per
loop iteration, then `Finish` for the header trimming after the loop. The
proofs compare the fold against reference definitions taken straight from the
lines of the text:

- `HeaderEnd`: where the header ends;
- `Owner`: which date header owns a line;
- `DataFor`: which lines a date collects;
- `DataOrder`: in which order dates first receive a line;
- `FirstInvalid`: the first bad date header.

Main results:

- Parsing fails exactly at the first bracket-shaped line that is not a valid
  date (`ParseOutcome`).
- The header is the raw, unstripped lines before the first date header, with
  their trailing newlines trimmed. `headerNewlines` is one less than the number
  of newlines trimmed, and it is -1 exactly when no line precedes the first
  date header, or the text has no lines at all (`ParseHeader`,
  `ParseRawFileHeader`).
- A date repeated in the file collects all of its lines, in file order, under
  one key. A date header with no data lines creates no key. Keys appear in the
  order in which each date first receives a line (`ParseData`).
- Every stored line is stripped, non-empty, newline-free and not
  bracket-shaped. Keys are distinct, and no list is empty (`ParseValidData`).
- `Parse(Render(doc)) == Success(doc)` holds for every `Renderable` document
  (`RoundTrip`). A document is `Renderable` when all of these hold:
  - it has at least one date;
  - its dates are distinct, as a `dict`'s keys are;
  - every date has lines, and every line is a data line;
  - `headerNewlines >= 0`;
  - the header does not end in a newline;
  - no header line is bracket-shaped.
- Every parse result with a date and a header line meets these conditions, so
  `parse(render(parse(t))) == parse(t)` for such results (`ParseRenderParse`).
- The two missing conditions really are needed:
  - a document meeting every other condition but with count -1 comes back
    with count 0 (`HeaderlessGainsBlankLine`);
  - a document without dates, with a count of at least 1 and a header meeting
    the two header conditions, comes back with a count one lower
    (`DatelessLosesBlankLine`). The decrease stops at 0 when
    the header has text and at -1 when it is empty (`DatelessRenderParse`).
- Render-then-parse of any parse result changes nothing but the count
  (`ReparseChangesOnlyCount`). With a date, only a count of -1 changes, and it
  becomes 0. Without dates, the count drops by one while it is at least 1, and
  a count of 0 under an empty header becomes -1.

## Model

| member | source | states |
|---|---|---|
| Text.SplitLines | datedataformat/ddf.py:31 | the lines of a text hold no newline, and only the empty text has no lines |
| Text.SplitLinesOfJoinLines | datedataformat/ddf.py:31 | splitting text written as newline-terminated lines gives back exactly those lines |
| Text.JoinLinesOfSplitLines | datedataformat/ddf.py:31 | writing the lines of a text back restores it, adding a final newline only when the text lacked one (a final newline opens no empty line) |
| Text.StripLeftSpec | datedataformat/ddf.py:32 | stripping the front drops exactly a run of leading whitespace and stops at the first other character |
| Text.StripRightSpec | datedataformat/ddf.py:32 | stripping the back drops exactly a run of trailing whitespace and stops at the last other character |
| Text.StripSpec | datedataformat/ddf.py:32 | the stripped line has no leading or trailing whitespace, is no longer than the raw line and holds only its characters |
| Text.StripFixesStripped | datedataformat/ddf.py:32 | strip leaves a line unchanged exactly when it has no surrounding whitespace, so stripping twice is stripping once |
| Text.StripEmptyIffBlank | datedataformat/ddf.py:45 | a line strips to nothing exactly when it is whitespace only |
| Text.Newlines | datedataformat/ddf.py:23 | repeating the newline a negative number of times gives the empty string, otherwise that many newlines |
| Text.RStripNewlines | datedataformat/ddf.py:49 | the trimmed text is a prefix of the buffer followed only by newlines, and does not itself end in a newline |
| Text.RStripNewlinesOfPadded | datedataformat/ddf.py:49-50 | trimming a text that was padded with newlines returns the unpadded text |
| Text.SplitTrimmedLines | datedataformat/ddf.py:41-49 | when the last raw header line is not empty, the trimmed header splits back into all the raw lines |
| Text.SplitTrimmedBlankLast | datedataformat/ddf.py:41-49 | an empty last raw header line does not change the lines of the trimmed header |
| Dates.DigitsShape | datedataformat/ddf.py:63 | a number written in `w` zero-padded digits is exactly `w` decimal digits |
| Dates.ReadDigitsOfDigits | datedataformat/ddf.py:36 | reading back a number written in enough zero-padded digits gives the number |
| Dates.DigitsOfReadDigits | datedataformat/ddf.py:36 | a digit string is the zero-padded writing, at its own width, of the number it spells |
| Dates.TokenShape | datedataformat/ddf.py:63 | a formatted date header is 12 characters, bracket-shaped and free of whitespace and newlines |
| Dates.ParseTokenSound | datedataformat/ddf.py:35-36 | a token that parses is exactly the formatting of the date it names |
| Dates.ParseTokenOfToken | datedataformat/ddf.py:36 | parsing the formatting of any date gives that date back |
| Dates.ParseTokenIff | datedataformat/ddf.py:36 | a string parses to a date if and only if it is that date's token |
| DateMap.Lookup | datedataformat/ddf.py:18-19 | lookup is absent exactly when no entry has the date, and otherwise returns the lines of an entry with that date |
| DateMap.LookupEntry | datedataformat/ddf.py:18-19 | with distinct dates, each entry is what a lookup of its date finds |
| DateMap.AppendKeys | datedataformat/ddf.py:46 | appending keeps the key order, adding the date at the end only when it is new |
| DateMap.AppendNew | datedataformat/ddf.py:46 | appending under a new date adds a one-line entry at the end and leaves the rest alone |
| DateMap.AppendLookup | datedataformat/ddf.py:46 | appending adds the line to the end of that date's lines, changes no other date and keeps dates distinct |
| DateMap.AppendToLast | datedataformat/ddf.py:46 | appending to the most recently added date extends that entry in place |
| Ddf.Day | datedataformat/ddf.py:18-19 | a day is absent exactly when the date is not a key, and otherwise is the lines stored under it |
| Ddf.RawFileHeaderShape | datedataformat/ddf.py:21-23 | the raw header is the header followed by the count of newlines, none when the count is negative |
| Ddf.Step | datedataformat/ddf.py:31-46 | one loop iteration fails exactly on a bracket-shaped line that is not a date, naming the stripped line; a date header selects its date; any other line leaves the current date alone |
| Ddf.Finish | datedataformat/ddf.py:48-55 | the header plus one more newline than the count rebuilds the buffer; the header does not end in a newline; the count is at least -1 |
| Ddf.RenderShape | datedataformat/ddf.py:58-66 | the output starts with the raw header and ends in a newline whenever there is a date |
| Ddf.RenderEntries | datedataformat/ddf.py:62-64 | the blocks of a non-empty mapping end in a newline |
| ParseFacts.FirstInvalid | datedataformat/ddf.py:35-36 | the index returned is the first bracket-shaped line that is not a valid date, or the line count when there is none |
| ParseFacts.HeaderEnd | datedataformat/ddf.py:41-42 | the index returned is the first date header, or the line count when there is none |
| ParseFacts.FoldMatches | datedataformat/ddf.py:26-46 | the loop fails at the first invalid date header; otherwise its state agrees with the reference definitions read off the lines |
| ParseFacts.ParseOutcome | datedataformat/ddf.py:35-36 | parse succeeds if and only if every bracket-shaped stripped line is a valid date, and otherwise reports the first bad one |
| ParseFacts.ParseHeader | datedataformat/ddf.py:41-50 | the header and its count rebuild the raw lines before the first date header, each followed by a newline; the header never ends in a newline; the count is -1 exactly when no line precedes the first date header |
| ParseFacts.ParseRawFileHeader | datedataformat/ddf.py:21-23 | the raw header of a parsed document is the text before the first date header without its last newline, empty when nothing precedes it |
| ParseFacts.ParseData | datedataformat/ddf.py:28-46 | each date holds the stripped non-blank lines under every header naming it, in file order, and is absent when there are none; keys come in order of first data line |
| ParseFacts.DataForAreDataLines | datedataformat/ddf.py:32-46 | every line collected for a date is stripped, non-empty, newline-free and not bracket-shaped |
| ParseFacts.ParseValidData | datedataformat/ddf.py:28-54 | a parsed document has distinct dates, each with at least one line, each line a data line |
| RoundTrip.RenderAsLines | datedataformat/ddf.py:58-66 | a document with a date and a non-negative count renders as its header lines and newline-count empty lines, then each date header and its lines, with one empty line before every later date header |
| RoundTrip.RoundTrip | datedataformat/ddf.py:26-66 | parsing the rendering of a renderable document gives the document back |
| RoundTrip.ParseRenderParse | datedataformat/ddf.py:26-66 | a parse result with a date and at least one line before the first date header is a fixed point of render-then-parse |
| RoundTrip.ParsedHeaderOk | datedataformat/ddf.py:41-50 | no line of a parsed header is bracket-shaped and the header does not end in a newline |
| RoundTrip.HeaderlessGainsBlankLine | datedataformat/ddf.py:50-63 | a document with count -1, at least one date, valid data and a header that has no date line and does not end in a newline parses back from its rendering with count 0 |
| RoundTrip.DatelessLosesBlankLine | datedataformat/ddf.py:23-60 | a document without dates, with a count of at least 1 and a header that has no date line and does not end in a newline, parses back from its rendering with a count one lower |
| RoundTrip.DatelessRenderParse | datedataformat/ddf.py:23-60 | a document without dates whose header has no date line and does not end in a newline parses back from its rendering with only its count changed: one lower while it is at least 1, otherwise 0 for a header with text and -1 for an empty header |
| RoundTrip.ParseEmpty | datedataformat/ddf.py:26-55 | the empty text parses to an empty header, no dates and count -1 |
| RoundTrip.HeaderTextParses | datedataformat/ddf.py:31-50 | a non-empty header text that has no date line and does not end in a newline parses to that header, with no dates and count 0 |
| RoundTrip.ReparseChangesOnlyCount | datedataformat/ddf.py:26-66 | rendering and re-parsing any parse result gives it back except for the count, which changes only as stated for the -1 and dateless cases |
| Text.SplitLinesFinalNewline | datedataformat/ddf.py:31 | a final newline after a line with text adds no line |

## Left out

- Line splitting: Python's `splitlines` also breaks on `\r`, `\r\n`, `\v`, `\f`, `\x1c` to `\x1e`, `\x85`, `\u2028` and `\u2029`. The model splits on `\n` only.
- Stripping: Python's `strip` removes all Unicode whitespace. The model removes space and tab only.
- `strptime` looseness: `%d` and `%m` also accept a single digit, `%d` also accepts a space-padded digit, and `\d` accepts non-ASCII decimal digits. The model accepts only the exact ASCII token `[DD/MM/YYYY]`, so a file that Python reads with `[1/4/2023]` fails to parse in the model.
- Dates.Token: writes the year as four zero-padded digits, Python's documented `%Y` output. Some glibc-based Python builds print years below 1000 without padding, and such a rendering would not parse back. The model does not cover those builds.
- Strict mode, per-date blank-line counts and `DDFParseError`: the tests call `parse(text, strict=True)` and build `DDF(_file_header_blank_lines=..., _data_blank_lines=...)`. Neither exists in `datedataformat/ddf.py`, which is the code modelled here.
- The exact-text round trip `render(parse(t)) == t` claimed by `tests/test_library.py:85-99` does not hold for this `render`, which writes a newline before every date header (`datedataformat/ddf.py:63`). After the header's last line that newline only ends the line, but before every later date header it leaves an empty line, and `tests/test_library.py:85-99` has none there. It is not stated. The laws that do hold are `RoundTrip.RoundTrip` and `RoundTrip.ParseRenderParse`.
- Ddf.RenderShape: states only that the output starts with the raw header and ends in a newline. The full layout is stated by `RoundTrip.RenderAsLines`, for documents with at least one date and a non-negative count.
- `datedataformat/cli.py` and `datedataformat/_cli_utils.py`: file reading, seeking, writing and truncating, click commands, the default date taken from the clock, and re-raising parse errors for click. This is I/O around `parse` and `render`.
- Mutating a `DDF` between `parse` and `render` (the CLI appends a line under a date). Documents here are immutable values, and any document can be passed to `Render`.
- The default `_file_header_newlines = 2` of the `DDF` constructor: every `Ddf.Doc` names its count explicitly.
- `StringIO`, the dataclass machinery and exception classes: failure is the `Result` value `Failure(InvalidDate(token))`. The token carried is the stripped line, not Python's error message text.
