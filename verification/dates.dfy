/** Calendar dates and the `[DD/MM/YYYY]` date-header token.

    Python's `date` only holds days that exist in the proleptic Gregorian
    calendar between years 1 and 9999, so `Date` is the subset of
    `CalendarDate` that satisfies `Valid`. `ParseToken` models
    `datetime.strptime(line, "[%d/%m/%Y]").date()` restricted to the
    zero-padded two-digit day and month, and `Token` models the formatting
    `f"[{date:%d/%m/%Y}]"`. */
module Dates {
  import opened Results

  datatype CalendarDate = CalendarDate(year: int, month: int, day: int)

  predicate IsLeapYear(y: int) {
    y % 4 == 0 && (y % 100 != 0 || y % 400 == 0)
  }

  function DaysInMonth(y: int, m: int): (n: int)
    requires 1 <= m <= 12
    ensures 28 <= n <= 31
  {
    if m == 2 then (if IsLeapYear(y) then 29 else 28)
    else if m == 4 || m == 6 || m == 9 || m == 11 then 30
    else 31
  }

  /** A day that exists: year 1 to 9999, month 1 to 12, day within the month. */
  predicate Valid(c: CalendarDate) {
    1 <= c.year <= 9999 && 1 <= c.month <= 12 && 1 <= c.day <= DaysInMonth(c.year, c.month)
  }

  type Date = c: CalendarDate | Valid(c) witness CalendarDate(1, 1, 1)

  /** A line shaped like a date header: it starts with `[` and ends with `]`. */
  predicate IsBracketed(s: string) {
    |s| > 0 && s[0] == '[' && s[|s| - 1] == ']'
  }

  predicate IsDigit(c: char) {
    '0' <= c <= '9'
  }

  predicate AllDigits(s: string) {
    forall i :: 0 <= i < |s| ==> IsDigit(s[i])
  }

  function DigitValue(c: char): (v: nat)
    requires IsDigit(c)
    ensures v <= 9
  {
    c as int - '0' as int
  }

  function DigitChar(v: nat): (c: char)
    requires v <= 9
    ensures IsDigit(c) && DigitValue(c) == v
  {
    ('0' as int + v) as char
  }

  function Pow10(w: nat): (p: nat)
    ensures p >= 1
  {
    if w == 0 then 1 else 10 * Pow10(w - 1)
  }

  /** `n` written in exactly `w` decimal digits, zero-padded on the left, as
      `%d` and `%m` (width 2) and `%Y` (width 4) write it. */
  function Digits(n: nat, w: nat): string
    decreases w
  {
    if w == 0 then "" else Digits(n / 10, w - 1) + [DigitChar(n % 10)]
  }

  /** The number a string of decimal digits spells. */
  function ReadDigits(s: string): nat
    requires AllDigits(s)
    decreases |s|
  {
    if s == [] then 0 else 10 * ReadDigits(s[..|s| - 1]) + DigitValue(s[|s| - 1])
  }

  /** A `w`-digit field is `w` digits long. */
  lemma {:induction false} DigitsShape(n: nat, w: nat)
    ensures |Digits(n, w)| == w && AllDigits(Digits(n, w))
    decreases w
  {
    if w > 0 {
      DigitsShape(n / 10, w - 1);
    }
  }

  /** Reading back a number written in `w` digits gives the number, when it
      fits in `w` digits. */
  lemma {:induction false} ReadDigitsOfDigits(n: nat, w: nat)
    requires n < Pow10(w)
    ensures AllDigits(Digits(n, w)) && ReadDigits(Digits(n, w)) == n
    decreases w
  {
    DigitsShape(n, w);
    if w > 0 {
      var ds := Digits(n, w);
      ReadDigitsOfDigits(n / 10, w - 1);
      assert ds[..|ds| - 1] == Digits(n / 10, w - 1);
    }
  }

  /** Writing back the number a digit string spells, at the string's own
      width, gives the string: leading zeros are kept. */
  lemma {:induction false} DigitsOfReadDigits(s: string)
    requires AllDigits(s)
    ensures ReadDigits(s) < Pow10(|s|) && Digits(ReadDigits(s), |s|) == s
    decreases |s|
  {
    if s != [] {
      var p, c := s[..|s| - 1], s[|s| - 1];
      assert AllDigits(p) by {
        forall i | 0 <= i < |p| ensures IsDigit(p[i]) {
          assert p[i] == s[i];
        }
      }
      DigitsOfReadDigits(p);
      var v := ReadDigits(s);
      assert v / 10 == ReadDigits(p) && v % 10 == DigitValue(c);
      assert DigitChar(DigitValue(c)) == c;
      assert s == p + [c];
    }
  }

  /** The date-header token of a date, `[DD/MM/YYYY]`. */
  function Token(d: Date): string {
    "[" + Digits(d.day, 2) + "/" + Digits(d.month, 2) + "/" + Digits(d.year, 4) + "]"
  }

  /** A token is twelve characters, bracket-shaped, and holds no newline
      and no whitespace. */
  lemma TokenShape(d: Date)
    ensures |Token(d)| == 12 && IsBracketed(Token(d))
    ensures forall i :: 0 <= i < |Token(d)| ==> Token(d)[i] != '\n' && Token(d)[i] != ' ' && Token(d)[i] != '\t'
  {
    var t := Token(d);
    TokenParts(d);
    forall i | 0 <= i < |t| ensures t[i] != '\n' && t[i] != ' ' && t[i] != '\t' {
      if 1 <= i < 3 {
        assert t[i] == t[1..3][i - 1];
      } else if 4 <= i < 6 {
        assert t[i] == t[4..6][i - 4];
      } else if 7 <= i < 11 {
        assert t[i] == t[7..11][i - 7];
      }
    }
  }

  /** Where the separators and the three numbers sit in a token. */
  lemma TokenParts(d: Date)
    ensures |Token(d)| == 12
    ensures Token(d)[0] == '[' && Token(d)[3] == '/' && Token(d)[6] == '/' && Token(d)[11] == ']'
    ensures Token(d)[1..3] == Digits(d.day, 2)
    ensures Token(d)[4..6] == Digits(d.month, 2)
    ensures Token(d)[7..11] == Digits(d.year, 4)
    ensures AllDigits(Token(d)[1..3]) && AllDigits(Token(d)[4..6]) && AllDigits(Token(d)[7..11])
  {
    DigitsShape(d.day, 2);
    DigitsShape(d.month, 2);
    DigitsShape(d.year, 4);
  }

  /** The shape `[DD/MM/YYYY]` with digits where the numbers go. */
  predicate HasTokenShape(s: string) {
    && |s| == 12 && s[0] == '[' && s[3] == '/' && s[6] == '/' && s[11] == ']'
    && AllDigits(s[1..3]) && AllDigits(s[4..6]) && AllDigits(s[7..11])
  }

  /** The date a date-header token names, or `None` where `strptime` would
      raise (the wrong shape, or a day that does not exist) or where the day
      or month is not written with two digits, which `strptime` would accept. */
  function ParseToken(s: string): Option<Date> {
    if !HasTokenShape(s) then None
    else
      var c := CalendarDate(ReadDigits(s[7..11]), ReadDigits(s[4..6]), ReadDigits(s[1..3]));
      if Valid(c) then Some(c) else None
  }

  /** A token that parses is exactly the formatting of the date it names. */
  lemma ParseTokenSound(s: string)
    ensures ParseToken(s).Some? ==> s == Token(ParseToken(s).value)
  {
    if ParseToken(s).Some? {
      var d := ParseToken(s).value;
      DigitsOfReadDigits(s[1..3]);
      DigitsOfReadDigits(s[4..6]);
      DigitsOfReadDigits(s[7..11]);
      TokenSplit(s);
    }
  }

  /** A twelve-character string is its bracket, day, slash, month, slash,
      year and bracket parts put back together. */
  lemma TokenSplit(s: string)
    requires |s| == 12
    ensures s == [s[0]] + s[1..3] + [s[3]] + s[4..6] + [s[6]] + s[7..11] + [s[11]]
  {
  }

  /** Formatting then parsing a date gives the date back. */
  lemma ParseTokenOfToken(d: Date)
    ensures ParseToken(Token(d)) == Some(d)
  {
    TokenParts(d);
    ReadDigitsOfDigits(d.day, 2);
    ReadDigitsOfDigits(d.month, 2);
    ReadDigitsOfDigits(d.year, 4);
  }

  /** A string parses to `d` exactly when it is the token of `d`. */
  lemma ParseTokenIff(s: string, d: Date)
    ensures ParseToken(s) == Some(d) <==> s == Token(d)
  {
    ParseTokenSound(s);
    if s == Token(d) {
      ParseTokenOfToken(d);
    }
  }
}
