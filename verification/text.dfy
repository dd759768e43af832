/** Line and whitespace handling of the date-keyed data format.

    The format works on `\n`-separated lines. `SplitLines` models Python's
    `str.splitlines` narrowed to `\n` as the only separator (a final `\n` does
    not open an empty last line), `Strip` models `str.strip` narrowed to space
    and tab, and `RStripNewlines` models `str.rstrip("\n")`. */
module Text {

  /** The whitespace `Strip` removes. */
  predicate IsSpace(c: char) {
    c == ' ' || c == '\t'
  }

  predicate AllSpace(s: string) {
    forall i :: 0 <= i < |s| ==> IsSpace(s[i])
  }

  /** A string that `Strip` leaves unchanged: it neither starts nor ends with whitespace. */
  predicate IsStripped(s: string) {
    s == [] || (!IsSpace(s[0]) && !IsSpace(s[|s| - 1]))
  }

  /** Removes leading whitespace. */
  function StripLeft(s: string): string
    decreases |s|
  {
    if |s| > 0 && IsSpace(s[0]) then StripLeft(s[1..]) else s
  }

  /** `StripLeft` keeps the suffix of `s` that starts at its first
      non-whitespace character. */
  lemma {:induction false} StripLeftSpec(s: string)
    ensures |StripLeft(s)| <= |s| && StripLeft(s) == s[|s| - |StripLeft(s)|..]
    ensures AllSpace(s[..|s| - |StripLeft(s)|])
    ensures StripLeft(s) == [] || !IsSpace(StripLeft(s)[0])
    decreases |s|
  {
    if |s| > 0 && IsSpace(s[0]) {
      var t := s[1..];
      StripLeftSpec(t);
      var k := |t| - |StripLeft(t)|;
      assert s[..k + 1] == [s[0]] + t[..k];
    }
  }

  /** Removes trailing whitespace. */
  function StripRight(s: string): string
    decreases |s|
  {
    if |s| > 0 && IsSpace(s[|s| - 1]) then StripRight(s[..|s| - 1]) else s
  }

  /** `StripRight` keeps the prefix of `s` that ends at its last
      non-whitespace character. */
  lemma {:induction false} StripRightSpec(s: string)
    ensures |StripRight(s)| <= |s| && StripRight(s) == s[..|StripRight(s)|]
    ensures AllSpace(s[|StripRight(s)|..])
    ensures StripRight(s) == [] || !IsSpace(StripRight(s)[|StripRight(s)| - 1])
    decreases |s|
  {
    if |s| > 0 && IsSpace(s[|s| - 1]) {
      var t := s[..|s| - 1];
      StripRightSpec(t);
      var k := |StripRight(t)|;
      assert s[k..] == t[k..] + [s[|s| - 1]];
    }
  }

  /** Python's `str.strip()` over space and tab. */
  function Strip(s: string): string {
    StripRight(StripLeft(s))
  }

  /** The stripped line has no surrounding whitespace, is no longer than the
      raw line and holds only characters of the raw line. */
  lemma StripSpec(s: string)
    ensures IsStripped(Strip(s))
    ensures |Strip(s)| <= |s|
    ensures forall c :: c in Strip(s) ==> c in s
  {
    var t := StripLeft(s);
    StripLeftSpec(s);
    StripRightSpec(t);
    var r := StripRight(t);
    assert forall c :: c in r ==> c in t;
    assert forall c :: c in t ==> c in s;
  }

  /** `Strip` fixes exactly the stripped strings, so stripping twice is
      stripping once. */
  lemma StripFixesStripped(s: string)
    ensures Strip(s) == s <==> IsStripped(s)
    ensures Strip(Strip(s)) == Strip(s)
  {
    StripSpec(s);
    if IsStripped(s) {
      assert StripLeft(s) == s;
      assert StripRight(s) == s;
    }
    var r := Strip(s);
    assert StripLeft(r) == r;
    assert StripRight(r) == r;
  }

  /** A line strips to nothing exactly when it is whitespace only. */
  lemma StripEmptyIffBlank(s: string)
    ensures Strip(s) == [] <==> AllSpace(s)
  {
    var t := StripLeft(s);
    StripLeftSpec(s);
    StripRightSpec(t);
    var k := |s| - |t|;
    if Strip(s) == [] {
      assert AllSpace(t);
      forall i | 0 <= i < |s| ensures IsSpace(s[i]) {
        assert s[i] == s[..k][i];
      }
    }
  }

  /** A string of `n` newlines; `n * "\n"` in Python, so a negative count
      gives the empty string. */
  function Newlines(n: int): (r: string)
    ensures |r| == if n > 0 then n else 0
    ensures forall i :: 0 <= i < |r| ==> r[i] == '\n'
    decreases if n > 0 then n else 0
  {
    if n <= 0 then "" else Newlines(n - 1) + "\n"
  }

  lemma NewlineFirst(n: nat)
    ensures "\n" + Newlines(n) == Newlines(n + 1)
  {
    var a := "\n" + Newlines(n);
    var b := Newlines(n + 1);
    assert |a| == |b|;
    assert forall i :: 0 <= i < |a| ==> a[i] == b[i];
  }

  /** Python's `str.rstrip("\n")`: `s` is the result followed only by
      newlines, and the result does not itself end in a newline. */
  function RStripNewlines(s: string): (r: string)
    ensures |r| <= |s| && r == s[..|r|]
    ensures forall i :: |r| <= i < |s| ==> s[i] == '\n'
    ensures r == [] || r[|r| - 1] != '\n'
    decreases |s|
  {
    if |s| > 0 && s[|s| - 1] == '\n' then RStripNewlines(s[..|s| - 1]) else s
  }

  /** `RStripNewlines` undoes appending newlines to a string that does not
      end in one, and the count it removes is the count appended. */
  lemma RStripNewlinesOfPadded(h: string, n: int)
    requires h == [] || h[|h| - 1] != '\n'
    ensures RStripNewlines(h + Newlines(n)) == h
  {
    var s := h + Newlines(n);
    var r := RStripNewlines(s);
    assert s[..|h|] == h;
  }

  lemma RStripNewlinesDropsNewline(s: string)
    ensures RStripNewlines(s + "\n") == RStripNewlines(s)
  {
    assert (s + "\n")[..|s|] == s;
  }

  // ---------------------------------------------------------------------
  // Splitting and joining on '\n'

  /** Every piece between separators, always at least one piece:
      `"a\nb"` gives `["a", "b"]`, `"a\n"` gives `["a", ""]`, `""` gives `[""]`. */
  function SplitOn(s: string): (r: seq<string>)
    ensures |r| >= 1
    ensures forall i :: 0 <= i < |r| ==> '\n' !in r[i]
    decreases |s|
  {
    if s == [] then [[]]
    else
      var rest := SplitOn(s[1..]);
      if s[0] == '\n' then [[]] + rest
      else [[s[0]] + rest[0]] + rest[1..]
  }

  /** The pieces glued back together with `\n` between them. */
  function Join(ls: seq<string>): string
    requires |ls| >= 1
    decreases |ls|
  {
    if |ls| == 1 then ls[0] else ls[0] + "\n" + Join(ls[1..])
  }

  /** Each line followed by `\n`, as a text file holds them. */
  function JoinLines(ls: seq<string>): string
    decreases |ls|
  {
    if ls == [] then "" else ls[0] + "\n" + JoinLines(ls[1..])
  }

  /** The lines of a text: the `\n`-separated pieces, where a final `\n`
      closes the last line instead of opening an empty one. */
  function SplitLines(s: string): (r: seq<string>)
    ensures forall i :: 0 <= i < |r| ==> '\n' !in r[i]
    ensures s == [] <==> r == []
  {
    if s == [] then []
    else
      var p := SplitOn(s);
      if p[|p| - 1] == [] then
        assert |p| > 1 by { JoinSplitOn(s); }
        p[..|p| - 1]
      else p
  }

  predicate NoNewlines(ls: seq<string>) {
    forall i :: 0 <= i < |ls| ==> '\n' !in ls[i]
  }

  lemma NoNewlinesConcat(a: seq<string>, b: seq<string>)
    requires NoNewlines(a) && NoNewlines(b)
    ensures NoNewlines(a + b)
  {
    forall i | 0 <= i < |a + b| ensures '\n' !in (a + b)[i] {
      if i < |a| {
        assert (a + b)[i] == a[i];
      } else {
        assert (a + b)[i] == b[i - |a|];
      }
    }
  }

  lemma {:induction false} JoinLinesConcat(a: seq<string>, b: seq<string>)
    ensures JoinLines(a + b) == JoinLines(a) + JoinLines(b)
    decreases |a|
  {
    if a != [] {
      assert (a + b)[1..] == a[1..] + b;
      JoinLinesConcat(a[1..], b);
      calc {
        JoinLines(a + b);
        a[0] + "\n" + JoinLines(a[1..] + b);
        a[0] + "\n" + (JoinLines(a[1..]) + JoinLines(b));
        (a[0] + "\n" + JoinLines(a[1..])) + JoinLines(b);
      }
    } else {
      assert a + b == b;
    }
  }

  lemma {:induction false} JoinSnoc(ls: seq<string>, x: string)
    requires |ls| >= 1
    ensures Join(ls + [x]) == Join(ls) + "\n" + x
    decreases |ls|
  {
    if |ls| > 1 {
      assert (ls + [x])[1..] == ls[1..] + [x];
      JoinSnoc(ls[1..], x);
    }
  }

  lemma {:induction false} JoinLinesIsJoin(ls: seq<string>)
    ensures JoinLines(ls) == Join(ls + [""])
    decreases |ls|
  {
    if ls != [] {
      assert (ls + [""])[1..] == ls[1..] + [""];
      JoinLinesIsJoin(ls[1..]);
    }
  }

  /** Joining the pieces of a split restores the text. */
  lemma {:induction false} JoinSplitOn(s: string)
    ensures Join(SplitOn(s)) == s
    decreases |s|
  {
    if s != [] {
      var rest := SplitOn(s[1..]);
      JoinSplitOn(s[1..]);
      if s[0] != '\n' {
        var r := SplitOn(s);
        assert r[1..] == rest[1..];
        if |rest| > 1 {
          assert Join(rest) == rest[0] + "\n" + Join(rest[1..]);
        }
      }
    }
  }

  /** Splitting text that starts with a complete line yields that line first. */
  lemma {:induction false} SplitOnLine(l: string, t: string)
    requires '\n' !in l
    ensures SplitOn(l + "\n" + t) == [l] + SplitOn(t)
    decreases |l|
  {
    if l != [] {
      assert (l + "\n" + t)[1..] == l[1..] + "\n" + t;
      SplitOnLine(l[1..], t);
      assert [l[0]] + l[1..] == l;
    } else {
      assert (l + "\n" + t)[1..] == t;
    }
  }

  /** Splitting lines followed by `t` yields the first line, then the split
      of the rest. */
  lemma SplitOnCons(ls: seq<string>, t: string)
    requires ls != [] && '\n' !in ls[0]
    ensures SplitOn(JoinLines(ls) + t) == [ls[0]] + SplitOn(JoinLines(ls[1..]) + t)
  {
    var y := JoinLines(ls[1..]) + t;
    assert JoinLines(ls) + t == ls[0] + "\n" + y;
    SplitOnLine(ls[0], y);
  }

  lemma ConsAppend<T>(s: seq<T>, c: seq<T>)
    requires s != []
    ensures [s[0]] + (s[1..] + c) == s + c
  {
    assert [s[0]] + s[1..] == s;
  }

  /** A non-empty sequence is its front followed by its last element. */
  lemma FrontLast<T>(s: seq<T>)
    requires s != []
    ensures s[..|s| - 1] + [s[|s| - 1]] == s
  {
  }

  lemma NoNewlinesTail(ls: seq<string>)
    requires ls != [] && NoNewlines(ls)
    ensures NoNewlines(ls[1..]) && '\n' !in ls[0]
  {
    assert forall i :: 0 <= i < |ls| - 1 ==> ls[1..][i] == ls[i + 1];
  }

  lemma {:induction false} SplitOnJoinLines(ls: seq<string>, t: string)
    requires NoNewlines(ls)
    ensures SplitOn(JoinLines(ls) + t) == ls + SplitOn(t)
    decreases |ls|
  {
    if ls != [] {
      NoNewlinesTail(ls);
      SplitOnCons(ls, t);
      SplitOnJoinLines(ls[1..], t);
      ConsAppend(ls, SplitOn(t));
    } else {
      assert JoinLines(ls) + t == t;
    }
  }

  lemma {:induction false} SplitOnNoNewline(s: string)
    requires '\n' !in s
    ensures SplitOn(s) == [s]
    decreases |s|
  {
    if s != [] {
      SplitOnNoNewline(s[1..]);
      assert [s[0]] + s[1..] == s;
    }
  }

  /** Splitting the lines of a file gives back exactly the lines written. */
  lemma SplitLinesOfJoinLines(ls: seq<string>)
    requires NoNewlines(ls)
    ensures SplitLines(JoinLines(ls)) == ls
  {
    SplitOnJoinLines(ls, "");
    assert JoinLines(ls) + "" == JoinLines(ls);
    if ls != [] {
      assert JoinLines(ls) != [];
      assert (ls + [""])[..|ls|] == ls;
    }
  }

  /** Writing the lines of a text back out restores it, adding a final
      `\n` only where the text lacked one. */
  lemma JoinLinesOfSplitLines(s: string)
    ensures s == [] || s[|s| - 1] == '\n' ==> JoinLines(SplitLines(s)) == s
    ensures s != [] && s[|s| - 1] != '\n' ==> JoinLines(SplitLines(s)) == s + "\n"
  {
    if s != [] {
      var p := SplitOn(s);
      JoinSplitOn(s);
      if p[|p| - 1] == [] {
        assert |p| > 1;
        var q := p[..|p| - 1];
        assert q + [""] == p;
        JoinLinesIsJoin(q);
        JoinSnoc(q, "");
        assert s[|s| - 1] == '\n';
      } else {
        JoinLinesIsJoin(p);
        JoinSnoc(p, "");
        LastPieceNonEmpty(s);
      }
    }
  }

  /** A final `\n` after a last line that has text adds no line. */
  lemma SplitLinesFinalNewline(s: string)
    requires s != [] && s[|s| - 1] != '\n'
    ensures SplitLines(s + "\n") == SplitLines(s)
  {
    JoinLinesOfSplitLines(s);
    SplitLinesOfJoinLines(SplitLines(s));
  }

  /** When the last piece of a split is not empty, the text ends in it, not in `\n`. */
  lemma {:induction false} LastPieceNonEmpty(s: string)
    requires SplitOn(s)[|SplitOn(s)| - 1] != []
    ensures s != [] && s[|s| - 1] != '\n'
  {
    var p := SplitOn(s);
    JoinSplitOn(s);
    if |p| == 1 {
      assert s == p[0];
    } else {
      JoinSnoc(p[..|p| - 1], p[|p| - 1]);
      assert p[..|p| - 1] + [p[|p| - 1]] == p;
    }
  }

  /** An empty last line does not change the lines of the newline-trimmed text. */
  lemma SplitTrimmedBlankLast(p: seq<string>)
    ensures SplitOn(RStripNewlines(JoinLines(p + [[]]))) == SplitOn(RStripNewlines(JoinLines(p)))
  {
    JoinLinesConcat(p, [[]]);
    assert JoinLines([[]]) == "\n" + JoinLines([]);
    RStripNewlinesDropsNewline(JoinLines(p));
  }

  /** When the last line is not empty, trimming the newlines of the text
      and splitting it gives back all the lines. */
  lemma SplitTrimmedLines(p: seq<string>, x: string)
    requires NoNewlines(p) && '\n' !in x && x != []
    ensures SplitOn(RStripNewlines(JoinLines(p + [x]))) == p + [x]
  {
    JoinLinesConcat(p, [x]);
    assert JoinLines([x]) == x + "\n" + JoinLines([]);
    var body := JoinLines(p) + x;
    assert JoinLines(p + [x]) == body + Newlines(1);
    assert body[|body| - 1] == x[|x| - 1];
    RStripNewlinesOfPadded(body, 1);
    SplitOnJoinLines(p, x);
    SplitOnNoNewline(x);
  }
}
