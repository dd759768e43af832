/** The insertion-ordered mapping from date to data lines that a parsed
    document holds (a Python `dict[date, list[str]]`), as a sequence of
    entries whose dates are pairwise distinct. */
module DateMap {
  import opened Results
  import opened Dates

  datatype Entry = Entry(date: Date, lines: seq<string>)

  /** The dates of the entries, in insertion order. */
  function Keys(es: seq<Entry>): (r: seq<Date>)
    ensures |r| == |es|
    ensures forall i :: 0 <= i < |es| ==> r[i] == es[i].date
  {
    seq(|es|, i requires 0 <= i < |es| => es[i].date)
  }

  predicate DistinctKeys(es: seq<Entry>) {
    forall i, j :: 0 <= i < j < |es| ==> es[i].date != es[j].date
  }

  /** The lines stored under `d` (`dict.get`): absent exactly when no entry
      has date `d`, and otherwise the lines of an entry with date `d`. */
  function Lookup(es: seq<Entry>, d: Date): (r: Option<seq<string>>)
    ensures r.None? <==> d !in Keys(es)
    ensures r.Some? ==> exists i :: 0 <= i < |es| && es[i] == Entry(d, r.value)
    decreases |es|
  {
    if es == [] then None
    else if es[0].date == d then Some(es[0].lines)
    else
      var r := Lookup(es[1..], d);
      assert r.Some? ==> exists i :: 0 <= i < |es[1..]| && es[1..][i] == Entry(d, r.value);
      r
  }

  /** With distinct dates, each entry is what a lookup of its date finds. */
  lemma {:induction false} LookupEntry(es: seq<Entry>, i: nat)
    requires DistinctKeys(es) && i < |es|
    ensures Lookup(es, es[i].date) == Some(es[i].lines)
    decreases i
  {
    if i > 0 {
      LookupEntry(es[1..], i - 1);
    }
  }

  /** `data[d].append(line)` on a `defaultdict(list)`: a date already present
      gets `line` added to the end of its lines in place, a new date is
      added at the end of the order with `[line]`. */
  function Append(es: seq<Entry>, d: Date, line: string): seq<Entry>
    decreases |es|
  {
    if es == [] then [Entry(d, [line])]
    else if es[0].date == d then [Entry(d, es[0].lines + [line])] + es[1..]
    else [es[0]] + Append(es[1..], d, line)
  }

  lemma KeysCons(e: Entry, es: seq<Entry>)
    ensures Keys([e] + es) == [e.date] + Keys(es)
  {
  }

  /** Appending keeps the order of the dates and adds a new date at the end. */
  lemma {:induction false} AppendKeys(es: seq<Entry>, d: Date, line: string)
    ensures Keys(Append(es, d, line)) == if d in Keys(es) then Keys(es) else Keys(es) + [d]
    decreases |es|
  {
    if es != [] {
      KeysCons(es[0], es[1..]);
      assert es == [es[0]] + es[1..];
      if es[0].date == d {
        KeysCons(Entry(d, es[0].lines + [line]), es[1..]);
      } else {
        AppendKeys(es[1..], d, line);
        KeysCons(es[0], Append(es[1..], d, line));
        assert d in Keys(es) <==> d in Keys(es[1..]);
      }
    }
  }

  /** A date not yet present is added at the end, with the one line. */
  lemma {:induction false} AppendNew(es: seq<Entry>, d: Date, line: string)
    requires d !in Keys(es)
    ensures Append(es, d, line) == es + [Entry(d, [line])]
    decreases |es|
  {
    if es != [] {
      assert es[0].date == Keys(es)[0];
      assert forall i :: 0 <= i < |es| - 1 ==> Keys(es[1..])[i] == Keys(es)[i + 1];
      AppendNew(es[1..], d, line);
      assert [es[0]] + (es[1..] + [Entry(d, [line])]) == es + [Entry(d, [line])];
    }
  }

  /** Appending changes the lines under `d` only, by adding `line` at their
      end, and keeps the dates distinct. */
  lemma AppendLookup(es: seq<Entry>, d: Date, line: string)
    ensures Lookup(Append(es, d, line), d) == Some(LinesOf(es, d) + [line])
    ensures forall k :: k != d ==> Lookup(Append(es, d, line), k) == Lookup(es, k)
    ensures DistinctKeys(es) ==> DistinctKeys(Append(es, d, line))
  {
    AppendLookupSame(es, d, line);
    forall k | k != d
      ensures Lookup(Append(es, d, line), k) == Lookup(es, k)
    {
      AppendLookupOther(es, d, line, k);
    }
    if DistinctKeys(es) {
      AppendDistinct(es, d, line);
    }
  }

  lemma {:induction false} AppendLookupSame(es: seq<Entry>, d: Date, line: string)
    ensures Lookup(Append(es, d, line), d) == Some(LinesOf(es, d) + [line])
    decreases |es|
  {
    var r := Append(es, d, line);
    if es == [] {
      assert r[0] == Entry(d, [line]);
      assert LinesOf(es, d) + [line] == [line];
    } else if es[0].date == d {
      assert r[0] == Entry(d, es[0].lines + [line]);
      assert LinesOf(es, d) == es[0].lines;
    } else {
      AppendLookupSame(es[1..], d, line);
      assert r[1..] == Append(es[1..], d, line);
      assert Lookup(r, d) == Lookup(r[1..], d);
      assert LinesOf(es, d) == LinesOf(es[1..], d);
    }
  }

  lemma {:induction false} AppendLookupOther(es: seq<Entry>, d: Date, line: string, k: Date)
    requires k != d
    ensures Lookup(Append(es, d, line), k) == Lookup(es, k)
    decreases |es|
  {
    var r := Append(es, d, line);
    if es == [] {
      assert Lookup(r, k) == Lookup(r[1..], k);
    } else if es[0].date == d {
      assert r[1..] == es[1..];
      assert Lookup(r, k) == Lookup(es[1..], k);
    } else if es[0].date != k {
      AppendLookupOther(es[1..], d, line, k);
      assert r[1..] == Append(es[1..], d, line);
      assert Lookup(r, k) == Lookup(r[1..], k);
    } else {
      assert r[0] == es[0];
    }
  }

  lemma AppendDistinct(es: seq<Entry>, d: Date, line: string)
    requires DistinctKeys(es)
    ensures DistinctKeys(Append(es, d, line))
  {
    var r := Append(es, d, line);
    AppendKeys(es, d, line);
    forall i, j | 0 <= i < j < |r| ensures r[i].date != r[j].date {
      assert Keys(r)[i] == r[i].date && Keys(r)[j] == r[j].date;
      if j < |es| {
        assert Keys(es)[i] == es[i].date && Keys(es)[j] == es[j].date;
      } else {
        assert Keys(es)[i] == es[i].date;
      }
    }
  }

  /** The lines under `d`, or none. */
  function LinesOf(es: seq<Entry>, d: Date): seq<string> {
    match Lookup(es, d)
    case Some(ls) => ls
    case None => []
  }

  /** Appending to the last entry of the order extends that entry. */
  lemma {:induction false} AppendToLast(es: seq<Entry>, d: Date, ls: seq<string>, line: string)
    requires d !in Keys(es)
    ensures Append(es + [Entry(d, ls)], d, line) == es + [Entry(d, ls + [line])]
    decreases |es|
  {
    if es != [] {
      assert (es + [Entry(d, ls)])[1..] == es[1..] + [Entry(d, ls)];
      AppendToLast(es[1..], d, ls, line);
    }
  }
}
