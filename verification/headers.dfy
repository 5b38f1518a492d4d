/** `append_period_headers` (historical_stock_growth.py lines 177-201). It
    reads a date from the first ten characters of every column label after
    the first (line 182) and works out a period header from each, but the
    headers are never attached: line 201 returns the table it was given.
    What remains is the failure: a label that does not start with a date
    makes `strptime` raise `ValueError`, which ends the run. */
module Headers {
  import opened Wrappers
  import opened Text
  import opened Sequences
  import opened Dates
  import opened Tables
  import opened Prices
  import opened Returns
  import opened Layout

  /** `col_name[0:10]`. */
  function Head(l: string): string {
    if |l| <= 10 then l else l[..10]
  }

  /** The date `strptime` reads from the start of a label. */
  function HeadDate(l: string): Option<Date> {
    ParseDate(Head(l))
  }

  /** Every label after the first starts with a date. */
  predicate DatedAfterFirst(labels: seq<string>) {
    forall j :: 1 <= j < |labels| ==> HeadDate(labels[j]).Some?
  }

  /** `append_period_headers(df)`: the table unchanged, or `None` where line
      182 raises. */
  function AppendPeriodHeaders(t: Table): Option<Table> {
    if DatedAfterFirst(t.labels) then Some(t) else None
  }

  /* ---------------- which labels start with a date ---------------- */

  /** A label written as a date followed by anything (`<date> close`,
      `<date> return`, the live-price label) yields that date. */
  lemma DatedLabel(d: Date, suffix: string)
    ensures HeadDate(Format(d) + suffix) == Some(d)
  {
    var l := Format(d) + suffix;
    assert Head(l) == Format(d);
    ParseDateFormat(Format(d), d);
  }

  /** The first column's label is not a date. */
  lemma TickerUndated()
    ensures HeadDate("ticker") == None
  {
  }

  /** A label that starts with a date starts with a digit, so it sorts
      below `ticker`. */
  lemma DatedBelowTicker(l: string)
    requires HeadDate(l).Some?
    ensures Less(l, "ticker")
  {
    var h := Head(l);
    assert Format(HeadDate(l).value) == h;
    assert IsDigit(h[0]) && l[0] == h[0];
  }

  /** The live-price label starts with the date of the clock. */
  lemma PriceLabelDated(now: Clock)
    ensures HeadDate(PriceLabel(now)) == Some(now.date)
  {
    var rest := " " + Pad(now.hour, 2) + ":" + Pad(now.minute, 2) + " price";
    assert PriceLabel(now) == Format(now.date) + rest;
    DatedLabel(now.date, rest);
  }

  /** A close label starts with the date it is the close of. */
  lemma CloseLabelDated(d: Date)
    ensures HeadDate(CloseLabel(d)) == Some(d)
  {
    DatedLabel(d, " close");
  }

  /** The price table's labels: `ticker`, then labels that each start with
      a date, and so do the return labels. */
  lemma PriceLabelsDated(now: Clock, dates: seq<Date>)
    ensures PriceLabels(now, dates)[0] == "ticker"
    ensures DatedAfterFirst(PriceLabels(now, dates))
    ensures forall i :: 0 <= i < |dates| ==> HeadDate(DatedReturnLabel(dates[i])).Some?
  {
    var p := PriceLabels(now, dates);
    var cs := Map(CloseLabel, dates);
    assert p == ["ticker", PriceLabel(now)] + cs;
    forall j | 1 <= j < |p|
      ensures HeadDate(p[j]).Some?
    {
      if j == 1 {
        PriceLabelDated(now);
      } else {
        assert p[j] == cs[j - 2];
        DatedLabel(dates[j - 2], " close");
      }
    }
    forall i | 0 <= i < |dates|
      ensures HeadDate(DatedReturnLabel(dates[i])).Some?
    {
      DatedLabel(dates[i], " return");
    }
  }

  /* ---------------- `ticker` in the sorted labels ---------------- */

  predicate TickerOrDated(s: seq<string>) {
    forall j :: 0 <= j < |s| ==> s[j] == "ticker" || HeadDate(s[j]).Some?
  }

  /** Sorting labels that are `ticker` or start with a date, `ticker`
      among them, puts `ticker` first. */
  lemma TickerFirst(s: seq<string>, joined: seq<string>)
    requires Descending(s) && multiset(s) == multiset(joined)
    requires TickerOrDated(joined) && "ticker" in joined
    ensures |s| > 0 && s[0] == "ticker"
    ensures TickerOrDated(s)
  {
    assert "ticker" in multiset(s) by {
      assert "ticker" in multiset(joined);
    }
    var k :| 0 <= k < |s| && s[k] == "ticker";
    forall j | 0 <= j < |s|
      ensures s[j] == "ticker" || HeadDate(s[j]).Some?
    {
      assert s[j] in multiset(joined) by {
        assert s[j] in multiset(s);
      }
      var m :| 0 <= m < |joined| && joined[m] == s[j];
    }
    if s[0] != "ticker" {
      DatedBelowTicker(s[0]);
      assert false;
    }
  }

  /** A label that is first and occurs once does not occur again. */
  lemma OnlyFirst(s: seq<string>, x: string)
    requires |s| > 0 && s[0] == x && multiset(s)[x] == 1
    ensures forall j :: 1 <= j < |s| ==> s[j] != x
  {
    assert s == [s[0]] + s[1..];
    assert multiset(s) == multiset{x} + multiset(s[1..]);
    assert x !in multiset(s[1..]);
    forall j | 1 <= j < |s|
      ensures s[j] != x
    {
      assert s[j] == s[1..][j - 1];
      assert s[j] in multiset(s[1..]);
    }
  }

  /** With `ticker` at least twice, the sort puts it first and second. */
  lemma TickerTwiceFirst(s: seq<string>, joined: seq<string>)
    requires Descending(s) && multiset(s) == multiset(joined)
    requires TickerOrDated(joined) && multiset(joined)["ticker"] >= 2
    ensures |s| > 1 && s[0] == "ticker" && s[1] == "ticker"
  {
    TickerFirst(s, joined);
    TickerInTail(s);
    var k :| 0 <= k < |s[1..]| && s[1..][k] == "ticker";
    if s[1] != "ticker" {
      DatedBelowTicker(s[1]);
      assert false;
    }
  }

  /** A label that is first and occurs at least twice occurs again later. */
  lemma TickerInTail(s: seq<string>)
    requires |s| > 0 && multiset(s)[s[0]] >= 2
    ensures s[0] in s[1..]
  {
    assert s == [s[0]] + s[1..];
    assert multiset(s) == multiset{s[0]} + multiset(s[1..]);
    assert s[0] in multiset(s[1..]);
  }

  /* ---------------- the report's labels ---------------- */

  /** The labels `calculate_returns` leaves: the sorted labels of the price
      table and its return columns, with the later neighbours swapped. */
  lemma CalculatedLabels(t: Table)
    requires PriceSchema(t)
    ensures var s := SortDescending(t.labels + ReturnsTable(t).labels);
            && |s| >= 2 && |s| % 2 == 0
            && multiset(s) == multiset(t.labels + ReturnsTable(t).labels)
            && CalculateReturns(t).labels == Interleave(s)
  {
    var joined := Concat(t, ReturnsTable(t));
    PermutationLength(SortDescending(joined.labels), joined.labels);
  }

  /** The return labels of a price table with rows each start with a date. */
  lemma ReturnLabelsDated(t: Table, now: Clock, dates: seq<Date>)
    requires PriceSchema(t) && t.labels == PriceLabels(now, dates) && |t.rows| > 0
    ensures forall j :: 0 <= j < |ReturnsTable(t).labels| ==> HeadDate(ReturnsTable(t).labels[j]).Some?
  {
    var rt := ReturnsTable(t);
    ReturnLabelsOfCloses(dates);
    assert t.labels[2..] == Map(CloseLabel, dates);
    assert rt.labels == Map(DatedReturnLabel, dates);
    PriceLabelsDated(now, dates);
  }

  /** The price table's labels followed by its return labels: `ticker`,
      then labels that each start with a date. */
  lemma JoinedDated(t: Table, now: Clock, dates: seq<Date>)
    requires PriceSchema(t) && t.labels == PriceLabels(now, dates) && |t.rows| > 0
    ensures var joined := t.labels + ReturnsTable(t).labels;
            && joined[0] == "ticker"
            && forall j :: 1 <= j < |joined| ==> HeadDate(joined[j]).Some?
  {
    PriceLabelsDated(now, dates);
    ReturnLabelsDated(t, now, dates);
    AfterFirstKeeps(t.labels, ReturnsTable(t).labels, l => HeadDate(l).Some?);
  }

  /** A property of every label after the first of `a` and of every label of
      `b` holds for every label after the first of `a + b`. */
  lemma AfterFirstKeeps(a: seq<string>, b: seq<string>, p: string -> bool)
    requires |a| > 0
    requires forall j :: 1 <= j < |a| ==> p(a[j])
    requires forall j :: 0 <= j < |b| ==> p(b[j])
    ensures forall j :: 1 <= j < |a + b| ==> p((a + b)[j])
  {
    forall j | 1 <= j < |a + b|
      ensures p((a + b)[j])
    {
      if j >= |a| {
        assert (a + b)[j] == b[j - |a|];
      } else {
        assert (a + b)[j] == a[j];
      }
    }
  }

  /** Sorting `ticker` and labels that start with a date leaves `ticker`
      first and only there. */
  lemma SortedTickerFirst(joined: seq<string>)
    requires |joined| > 0 && joined[0] == "ticker"
    requires forall j :: 1 <= j < |joined| ==> HeadDate(joined[j]).Some?
    ensures var s := SortDescending(joined);
            && |s| > 0 && s[0] == "ticker"
            && forall j :: 1 <= j < |s| ==> HeadDate(s[j]).Some?
  {
    TickerOnce(joined);
    var s := SortDescending(joined);
    TickerFirst(s, joined);
    OnlyFirst(s, "ticker");
  }

  /** Swapping the later neighbours moves no label into the first place:
      a property of every label after the first still holds afterwards. */
  lemma InterleaveKeeps(s: seq<string>, p: string -> bool)
    requires |s| >= 2 && |s| % 2 == 0
    requires forall j :: 1 <= j < |s| ==> p(s[j])
    ensures forall j :: 1 <= j < |Interleave(s)| ==> p(Interleave(s)[j])
  {
    var order := Interleave(s);
    var tail := s[2..];
    var swapped := SwapPairs(tail);
    assert order == s[..2] + swapped;
    forall j | 1 <= j < |order|
      ensures p(order[j])
    {
      if j == 1 {
        assert order[1] == s[1];
      } else {
        var x := swapped[j - 2];
        assert order[j] == x;
        assert x in tail;
        var m :| 0 <= m < |tail| && tail[m] == x;
        assert s[m + 2] == x;
      }
    }
  }

  /** `Interleave` keeps every label after the first dated. */
  lemma InterleaveDated(s: seq<string>)
    requires |s| >= 2 && |s| % 2 == 0
    requires forall j :: 1 <= j < |s| ==> HeadDate(s[j]).Some?
    ensures DatedAfterFirst(Interleave(s))
  {
    InterleaveKeeps(s, l => HeadDate(l).Some?);
  }

  /** For a price table with rows, every label of the report after `ticker`
      starts with a date, so `append_period_headers` passes it through. */
  lemma ReportHeaders(t: Table, now: Clock, dates: seq<Date>)
    requires PriceSchema(t) && t.labels == PriceLabels(now, dates) && |t.rows| > 0
    ensures CalculateReturns(t).labels[0] == "ticker"
    ensures DatedAfterFirst(CalculateReturns(t).labels)
    ensures AppendPeriodHeaders(CalculateReturns(t)) == Some(CalculateReturns(t))
  {
    JoinedDated(t, now, dates);
    var joined := t.labels + ReturnsTable(t).labels;
    SortedTickerFirst(joined);
    CalculatedLabels(t);
    var s := SortDescending(joined);
    InterleaveDated(s);
    assert Interleave(s)[0] == s[0];
  }

  /** `ticker` first and every later label dated: `ticker` occurs once. */
  lemma TickerOnce(joined: seq<string>)
    requires |joined| > 0 && joined[0] == "ticker"
    requires forall j :: 1 <= j < |joined| ==> HeadDate(joined[j]).Some?
    ensures TickerOrDated(joined) && multiset(joined)["ticker"] == 1
  {
    TickerUndated();
    var rest := joined[1..];
    assert joined == ["ticker"] + rest;
    assert "ticker" !in rest by {
      forall j | 0 <= j < |rest|
        ensures rest[j] != "ticker"
      {
        assert rest[j] == joined[j + 1];
      }
    }
    assert multiset(joined) == multiset{"ticker"} + multiset(rest);
  }

  /** For a price table without rows (no tickers), `calculate_returns`
      joins the table to a copy of itself, so `ticker` is the second label
      too and line 182 raises on it. */
  lemma EmptyReportHeaders(t: Table, now: Clock, dates: seq<Date>)
    requires PriceSchema(t) && t.labels == PriceLabels(now, dates) && |t.rows| == 0
    ensures CalculateReturns(t).labels[..2] == ["ticker", "ticker"]
    ensures AppendPeriodHeaders(CalculateReturns(t)) == None
  {
    PriceLabelsDated(now, dates);
    DoubledLabels(t.labels);
    CalculatedLabels(t);
    var joined := t.labels + t.labels;
    var s := SortDescending(joined);
    TickerTwiceFirst(s, joined);
    TickerTwiceUndated(s);
  }

  /** Sorted labels that start with `ticker` twice keep both in front, and
      the second is not a date. */
  lemma TickerTwiceUndated(s: seq<string>)
    requires |s| >= 2 && |s| % 2 == 0 && s[0] == "ticker" && s[1] == "ticker"
    ensures Interleave(s)[..2] == ["ticker", "ticker"]
    ensures !DatedAfterFirst(Interleave(s))
  {
    var order := Interleave(s);
    assert order[..2] == s[..2];
    TickerUndated();
    assert HeadDate(order[1]) == None;
  }

  /** Labels with `ticker` first and dates after it, joined to themselves:
      `ticker` twice, every other label dated. */
  lemma DoubledLabels(labels: seq<string>)
    requires |labels| > 0 && labels[0] == "ticker" && DatedAfterFirst(labels)
    ensures TickerOrDated(labels + labels)
    ensures multiset(labels + labels)["ticker"] == 2
  {
    TickerOnce(labels);
    assert multiset(labels + labels) == multiset(labels) + multiset(labels);
    ConcatKeeps(labels, labels, l => l == "ticker" || HeadDate(l).Some?);
  }

  /** A property of every label of two sequences holds for their
      concatenation. */
  lemma ConcatKeeps(a: seq<string>, b: seq<string>, p: string -> bool)
    requires forall j :: 0 <= j < |a| ==> p(a[j])
    requires forall j :: 0 <= j < |b| ==> p(b[j])
    ensures forall j :: 0 <= j < |a + b| ==> p((a + b)[j])
  {
    forall j | 0 <= j < |a + b|
      ensures p((a + b)[j])
    {
      if j >= |a| {
        assert (a + b)[j] == b[j - |a|];
      }
    }
  }

  /** What line 182 does to the report built from a price table: it passes
      exactly when there is at least one ticker. */
  lemma PriceTableHeaders(t: Table, now: Clock, dates: seq<Date>)
    requires PriceSchema(t) && t.labels == PriceLabels(now, dates)
    ensures AppendPeriodHeaders(CalculateReturns(t)).Some? <==> |t.rows| > 0
    ensures AppendPeriodHeaders(CalculateReturns(t)).Some? ==>
              AppendPeriodHeaders(CalculateReturns(t)).value == CalculateReturns(t)
  {
    if |t.rows| > 0 {
      ReportHeaders(t, now, dates);
    } else {
      EmptyReportHeaders(t, now, dates);
    }
  }
}
