/** The report layout `calculate_returns` produces for the table that
    `get_prices` builds: sorting the labels in descending string order puts
    the newest dates first and, within one date, `return` above `close`, so
    swapping the neighbours leaves each close directly before its return
    (historical_stock_growth.py lines 142-156). This holds when the dates are
    distinct and all earlier than the day of the live price. */
module Layout {
  import opened Wrappers
  import opened Text
  import opened Sequences
  import opened Dates
  import opened Tables
  import opened Prices
  import opened Returns

  /** Every date strictly older than the one before it. */
  predicate StrictlyNewestFirst(dates: seq<Date>) {
    forall i :: 0 <= i < |dates| - 1 ==> Before(dates[i + 1], dates[i])
  }

  predicate AllBefore(dates: seq<Date>, day: Date) {
    forall i :: 0 <= i < |dates| ==> Before(dates[i], day)
  }

  /** The columns of the price table (line 118). */
  function PriceLabels(now: Clock, dates: seq<Date>): seq<string> {
    ["ticker", PriceLabel(now)] + Map(CloseLabel, dates)
  }

  /** The report's columns: ticker, live price, then each date's close
      followed by its return. */
  function ReportLabels(now: Clock, dates: seq<Date>): seq<string> {
    ["ticker", PriceLabel(now)] + Pairs(Map(CloseLabel, dates), Map(DatedReturnLabel, dates))
  }

  /** The price table's labels sorted in descending order. */
  function SortedLabels(now: Clock, dates: seq<Date>): seq<string> {
    ["ticker", PriceLabel(now)] + Pairs(Map(DatedReturnLabel, dates), Map(CloseLabel, dates))
  }

  /* ---------------- comparing two labels ---------------- */

  /** A label that starts with a digit sorts below `ticker`. */
  lemma TickerAbovePrice(now: Clock)
    ensures Less(PriceLabel(now), "ticker")
  {
    var p := PriceLabel(now);
    assert p[0] == Format(now.date)[0];
    assert "ticker"[0] == 't';
  }

  lemma CloseWordBelowReturnWord()
    ensures Less(" close", " return")
  {
    assert " close"[1..] == "close" && " return"[1..] == "return";
    assert Less("close", "return");
  }

  /** A return label sorts above the close label of the same date. */
  lemma CloseBelowReturn(d: Date)
    ensures Less(CloseLabel(d), DatedReturnLabel(d))
  {
    CloseWordBelowReturnWord();
    LessAppend(Format(d), " close", Format(d), " return");
  }

  /** Labels of an older date sort below those of a newer one. */
  lemma OlderReturnBelowClose(d: Date, e: Date)
    requires Before(d, e)
    ensures Less(DatedReturnLabel(d), CloseLabel(e))
  {
    FormatLess(d, e);
    LessAppend(Format(d), " return", Format(e), " close");
  }

  lemma OlderReturnBelowPrice(d: Date, now: Clock)
    requires Before(d, now.date)
    ensures Less(DatedReturnLabel(d), PriceLabel(now))
  {
    FormatLess(d, now.date);
    var rest := " " + Pad(now.hour, 2) + ":" + Pad(now.minute, 2) + " price";
    assert PriceLabel(now) == Format(now.date) + rest;
    LessAppend(Format(d), " return", Format(now.date), rest);
  }

  /* ---------------- the sorted order ---------------- */

  /** Neighbours `p` and `p + 1` of a paired list: two elements of one
      pair, or the end of one pair and the start of the next. */
  lemma PairsNeighbours<T>(a: seq<T>, b: seq<T>, p: int) returns (m: nat, within: bool)
    requires |a| == |b| && 0 <= p < 2 * |a| - 1
    ensures within ==> m < |a| && Pairs(a, b)[p] == a[m] && Pairs(a, b)[p + 1] == b[m]
    ensures !within ==> m + 1 < |a| && Pairs(a, b)[p] == b[m] && Pairs(a, b)[p + 1] == a[m + 1]
  {
    m := p / 2;
    within := p % 2 == 0;
    if within {
      assert p == 2 * m;
    } else {
      assert p == 2 * m + 1 && p + 1 == 2 * (m + 1);
    }
  }

  lemma SortedLabelsStrictlyDescending(now: Clock, dates: seq<Date>)
    requires StrictlyNewestFirst(dates) && AllBefore(dates, now.date)
    ensures StrictlyDescending(SortedLabels(now, dates))
  {
    var rs, cs := Map(DatedReturnLabel, dates), Map(CloseLabel, dates);
    var s := SortedLabels(now, dates);
    forall i | 0 <= i < |s| - 1
      ensures Less(s[i + 1], s[i])
    {
      if i == 0 {
        TickerAbovePrice(now);
      } else if i == 1 {
        assert s[2] == Pairs(rs, cs)[0] == rs[0];
        OlderReturnBelowPrice(dates[0], now);
      } else {
        var m, within := PairsNeighbours(rs, cs, i - 2);
        assert s[i] == Pairs(rs, cs)[i - 2] && s[i + 1] == Pairs(rs, cs)[i - 1];
        if within {
          CloseBelowReturn(dates[m]);
        } else {
          OlderReturnBelowClose(dates[m + 1], dates[m]);
        }
      }
    }
  }

  /** Sorting the price and return labels gives `SortedLabels`, and none of
      them repeats. */
  lemma SortJoinedLabels(now: Clock, dates: seq<Date>)
    requires StrictlyNewestFirst(dates) && AllBefore(dates, now.date)
    ensures SortDescending(PriceLabels(now, dates) + Map(DatedReturnLabel, dates)) == SortedLabels(now, dates)
    ensures Distinct(PriceLabels(now, dates) + Map(DatedReturnLabel, dates))
  {
    var rs, cs := Map(DatedReturnLabel, dates), Map(CloseLabel, dates);
    var joined, s := PriceLabels(now, dates) + rs, SortedLabels(now, dates);
    SortedLabelsStrictlyDescending(now, dates);
    PairsMultiset(rs, cs);
    assert joined == ["ticker", PriceLabel(now)] + cs + rs;
    assert multiset(s) == multiset(joined);
    SortStrictlyDescending(s, joined);
    StrictlyDescendingIsDescending(s);
    DistinctPermutation(s, joined);
  }

  /** Swapping the neighbours of the sorted labels gives the report's columns. */
  lemma InterleaveSortedLabels(now: Clock, dates: seq<Date>)
    ensures Interleave(SortedLabels(now, dates)) == ReportLabels(now, dates)
  {
    var rs, cs := Map(DatedReturnLabel, dates), Map(CloseLabel, dates);
    var s := SortedLabels(now, dates);
    assert s[..2] == ["ticker", PriceLabel(now)] && s[2..] == Pairs(rs, cs);
    SwapPairsOfPairs(rs, cs);
  }

  /* ---------------- the report ---------------- */

  /** For distinct dates older than the live price, sorting and swapping
      the columns amounts to pairing each close column with its return
      column, and no label repeats. */
  lemma CalculateReturnsLabels(t: Table, now: Clock, dates: seq<Date>)
    requires PriceSchema(t) && t.labels == PriceLabels(now, dates) && |t.rows| > 0
    requires StrictlyNewestFirst(dates) && AllBefore(dates, now.date)
    ensures Distinct(t.labels + ReturnsTable(t).labels)
    ensures PairedLabels(t, ReturnsTable(t)) == ReportLabels(now, dates)
    ensures CalculateReturns(t) == Select(Concat(t, ReturnsTable(t)), ReportLabels(now, dates))
  {
    var joined := Concat(t, ReturnsTable(t));
    assert t.labels[..2] == ["ticker", PriceLabel(now)] && t.labels[2..] == Map(CloseLabel, dates);
    ReturnLabelsOfCloses(dates);
    SortJoinedLabels(now, dates);
    var sorted := SortedLabels(now, dates);
    PermutationAllIn(sorted, joined.labels);
    InterleaveSortedLabels(now, dates);
    SelectSelect(joined, sorted, ReportLabels(now, dates));
  }

  /** A fetched row laid out as the report has it: ticker, live price,
      then each close followed by the return from it to the live price. */
  function ReportRow(row: seq<Cell>): seq<Cell>
    requires |row| >= 2 && row[1].Num?
    requires forall j :: 2 <= j < |row| ==> row[j].Num? && row[j] != Num(Some(0.0))
  {
    row[..2] + Pairs(row[2..], ReturnRow(row))
  }

  /** `calculate_returns` on the table `get_prices` builds, for distinct
      dates older than the live price: the columns are the ticker, the live
      price, then for each date, newest first, its close followed by its
      return; each row keeps its ticker, live price and closes and adds the
      return from each close to the live price beside it. */
  lemma CalculateReturnsLayout(t: Table, now: Clock, dates: seq<Date>)
    requires PriceSchema(t) && t.labels == PriceLabels(now, dates) && |t.rows| > 0
    requires StrictlyNewestFirst(dates) && AllBefore(dates, now.date)
    ensures CalculateReturns(t).labels == ReportLabels(now, dates)
    ensures forall k :: 0 <= k < |t.rows| ==> CalculateReturns(t).rows[k] == ReportRow(t.rows[k])
  {
    var rt := ReturnsTable(t);
    CalculateReturnsLabels(t, now, dates);
    SelectPaired(t, rt);
    forall k | 0 <= k < |t.rows|
      ensures rt.rows[k] == ReturnRow(t.rows[k])
    {
    }
  }
}
