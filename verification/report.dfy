/** `drop_close_prices` (historical_stock_growth.py lines 205-212): the close
    columns removed unless they were asked for, and what that leaves of the
    report's columns. */
module Report {
  import opened Wrappers
  import opened Text
  import opened Sequences
  import opened Dates
  import opened Tables
  import opened Prices
  import opened Returns
  import opened Layout

  /* ---------------- dropping the close columns ---------------- */

  /** `[col for col in cols if not col.endswith('close')]` (line 209). */
  function KeptLabels(labels: seq<string>): (r: seq<string>)
    ensures forall j :: 0 <= j < |r| ==> !EndsWith(r[j], "close")
    ensures forall l :: l in labels && !EndsWith(l, "close") ==> l in r
    ensures AllIn(r, labels)
  {
    if |labels| == 0 then []
    else if EndsWith(labels[0], "close") then KeptLabels(labels[1..])
    else [labels[0]] + KeptLabels(labels[1..])
  }

  /** Filtering distributes over concatenation, so the kept labels stay in
      their original order. */
  lemma {:induction false} KeptLabelsAppend(a: seq<string>, b: seq<string>)
    ensures KeptLabels(a + b) == KeptLabels(a) + KeptLabels(b)
  {
    if |a| == 0 {
      assert a + b == b;
    } else {
      assert (a + b)[1..] == a[1..] + b;
      KeptLabelsAppend(a[1..], b);
    }
  }

  /** Filtering labels that already pass keeps them all. */
  lemma {:induction false} KeptLabelsTwice(labels: seq<string>)
    ensures KeptLabels(KeptLabels(labels)) == KeptLabels(labels)
  {
    if |labels| > 0 {
      KeptLabelsTwice(labels[1..]);
    }
  }

  /** `drop_close_prices`: unless close prices are asked for, only the
      columns whose label does not end in `close` remain, in their order; a
      label that occurs twice selects its first column. */
  function DropClosePrices(t: Table, includeClose: bool): (r: Table)
    requires WellFormed(t)
    ensures WellFormed(r) && |r.rows| == |t.rows|
    ensures includeClose ==> r == t
    ensures !includeClose ==> forall j :: 0 <= j < |r.labels| ==> !EndsWith(r.labels[j], "close")
    ensures !includeClose ==> forall l :: l in t.labels && !EndsWith(l, "close") ==> l in r.labels
    ensures !includeClose ==> AllIn(r.labels, t.labels)
    ensures !includeClose ==> r.labels == KeptLabels(t.labels)
    ensures !includeClose ==> forall k, j :: 0 <= k < |t.rows| && 0 <= j < |r.labels| ==>
              r.rows[k][j] == t.rows[k][IndexOf(t.labels, r.labels[j])]
  {
    if includeClose then t else Select(t, KeptLabels(t.labels))
  }

  /** Dropping the close columns a second time changes nothing. */
  lemma DropClosePricesTwice(t: Table, includeClose: bool)
    requires WellFormed(t)
    ensures DropClosePrices(DropClosePrices(t, includeClose), includeClose) == DropClosePrices(t, includeClose)
  {
    if !includeClose {
      var kept := KeptLabels(t.labels);
      KeptLabelsTwice(t.labels);
      SelectSelect(t, kept, kept);
    }
  }

  /* ---------------- the report without close prices ---------------- */

  /** From each close and return pair only the return is kept. */
  lemma {:induction false} KeptPairs(cs: seq<string>, rs: seq<string>)
    requires |cs| == |rs|
    requires forall i :: 0 <= i < |cs| ==> EndsWith(cs[i], "close") && !EndsWith(rs[i], "close")
    ensures KeptLabels(Pairs(cs, rs)) == rs
  {
    if |cs| > 0 {
      var rest := Pairs(cs[1..], rs[1..]);
      assert Pairs(cs, rs) == [cs[0]] + ([rs[0]] + rest);
      calc {
        KeptLabels(Pairs(cs, rs));
        { KeptLabelsCons(cs[0], [rs[0]] + rest); }
        KeptLabels([rs[0]] + rest);
        { KeptLabelsCons(rs[0], rest); }
        [rs[0]] + KeptLabels(rest);
        { KeptPairs(cs[1..], rs[1..]); }
        [rs[0]] + rs[1..];
      }
    }
  }

  lemma KeptLabelsCons(l: string, rest: seq<string>)
    ensures KeptLabels([l] + rest) == if EndsWith(l, "close") then KeptLabels(rest) else [l] + KeptLabels(rest)
  {
    assert ([l] + rest)[1..] == rest;
  }

  /** Whether a label ends in `close` is decided by its last word. */
  lemma EndsWithWord(a: string, w: string)
    requires |w| >= 5
    ensures EndsWith(a + w, "close") <==> w[|w| - 5..] == "close"
  {
    assert (a + w)[|a + w| - 5..] == w[|w| - 5..];
  }

  lemma LabelEndings(now: Clock, d: Date)
    ensures !EndsWith("ticker", "close") && !EndsWith(PriceLabel(now), "close")
    ensures EndsWith(CloseLabel(d), "close") && !EndsWith(DatedReturnLabel(d), "close")
  {
    assert "ticker"[1..][0] == 'i';
    EndsWithWord(Format(now.date) + " " + Pad(now.hour, 2) + ":" + Pad(now.minute, 2), " price");
    assert " price"[1..][0] == 'p';
    EndsWithWord(Format(d), " close");
    EndsWithWord(Format(d), " return");
    assert " return"[2..][0] == 'e';
  }

  /** The labels left when the close columns of the report are dropped. */
  lemma KeptReportLabels(now: Clock, dates: seq<Date>)
    ensures KeptLabels(ReportLabels(now, dates)) == ["ticker", PriceLabel(now)] + Map(DatedReturnLabel, dates)
  {
    var cs, rs := Map(CloseLabel, dates), Map(DatedReturnLabel, dates);
    DatedLabelEndings(now, dates);
    KeptPairs(cs, rs);
    KeptFront(now);
    KeptLabelsAppend(["ticker", PriceLabel(now)], Pairs(cs, rs));
  }

  lemma DatedLabelEndings(now: Clock, dates: seq<Date>)
    ensures forall i :: 0 <= i < |dates| ==>
              EndsWith(Map(CloseLabel, dates)[i], "close") && !EndsWith(Map(DatedReturnLabel, dates)[i], "close")
  {
    forall i | 0 <= i < |dates|
      ensures EndsWith(Map(CloseLabel, dates)[i], "close") && !EndsWith(Map(DatedReturnLabel, dates)[i], "close")
    {
      LabelEndings(now, dates[i]);
    }
  }

  /** The ticker and live-price columns are never dropped. */
  lemma KeptFront(now: Clock)
    ensures KeptLabels(["ticker", PriceLabel(now)]) == ["ticker", PriceLabel(now)]
  {
    var p := PriceLabel(now);
    LabelEndings(now, MinDate);
    assert ["ticker", p] == ["ticker"] + [p];
    KeptLabelsCons("ticker", [p]);
    assert [p] == [p] + [];
    KeptLabelsCons(p, []);
  }

  /** The return columns sit at the odd positions from 3 on. */
  lemma ReportReturnPositions(now: Clock, dates: seq<Date>)
    ensures |ReportLabels(now, dates)| == 2 + 2 * |dates|
    ensures forall i :: 0 <= i < |dates| ==> ReportLabels(now, dates)[3 + 2 * i] == DatedReturnLabel(dates[i])
  {
    var cs, rs := Map(CloseLabel, dates), Map(DatedReturnLabel, dates);
    forall i | 0 <= i < |dates|
      ensures ReportLabels(now, dates)[3 + 2 * i] == DatedReturnLabel(dates[i])
    {
      assert ReportLabels(now, dates)[3 + 2 * i] == Pairs(cs, rs)[2 * i + 1];
    }
  }

  /** The labels of the report for distinct dates older than the live
      price: none repeats, the returns sit at the odd positions from 3 on,
      and dropping the closes leaves the first two and the returns. */
  lemma ReportLabelsKept(t: Table, now: Clock, dates: seq<Date>)
    requires PriceSchema(t) && t.labels == PriceLabels(now, dates) && |t.rows| > 0
    requires StrictlyNewestFirst(dates) && AllBefore(dates, now.date)
    ensures Distinct(CalculateReturns(t).labels)
    ensures |CalculateReturns(t).labels| == 2 + 2 * |dates|
    ensures forall i :: 0 <= i < |dates| ==> CalculateReturns(t).labels[3 + 2 * i] == DatedReturnLabel(dates[i])
    ensures KeptLabels(CalculateReturns(t).labels)
            == CalculateReturns(t).labels[..2] + Map(DatedReturnLabel, dates)
  {
    CalculateReturnsLabels(t, now, dates);
    PairedDistinct(t, ReturnsTable(t));
    KeptReportLabels(now, dates);
    ReportReturnPositions(now, dates);
  }

  /** The report as written without close prices, for distinct dates older
      than the live price: ticker, live price, then the return over each
      period, newest date first. */
  lemma DropClosePricesLayout(t: Table, now: Clock, dates: seq<Date>)
    requires PriceSchema(t) && t.labels == PriceLabels(now, dates) && |t.rows| > 0
    requires StrictlyNewestFirst(dates) && AllBefore(dates, now.date)
    ensures DropClosePrices(CalculateReturns(t), false).labels
            == ["ticker", PriceLabel(now)] + Map(DatedReturnLabel, dates)
    ensures forall k :: 0 <= k < |t.rows| ==>
              DropClosePrices(CalculateReturns(t), false).rows[k] == t.rows[k][..2] + ReturnRow(t.rows[k])
  {
    var r := CalculateReturns(t);
    ReportLabelsKept(t, now, dates);
    CalculateReturnsLayout(t, now, dates);
    forall k | 0 <= k < |t.rows|
      ensures DropClosePrices(r, false).rows[k] == t.rows[k][..2] + ReturnRow(t.rows[k])
    {
      DropClosePricesRow(t, now, dates, k);
    }
  }

  /** One row of the report without close prices. */
  lemma DropClosePricesRow(t: Table, now: Clock, dates: seq<Date>, k: int)
    requires PriceSchema(t) && t.labels == PriceLabels(now, dates)
    requires StrictlyNewestFirst(dates) && AllBefore(dates, now.date)
    requires 0 <= k < |t.rows|
    ensures DropClosePrices(CalculateReturns(t), false).rows[k] == t.rows[k][..2] + ReturnRow(t.rows[k])
  {
    var r := CalculateReturns(t);
    var rs := Map(DatedReturnLabel, dates);
    var x, y := t.rows[k], ReturnRow(t.rows[k]);
    ReportLabelsKept(t, now, dates);
    CalculateReturnsLayout(t, now, dates);
    KeptRow(r, rs, x, y, k);
  }

  /** The paired labels rearrange labels that do not repeat, so they do not
      repeat either. */
  lemma PairedDistinct(a: Table, b: Table)
    requires |a.labels| == |b.labels| + 2 && Distinct(a.labels + b.labels)
    ensures Distinct(PairedLabels(a, b))
  {
    PairedPermutation(a.labels, b.labels);
    DistinctPermutation(a.labels + b.labels, PairedLabels(a, b));
  }

  /** A report row once its close columns are dropped: the first two cells,
      then the cells at the odd positions from 3 on. */
  lemma KeptRow(r: Table, rs: seq<string>, x: seq<Cell>, y: seq<Cell>, k: int)
    requires WellFormed(r) && Distinct(r.labels)
    requires |x| == |y| + 2 && |r.labels| == |x| + |y| && |rs| == |y|
    requires forall i :: 0 <= i < |rs| ==> rs[i] == r.labels[3 + 2 * i]
    requires 0 <= k < |r.rows| && r.rows[k] == x[..2] + Pairs(x[2..], y)
    ensures AllIn(r.labels[..2] + rs, r.labels)
    ensures Select(r, r.labels[..2] + rs).rows[k] == x[..2] + y
  {
    var kept := r.labels[..2] + rs;
    KeptAllIn(r, rs);
    forall j | 0 <= j < |kept|
      ensures Select(r, kept).rows[k][j] == (x[..2] + y)[j]
    {
      KeptCell(r, rs, x, y, k, j);
    }
  }

  lemma KeptAllIn(r: Table, rs: seq<string>)
    requires |r.labels| >= 2 + 2 * |rs|
    requires forall i :: 0 <= i < |rs| ==> rs[i] == r.labels[3 + 2 * i]
    ensures AllIn(r.labels[..2] + rs, r.labels)
  {
    var kept := r.labels[..2] + rs;
    forall j | 0 <= j < |kept|
      ensures kept[j] in r.labels
    {
      if j >= 2 {
        assert kept[j] == rs[j - 2];
      }
    }
  }

  /** One cell of a report row once its close columns are dropped. */
  lemma KeptCell(r: Table, rs: seq<string>, x: seq<Cell>, y: seq<Cell>, k: int, j: int)
    requires WellFormed(r) && Distinct(r.labels)
    requires |x| == |y| + 2 && |r.labels| == |x| + |y| && |rs| == |y|
    requires forall i :: 0 <= i < |rs| ==> rs[i] == r.labels[3 + 2 * i]
    requires AllIn(r.labels[..2] + rs, r.labels)
    requires 0 <= k < |r.rows| && r.rows[k] == x[..2] + Pairs(x[2..], y)
    requires 0 <= j < 2 + |rs|
    ensures Select(r, r.labels[..2] + rs).rows[k][j] == (x[..2] + y)[j]
  {
    var kept := r.labels[..2] + rs;
    if j < 2 {
      SelectDistinct(r, kept, k, j, j);
      assert r.rows[k][j] == x[..2][j];
    } else {
      KeptReturnCell(r, rs, x, y, k, j - 2);
    }
  }

  lemma KeptReturnCell(r: Table, rs: seq<string>, x: seq<Cell>, y: seq<Cell>, k: int, i: int)
    requires WellFormed(r) && Distinct(r.labels)
    requires |x| == |y| + 2 && |r.labels| == |x| + |y| && |rs| == |y|
    requires 0 <= i < |rs| && rs[i] == r.labels[3 + 2 * i]
    requires AllIn(r.labels[..2] + rs, r.labels)
    requires 0 <= k < |r.rows| && r.rows[k] == x[..2] + Pairs(x[2..], y)
    ensures Select(r, r.labels[..2] + rs).rows[k][2 + i] == y[i]
  {
    var kept := r.labels[..2] + rs;
    assert kept[2 + i] == r.labels[3 + 2 * i];
    SelectDistinct(r, kept, k, 2 + i, 3 + 2 * i);
    PairedAt(x, y, 3 + 2 * i);
    PairedIndexOdd(i, |x|);
  }

  /** The label at odd position `3 + 2 * i` of the paired labels is the
      second table's label `i`. */
  lemma PairedIndexOdd(i: nat, n: int)
    ensures PairedIndex(3 + 2 * i, n) == n + i
  {
    assert (3 + 2 * i - 2) % 2 == 1 && (3 + 2 * i - 2) / 2 == i;
  }
}
