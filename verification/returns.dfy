/** `calculate_return`, `calculate_return_row` and `calculate_returns`
    (historical_stock_growth.py lines 142-174): a percentage-return column
    for every close column, then the columns rearranged so that each close is
    followed by its return. */
module Returns {
  import opened Wrappers
  import opened Text
  import opened Sequences
  import opened Dates
  import opened Tables
  import opened Prices

  /* ---------------- one return ---------------- */

  /** `(current_val - initial_val) / initial_val * 100`, with `NaN` (`None`)
      on either side giving `NaN`. A zero close is excluded: the division is
      unguarded. */
  function Return(current: Option<real>, initial: Option<real>): (r: Option<real>)
    requires initial != Some(0.0)
    ensures r.Some? <==> current.Some? && initial.Some?
    ensures r.Some? ==> initial.value + initial.value * r.value / 100.0 == current.value
  {
    if current.Some? && initial.Some? then
      Some((current.value - initial.value) / initial.value * 100.0)
    else None
  }

  /** From a positive close, the return is positive exactly when the price
      rose, zero when it is unchanged, and -100 when the price fell to zero. */
  lemma ReturnSign(current: real, initial: real)
    requires initial > 0.0
    ensures Return(Some(current), Some(initial)).value > 0.0 <==> current > initial
    ensures Return(Some(current), Some(initial)).value == 0.0 <==> current == initial
    ensures Return(Some(current), Some(initial)).value == -100.0 <==> current == 0.0
  {
    var r := Return(Some(current), Some(initial)).value;
    assert initial * r == 100.0 * (current - initial);
  }

  /** The return does not depend on the unit the prices are quoted in. */
  lemma ReturnScale(current: real, initial: real, unit: real)
    requires initial != 0.0 && unit != 0.0
    ensures Return(Some(unit * current), Some(unit * initial)) == Return(Some(current), Some(initial))
  {
    var a := Return(Some(unit * current), Some(unit * initial)).value;
    var b := Return(Some(current), Some(initial)).value;
    assert unit * initial * a == 100.0 * unit * (current - initial);
    assert initial * b == 100.0 * (current - initial);
    assert unit * (initial * a) == unit * (initial * b);
  }

  lemma ReturnExamples()
    ensures Return(Some(110.0), Some(100.0)) == Some(10.0)
    ensures Return(Some(90.0), Some(100.0)) == Some(-10.0)
    ensures Return(None, Some(100.0)) == None
    ensures Return(Some(90.0), None) == None
  {
  }

  /* ---------------- return columns ---------------- */

  /** `label.replace('close', 'return')` (line 166). */
  function ReturnLabel(l: string): string {
    ReplaceAll(l, "close", "return")
  }

  /** The return column of a date. */
  function DatedReturnLabel(d: Date): string {
    Format(d) + " return"
  }

  /** Renaming a close column names the return column of the same date:
      only the word `close` changes, because a formatted date contains no
      `c`. */
  lemma ReturnLabelOfClose(d: Date)
    ensures ReturnLabel(CloseLabel(d)) == DatedReturnLabel(d)
  {
    var a := Format(d) + " ";
    FormatCharacters(d);
    assert forall i :: 0 <= i < |a| ==> a[i] != "close"[0] by {
      forall i | 0 <= i < |a|
        ensures a[i] != 'c'
      {
        if i < |Format(d)| {
          assert a[i] == Format(d)[i];
        }
      }
    }
    ReplaceSuffix(a, "close", "return");
    assert CloseLabel(d) == a + "close";
    assert DatedReturnLabel(d) == a + "return";
  }

  lemma ReturnLabelsOfCloses(dates: seq<Date>)
    ensures Map(ReturnLabel, Map(CloseLabel, dates)) == Map(DatedReturnLabel, dates)
  {
    forall i | 0 <= i < |dates|
      ensures Map(ReturnLabel, Map(CloseLabel, dates))[i] == Map(DatedReturnLabel, dates)[i]
    {
      ReturnLabelOfClose(dates[i]);
    }
  }

  /** What `get_prices` hands on: a ticker column, then numeric columns (the
      live price, then closes), none of the closes zero. */
  predicate PriceSchema(t: Table) {
    && WellFormed(t)
    && |t.labels| >= 2
    && (forall k, j :: 0 <= k < |t.rows| && 1 <= j < |t.labels| ==> t.rows[k][j].Num?)
    && (forall k, j :: 0 <= k < |t.rows| && 2 <= j < |t.labels| ==> t.rows[k][j] != Num(Some(0.0)))
  }

  /** `calculate_return_row` (lines 160-169): the return of the row's price
      (position 1) over each of its closes (positions 2 onwards). */
  function ReturnRow(row: seq<Cell>): (r: seq<Cell>)
    requires |row| >= 2 && row[1].Num?
    requires forall j :: 2 <= j < |row| ==> row[j].Num? && row[j] != Num(Some(0.0))
    ensures |r| == |row| - 2
    ensures forall i :: 0 <= i < |r| ==> r[i].Num? && r[i].amount == Return(row[1].amount, row[i + 2].amount)
  {
    seq(|row| - 2, i requires 0 <= i < |row| - 2 => Num(Return(row[1].amount, row[i + 2].amount)))
  }

  /** `df.apply(calculate_return_row, axis=1)` (line 145): one return column
      per close column, labelled with `close` replaced by `return`. A table
      without rows takes pandas' empty-frame path instead, which hands back
      a copy of the table itself. */
  function ReturnsTable(t: Table): (r: Table)
    requires PriceSchema(t)
    ensures WellFormed(r)
    ensures |t.rows| > 0 ==> r.labels == Map(ReturnLabel, t.labels[2..])
    ensures |t.rows| == 0 ==> r == t
    ensures |r.rows| == |t.rows|
    ensures forall k, i :: 0 <= k < |t.rows| && 0 <= i < |r.labels| ==>
              r.rows[k][i] == Num(Return(t.rows[k][1].amount, t.rows[k][i + 2].amount))
  {
    if |t.rows| == 0 then t
    else
      Table(Map(ReturnLabel, t.labels[2..]),
            seq(|t.rows| , k requires 0 <= k < |t.rows| => ReturnRow(t.rows[k])))
  }

  /* ---------------- column order ---------------- */

  /** Lines 151-155: the first two labels, then `s[3::2]` and `s[2::2]`
      interleaved, which swaps each later pair of neighbours. An odd number
      of labels would leave `s[3::2]` one short and raise `IndexError`. */
  function Interleave(s: seq<string>): (r: seq<string>)
    requires |s| >= 2 && |s| % 2 == 0
    ensures r == s[..2] + SwapPairs(s[2..])
    ensures AllIn(r, s)
  {
    var returnCols := StepTwo(Drop(s, 2));
    var closeCols := StepTwo(Drop(s, 3));
    StridesSwap(s[2..]);
    assert Drop(s, 3) == Drop(s[2..], 1);
    var r := s[..2] + Pairs(closeCols, returnCols);
    assert AllIn(r, s) by {
      forall j | 0 <= j < |r|
        ensures r[j] in s
      {
        if j >= 2 {
          assert r[j] in SwapPairs(s[2..]) by {
            assert r[j] == SwapPairs(s[2..])[j - 2];
          }
          var k :| 0 <= k < |s[2..]| && s[2..][k] == r[j];
          assert s[k + 2] == r[j];
        }
      }
    }
    r
  }

  /** Swapping the neighbours twice restores the order. */
  lemma InterleaveTwice(s: seq<string>)
    requires |s| >= 2 && |s| % 2 == 0
    ensures Interleave(Interleave(s)) == s
  {
    var r := Interleave(s);
    assert r[2..] == SwapPairs(s[2..]);
    SwapPairsTwice(s[2..]);
    assert s == s[..2] + s[2..];
  }

  /** `calculate_returns` (lines 142-157): the price table and its return
      columns side by side, the columns sorted by label in descending string
      order, then each later pair of neighbours swapped. Without rows every
      column appears twice. */
  function CalculateReturns(t: Table): (r: Table)
    requires PriceSchema(t)
    ensures WellFormed(r) && |r.rows| == |t.rows|
    ensures |t.rows| > 0 ==> |r.labels| == 2 * |t.labels| - 2
    ensures |t.rows| == 0 ==> |r.labels| == 2 * |t.labels|
    ensures AllIn(r.labels, t.labels + ReturnsTable(t).labels)
  {
    var joined := Concat(t, ReturnsTable(t));
    var sorted := SortDescending(joined.labels);
    PermutationLength(sorted, joined.labels);
    PermutationAllIn(sorted, joined.labels);
    var order := Interleave(sorted);
    AllInTransitive(order, sorted, joined.labels);
    Select(Select(joined, sorted), order)
  }
}
