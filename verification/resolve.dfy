/** `get_dates` (historical_stock_growth.py lines 58-70): every period becomes
    a calendar date counted back from today, and the dates are sorted most
    recent first. The clock is a parameter. */
module Resolve {
  import opened Wrappers
  import opened Text
  import opened Sequences
  import opened Dates

  /** `today - timedelta(days=n)` for each day count, in order (lines 62-63);
      `None` where one of them overflows. */
  function DaysBack(today: Date, days: seq<int>): (r: Option<seq<Date>>)
    ensures r.Some? <==> forall i :: 0 <= i < |days| ==> 1 <= Ordinal(today) - days[i] <= MaxOrdinal
    ensures r.Some? ==> |r.value| == |days|
    ensures r.Some? ==> forall i :: 0 <= i < |days| ==> Ordinal(r.value[i]) == Ordinal(today) - days[i]
  {
    if |days| == 0 then Some([])
    else
      match AddDays(today, -days[0])
      case None => None
      case Some(d) =>
        match DaysBack(today, days[1..])
        case None => None
        case Some(rest) => Some([d] + rest)
  }

  /** `today - relativedelta(years=n)` for each year count, in order (lines
      64-65); `None` where a target year leaves 1..9999. */
  function YearsBack(today: Date, years: seq<int>): (r: Option<seq<Date>>)
    ensures r.Some? <==> forall j :: 0 <= j < |years| ==> MinYear <= today.year - years[j] <= MaxYear
    ensures r.Some? ==> |r.value| == |years|
    ensures r.Some? ==> forall j :: 0 <= j < |years| ==> YearsEarlier(r.value[j], today, years[j])
  {
    if |years| == 0 then Some([])
    else
      match SubtractYears(today, years[0])
      case None => None
      case Some(d) =>
        match YearsBack(today, years[1..])
        case None => None
        case Some(rest) => Some([d] + rest)
  }

  /** The unsorted list built by lines 60-65: day periods first, then year periods. */
  function Candidates(today: Date, days: seq<int>, years: seq<int>): (r: Option<seq<Date>>)
    ensures r.Some? <==> DaysBack(today, days).Some? && YearsBack(today, years).Some?
    ensures r.Some? ==> r.value == DaysBack(today, days).value + YearsBack(today, years).value
  {
    match DaysBack(today, days)
    case None => None
    case Some(ds) =>
      match YearsBack(today, years)
      case None => None
      case Some(ys) => Some(ds + ys)
  }

  /* ---------------- most recent first ---------------- */

  /** No date is earlier than a date after it. */
  predicate NewestFirst(s: seq<Date>) {
    forall i, j :: 0 <= i < j < |s| ==> !Before(s[i], s[j])
  }

  function InsertNewest(x: Date, s: seq<Date>): (r: seq<Date>)
    requires NewestFirst(s)
    ensures multiset(r) == multiset(s) + multiset{x}
    ensures NewestFirst(r)
  {
    if |s| == 0 then [x]
    else if !Before(x, s[0]) then [x] + s
    else
      var r := InsertNewest(x, s[1..]);
      assert s == [s[0]] + s[1..];
      NotNewerThanHead(x, s, r);
      [s[0]] + r
  }

  lemma NotNewerThanHead(x: Date, s: seq<Date>, r: seq<Date>)
    requires NewestFirst(s) && |s| > 0 && Before(x, s[0])
    requires multiset(r) == multiset(s[1..]) + multiset{x}
    requires NewestFirst(r)
    ensures NewestFirst([s[0]] + r)
  {
    forall k | 0 <= k < |r|
      ensures !Before(s[0], r[k])
    {
      assert r[k] in multiset(r);
      if r[k] != x {
        assert r[k] in multiset(s[1..]);
        var m :| 0 <= m < |s[1..]| && s[1..][m] == r[k];
        assert s[m + 1] == r[k];
      }
    }
    forall i, j | 0 <= i < j < |[s[0]] + r|
      ensures !Before(([s[0]] + r)[i], ([s[0]] + r)[j])
    {
      if i == 0 {
        assert ([s[0]] + r)[j] == r[j - 1];
      } else {
        assert ([s[0]] + r)[j] == r[j - 1] && ([s[0]] + r)[i] == r[i - 1];
      }
    }
  }

  /** `dates.sort(reverse=True)` (line 68), here ordered by date. */
  function SortNewestFirst(s: seq<Date>): (r: seq<Date>)
    ensures multiset(r) == multiset(s)
    ensures NewestFirst(r)
  {
    if |s| == 0 then []
    else
      assert s == [s[0]] + s[1..];
      InsertNewest(s[0], SortNewestFirst(s[1..]))
  }

  /** `get_dates`: one date per period, `today - n days` for each day count
      and `today - n years` for each year count, most recent first; `None`
      where Python's date arithmetic raises because a date leaves 1..9999. */
  function ResolveDates(today: Date, days: seq<int>, years: seq<int>): (r: Option<seq<Date>>)
    ensures r.Some? <==> (forall i :: 0 <= i < |days| ==> 1 <= Ordinal(today) - days[i] <= MaxOrdinal)
                         && (forall j :: 0 <= j < |years| ==> MinYear <= today.year - years[j] <= MaxYear)
    ensures r.Some? ==> |r.value| == |days| + |years|
    ensures r.Some? ==> multiset(r.value) == multiset(Candidates(today, days, years).value)
    ensures r.Some? ==> NewestFirst(r.value)
  {
    var c := Candidates(today, days, years);
    if c.None? then None
    else
      var sorted := SortNewestFirst(c.value);
      assert |multiset(sorted)| == |multiset(c.value)|;
      Some(sorted)
  }

  /** Each candidate date is among the resolved dates. */
  lemma CandidateResolved(today: Date, days: seq<int>, years: seq<int>, k: int)
    requires ResolveDates(today, days, years).Some?
    requires 0 <= k < |days| + |years|
    ensures Candidates(today, days, years).Some?
    ensures |Candidates(today, days, years).value| == |days| + |years|
    ensures Candidates(today, days, years).value[k] in ResolveDates(today, days, years).value
  {
    var c := Candidates(today, days, years).value;
    var r := ResolveDates(today, days, years).value;
    PermutationLength(c, r);
    assert c[k] in multiset(c);
  }

  /** Every day period `n` contributes a date exactly `n` days before today. */
  lemma ResolveDatesDays(today: Date, days: seq<int>, years: seq<int>, i: int)
    requires ResolveDates(today, days, years).Some?
    requires 0 <= i < |days|
    ensures exists d :: d in ResolveDates(today, days, years).value && Ordinal(d) == Ordinal(today) - days[i]
  {
    CandidateResolved(today, days, years, i);
    var ds := DaysBack(today, days).value;
    assert Candidates(today, days, years).value[i] == ds[i];
  }

  /** Every year period `n` contributes the same month and day `n` calendar
      years before today (29 February clamped to the 28th). */
  lemma ResolveDatesYears(today: Date, days: seq<int>, years: seq<int>, j: int)
    requires ResolveDates(today, days, years).Some?
    requires 0 <= j < |years|
    ensures exists d :: d in ResolveDates(today, days, years).value && YearsEarlier(d, today, years[j])
  {
    CandidateResolved(today, days, years, |days| + j);
    var ys := YearsBack(today, years).value;
    assert Candidates(today, days, years).value[|days| + j] == ys[j];
  }

  /* ---------------- agreement with the string sort ---------------- */

  /** Permuting dates permutes their strings. */
  lemma FormatAllPermutation(s: seq<Date>, t: seq<Date>)
    requires multiset(s) == multiset(t)
    ensures multiset(FormatAll(s)) == multiset(FormatAll(t))
  {
    FormatAllIsMap(s);
    FormatAllIsMap(t);
    MapPermutation(Format, s, t);
  }

  lemma FormatAllIsMap(s: seq<Date>)
    ensures FormatAll(s) == Map(Format, s)
  {
  }

  /** Most recent first is also descending in `YYYY-MM-DD` string order. */
  lemma NewestFirstDescending(s: seq<Date>)
    requires NewestFirst(s)
    ensures Descending(FormatAll(s))
  {
    forall i, j | 0 <= i < j < |s|
      ensures !Less(FormatAll(s)[i], FormatAll(s)[j])
    {
      FormatLess(s[i], s[j]);
    }
  }

  /** The model sorts dates; the source sorts their strings. Both give the
      same list: the resolved dates, formatted, are exactly
      `sorted(strings, reverse=True)`. */
  lemma ResolveDatesMatchesStringSort(today: Date, days: seq<int>, years: seq<int>)
    requires ResolveDates(today, days, years).Some?
    ensures FormatAll(ResolveDates(today, days, years).value)
            == SortDescending(FormatAll(Candidates(today, days, years).value))
  {
    var r := ResolveDates(today, days, years).value;
    var c := Candidates(today, days, years).value;
    NewestFirstDescending(r);
    FormatAllPermutation(r, c);
    DescendingUnique(FormatAll(r), SortDescending(FormatAll(c)));
  }
}
