/** `main` (historical_stock_growth.py lines 223-240) from the period
    arguments to the table that is written out: the periods are checked and
    parsed, turned into report dates, moved back to trading days, priced,
    turned into returns, and the close columns dropped unless asked for.
    Reading the ticker file and writing the CSV file are left to the caller;
    the clocks, the holiday calendar and the market-data service are
    parameters. */
module Pipeline {
  import opened Wrappers
  import opened Text
  import opened Sequences
  import opened Dates
  import opened Tables
  import opened Periods
  import opened Resolve
  import opened Trading
  import opened Prices
  import opened Returns
  import opened Layout
  import opened Report
  import opened Headers

  /** Why a run ends before anything is written: a rejected argument (lines
      37-40 and 50-51 exit), a period reaching outside years 1..9999 (the
      date arithmetic of `get_dates` raises), a walk back past 0001-01-01 in
      `check_dates`, a report date of 9999-12-31 that has no next day in
      `get_prices`, or a column label after the first that does not start
      with a date, on which `strptime` raises in `append_period_headers`
      (line 182). */
  datatype RunError = BadArgument(error: ArgError) | DateOutOfRange | NoTradingDay | NoNextDay | UndatedColumn

  /** The service never reports a close of exactly zero, so every return is
      defined. */
  ghost predicate NoZeroClose(history: History) {
    forall ticker, start, end :: history(ticker, start, end) != Some(0.0)
  }

  /** `get_dates` (lines 58-70) on parsed arguments: the calendar dates the
      periods name, newest first, before any is moved to a trading day;
      `None` when the arguments do not parse or a date is out of range. */
  function PeriodDates(periods: seq<string>, today: Date): Option<seq<Date>> {
    match ParsePeriods(periods)
    case Err(_) => None
    case Ok(lists) => ResolveDates(today, lists.days, lists.years)
  }

  /** Lines 37-51, then `get_dates` and `check_dates` (lines 227 and 234):
      the trading days the report is about, most recent first. */
  function ReportDates(periods: seq<string>, today: Date, holidays: set<Date>): (r: Result<seq<Date>, RunError>)
    ensures periods == [] ==> r == Err(BadArgument(MissingPeriods))
    ensures (exists i :: 0 <= i < |periods| && ParsePeriod(periods[i]).None?) ==> r.Err? && r.error.BadArgument?
    ensures r.Ok? ==> |r.value| == |periods| && periods != []
    ensures r.Ok? ==> NewestFirst(r.value)
    ensures r.Ok? ==> forall i :: 0 <= i < |r.value| ==> IsTradingDay(r.value[i], holidays)
    ensures r.Ok? ==> ParsePeriods(periods).Ok? && PeriodDates(periods, today).Some?
    ensures r.Ok? ==> forall i :: 0 <= i < |r.value| ==>
              LatestTradingDay(r.value[i], PeriodDates(periods, today).value[i], holidays)
    ensures r == Err(DateOutOfRange) <==>
              periods != [] && ParsePeriods(periods).Ok? && PeriodDates(periods, today).None?
    ensures r == Err(NoTradingDay) <==>
              && periods != [] && ParsePeriods(periods).Ok? && PeriodDates(periods, today).Some?
              && exists i :: 0 <= i < |PeriodDates(periods, today).value| &&
                             NoTradingDayBy(PeriodDates(periods, today).value[i], holidays)
  {
    if periods == [] then Err(BadArgument(MissingPeriods))
    else
      match ParsePeriods(periods)
      case Err(e) => Err(BadArgument(e))
      case Ok(lists) =>
        match ResolveDates(today, lists.days, lists.years)
        case None => Err(DateOutOfRange)
        case Some(ds) =>
          CorrectDatesFails(ds, holidays);
          match CorrectDates(ds, holidays)
          case None => Err(NoTradingDay)
          case Some(cs) =>
            CorrectDatesNewestFirst(ds, holidays);
            Ok(cs)
  }

  /** A day period `N` puts into the report the latest trading day on or
      before the date `N` days before today. */
  lemma ReportDatesDays(periods: seq<string>, today: Date, holidays: set<Date>, i: int)
    requires ReportDates(periods, today, holidays).Ok?
    requires 0 <= i < |periods| && !EndsWith(periods[i], "y")
    ensures ParsePeriod(periods[i]).Some?
    ensures exists k, d :: 0 <= k < |periods|
                           && Ordinal(d) == Ordinal(today) - ParsePeriod(periods[i]).value.count
                           && LatestTradingDay(ReportDates(periods, today, holidays).value[k], d, holidays)
  {
    var lists := ParsePeriods(periods).value;
    var ds := PeriodDates(periods, today).value;
    ParsePeriodsMember(periods, i);
    var n := ParsePeriod(periods[i]).value.count;
    var j :| 0 <= j < |lists.days| && lists.days[j] == n;
    ResolveDatesDays(today, lists.days, lists.years, j);
    var d :| d in ds && Ordinal(d) == Ordinal(today) - n;
    ReportDateOf(periods, today, holidays, d);
  }

  /** A year period `Ny` puts into the report the latest trading day on or
      before today's month and day `N` years back. */
  lemma ReportDatesYears(periods: seq<string>, today: Date, holidays: set<Date>, i: int)
    requires ReportDates(periods, today, holidays).Ok?
    requires 0 <= i < |periods| && EndsWith(periods[i], "y")
    ensures ParsePeriod(periods[i]).Some?
    ensures exists k, d :: 0 <= k < |periods|
                           && YearsEarlier(d, today, ParsePeriod(periods[i]).value.count)
                           && LatestTradingDay(ReportDates(periods, today, holidays).value[k], d, holidays)
  {
    var lists := ParsePeriods(periods).value;
    var ds := PeriodDates(periods, today).value;
    ParsePeriodsMember(periods, i);
    var n := ParsePeriod(periods[i]).value.count;
    var j :| 0 <= j < |lists.years| && lists.years[j] == n;
    ResolveDatesYears(today, lists.days, lists.years, j);
    var d :| d in ds && YearsEarlier(d, today, n);
    ReportDateOf(periods, today, holidays, d);
  }

  /** Every date the periods name has its trading day in the report. */
  lemma ReportDateOf(periods: seq<string>, today: Date, holidays: set<Date>, d: Date)
    requires ReportDates(periods, today, holidays).Ok?
    requires d in PeriodDates(periods, today).value
    ensures exists k :: 0 <= k < |periods| && LatestTradingDay(ReportDates(periods, today, holidays).value[k], d, holidays)
  {
    var ds := PeriodDates(periods, today).value;
    var k :| 0 <= k < |ds| && ds[k] == d;
    assert LatestTradingDay(ReportDates(periods, today, holidays).value[k], ds[k], holidays);
  }

  /** The table `get_prices` builds satisfies what `calculate_returns`
      needs of it. */
  lemma GetPricesSchema(dates: seq<Date>, tickers: seq<string>, now: Clock, history: History, current: Quote)
    requires NoZeroClose(history)
    requires GetPrices(dates, tickers, now, history, current).Some?
    ensures PriceSchema(GetPrices(dates, tickers, now, history, current).value)
  {
    var t := GetPrices(dates, tickers, now, history, current).value;
    forall k, j | 0 <= k < |t.rows| && 2 <= j < |t.labels|
      ensures t.rows[k][j].Num? && t.rows[k][j] != Num(Some(0.0))
    {
      assert t.rows[k][2 + (j - 2)] == Num(history(tickers[k], Format(dates[j - 2]), Format(NextDay(dates[j - 2]))));
    }
  }

  /** `main` without its file I/O: the table written to the CSV file, or why
      the run stops. */
  function Run(periods: seq<string>, tickers: seq<string>, includeClose: bool,
               today: Date, now: Clock, holidays: set<Date>,
               history: History, current: Quote): (r: Result<Table, RunError>)
    requires NoZeroClose(history)
    ensures periods == [] ==> r == Err(BadArgument(MissingPeriods))
    ensures ReportDates(periods, today, holidays).Err? ==> r == Err(ReportDates(periods, today, holidays).error)
    ensures ReportDates(periods, today, holidays).Ok? ==>
              (r.Ok? <==> tickers != [] &&
                          forall i :: 0 <= i < |periods| ==> ReportDates(periods, today, holidays).value[i] != MaxDate)
    ensures r.Err? && r.error == UndatedColumn ==> tickers == []
    ensures r.Err? ==> r.error != NoNextDay || ReportDates(periods, today, holidays).Ok?
    ensures r.Ok? ==> WellFormed(r.value) && |r.value.rows| == |tickers|
    ensures r.Ok? && includeClose ==> |r.value.labels| == 2 + 2 * |periods|
    ensures r.Ok? && !includeClose ==> forall j :: 0 <= j < |r.value.labels| ==> !EndsWith(r.value.labels[j], "close")
  {
    match ReportDates(periods, today, holidays)
    case Err(e) => Err(e)
    case Ok(dates) =>
      match GetPrices(dates, tickers, now, history, current)
      case None => Err(NoNextDay)
      case Some(t) =>
        GetPricesSchema(dates, tickers, now, history, current);
        PriceTableHeaders(t, now, dates);
        match AppendPeriodHeaders(CalculateReturns(t))
        case None => Err(UndatedColumn)
        case Some(dated) => Ok(DropClosePrices(dated, includeClose))
  }

  /* ---------------- what a run writes ---------------- */

  /** The row `get_prices` builds for one ticker: the ticker, its live
      price, and its close on each date. */
  function Fetched(ticker: string, dates: seq<Date>, history: History, current: Quote): (row: seq<Cell>)
    requires forall i :: 0 <= i < |dates| ==> dates[i] != MaxDate
    ensures |row| == 2 + |dates| && row[0] == Str(ticker) && row[1] == Num(Some(current(ticker)))
    ensures forall i :: 0 <= i < |dates| ==> row[2 + i] == Num(history(ticker, Format(dates[i]), Format(NextDay(dates[i]))))
    ensures forall j :: 2 <= j < |row| ==> row[j].Num?
    ensures NoZeroClose(history) ==> forall j :: 2 <= j < |row| ==> row[j] != Num(Some(0.0))
  {
    EndDatesFollow(dates);
    [Str(ticker), Num(Some(current(ticker)))] + Closes(ticker, dates, EndDates(dates).value, history)
  }

  /** A date older than another is not the last representable one. */
  lemma BeforeNotMax(dates: seq<Date>, day: Date)
    requires AllBefore(dates, day)
    ensures forall i :: 0 <= i < |dates| ==> dates[i] != MaxDate
  {
    forall i | 0 <= i < |dates|
      ensures dates[i] != MaxDate
    {
      OrdinalRange(day);
      OrdinalOrder(dates[i], day);
      OrdinalRange(dates[i]);
    }
  }

  /** `get_prices` on dates that all have a next day builds one `Fetched`
      row per ticker. */
  lemma GetPricesFetched(dates: seq<Date>, tickers: seq<string>, now: Clock, history: History, current: Quote)
    requires forall i :: 0 <= i < |dates| ==> dates[i] != MaxDate
    ensures GetPrices(dates, tickers, now, history, current).Some?
    ensures GetPrices(dates, tickers, now, history, current).value.labels == PriceLabels(now, dates)
    ensures forall k :: 0 <= k < |tickers| ==>
              GetPrices(dates, tickers, now, history, current).value.rows[k] == Fetched(tickers[k], dates, history, current)
  {
  }

  /** A run with tickers over dates that all have a next day writes the
      returns of the price table `get_prices` builds, with or without the
      closes. */
  lemma RunOk(periods: seq<string>, tickers: seq<string>, includeClose: bool, today: Date, now: Clock,
              holidays: set<Date>, history: History, current: Quote, dates: seq<Date>)
    requires NoZeroClose(history)
    requires ReportDates(periods, today, holidays) == Ok(dates)
    requires forall i :: 0 <= i < |dates| ==> dates[i] != MaxDate
    requires tickers != []
    ensures GetPrices(dates, tickers, now, history, current).Some?
    ensures PriceSchema(GetPrices(dates, tickers, now, history, current).value)
    ensures Run(periods, tickers, includeClose, today, now, holidays, history, current)
            == Ok(DropClosePrices(CalculateReturns(GetPrices(dates, tickers, now, history, current).value), includeClose))
  {
    var t := GetPrices(dates, tickers, now, history, current).value;
    GetPricesSchema(dates, tickers, now, history, current);
    ReportHeaders(t, now, dates);
  }

  /** A run over distinct report dates, all older than the day of the live
      price, that keeps the close prices: per ticker, its live price, then
      for each date, newest first, the close followed by the return from it
      to the live price. */
  lemma RunWithCloses(periods: seq<string>, tickers: seq<string>, today: Date, now: Clock,
                      holidays: set<Date>, history: History, current: Quote, dates: seq<Date>)
    requires NoZeroClose(history)
    requires ReportDates(periods, today, holidays) == Ok(dates)
    requires StrictlyNewestFirst(dates) && AllBefore(dates, now.date)
    requires tickers != []
    ensures forall i :: 0 <= i < |dates| ==> dates[i] != MaxDate
    ensures Run(periods, tickers, true, today, now, holidays, history, current).Ok?
    ensures Run(periods, tickers, true, today, now, holidays, history, current).value.labels == ReportLabels(now, dates)
    ensures forall k :: 0 <= k < |tickers| ==>
              Run(periods, tickers, true, today, now, holidays, history, current).value.rows[k]
              == ReportRow(Fetched(tickers[k], dates, history, current))
  {
    BeforeNotMax(dates, now.date);
    GetPricesFetched(dates, tickers, now, history, current);
    RunOk(periods, tickers, true, today, now, holidays, history, current, dates);
    var t := GetPrices(dates, tickers, now, history, current).value;
    CalculateReturnsLayout(t, now, dates);
  }

  /** The same run without close prices: per ticker, its live price, then
      the return over each period, newest date first. */
  lemma RunWithoutCloses(periods: seq<string>, tickers: seq<string>, today: Date, now: Clock,
                         holidays: set<Date>, history: History, current: Quote, dates: seq<Date>)
    requires NoZeroClose(history)
    requires ReportDates(periods, today, holidays) == Ok(dates)
    requires StrictlyNewestFirst(dates) && AllBefore(dates, now.date)
    requires tickers != []
    ensures forall i :: 0 <= i < |dates| ==> dates[i] != MaxDate
    ensures Run(periods, tickers, false, today, now, holidays, history, current).Ok?
    ensures Run(periods, tickers, false, today, now, holidays, history, current).value.labels
            == ["ticker", PriceLabel(now)] + Map(DatedReturnLabel, dates)
    ensures forall k :: 0 <= k < |tickers| ==>
              Run(periods, tickers, false, today, now, holidays, history, current).value.rows[k]
              == Fetched(tickers[k], dates, history, current)[..2] + ReturnRow(Fetched(tickers[k], dates, history, current))
  {
    BeforeNotMax(dates, now.date);
    GetPricesFetched(dates, tickers, now, history, current);
    RunOk(periods, tickers, false, today, now, holidays, history, current, dates);
    var t := GetPrices(dates, tickers, now, history, current).value;
    DropClosePricesLayout(t, now, dates);
  }

  /** A run over an empty ticker file stops at line 182: the report joins
      the price table to a copy of itself, and the second `ticker` label is
      not a date. */
  lemma RunWithoutTickers(periods: seq<string>, includeClose: bool, today: Date, now: Clock,
                          holidays: set<Date>, history: History, current: Quote, dates: seq<Date>)
    requires NoZeroClose(history)
    requires ReportDates(periods, today, holidays) == Ok(dates)
    requires forall i :: 0 <= i < |dates| ==> dates[i] != MaxDate
    ensures Run(periods, [], includeClose, today, now, holidays, history, current) == Err(UndatedColumn)
  {
    var t := GetPrices(dates, [], now, history, current).value;
    GetPricesSchema(dates, [], now, history, current);
    EmptyReportHeaders(t, now, dates);
  }

  /* ---------------- report dates before today ---------------- */

  /** Periods that are all positive (`30`, `2y`, not `0` or `-5`) give
      report dates strictly before today. */
  lemma PositivePeriodsBeforeToday(periods: seq<string>, today: Date, holidays: set<Date>)
    requires forall i :: 0 <= i < |periods| ==> ParsePeriod(periods[i]).Some? && ParsePeriod(periods[i]).value.count > 0
    requires ReportDates(periods, today, holidays).Ok?
    ensures AllBefore(ReportDates(periods, today, holidays).value, today)
  {
    var lists := ParsePeriods(periods).value;
    PositiveLists(periods);
    var ds := ResolveDates(today, lists.days, lists.years).value;
    ResolvedBeforeToday(today, lists.days, lists.years);
    var cs := CorrectDates(ds, holidays).value;
    forall i | 0 <= i < |cs|
      ensures Before(cs[i], today)
    {
      OrdinalOrder(ds[i], today);
      OrdinalOrder(cs[i], today);
    }
  }

  /** Positive period arguments give positive day and year counts. */
  lemma PositiveLists(periods: seq<string>)
    requires forall i :: 0 <= i < |periods| ==> ParsePeriod(periods[i]).Some? && ParsePeriod(periods[i]).value.count > 0
    ensures ParsePeriods(periods).Ok?
    ensures forall i :: 0 <= i < |ParsePeriods(periods).value.days| ==> ParsePeriods(periods).value.days[i] > 0
    ensures forall j :: 0 <= j < |ParsePeriods(periods).value.years| ==> ParsePeriods(periods).value.years[j] > 0
  {
    GatherPositive(periods, ParseEach(periods));
  }

  lemma {:induction false} GatherPositive(args: seq<string>, ps: seq<Option<Period>>)
    requires |ps| == |args|
    requires forall i :: 0 <= i < |ps| ==> ps[i].Some? && ps[i].value.count > 0
    ensures Gather(args, ps).Ok?
    ensures forall i :: 0 <= i < |Gather(args, ps).value.days| ==> Gather(args, ps).value.days[i] > 0
    ensures forall j :: 0 <= j < |Gather(args, ps).value.years| ==> Gather(args, ps).value.years[j] > 0
  {
    if |args| > 0 {
      GatherPositive(args[1..], ps[1..]);
      GatherCons(args, ps);
    }
  }

  /** Positive day and year counts resolve to dates before today. */
  lemma ResolvedBeforeToday(today: Date, days: seq<int>, years: seq<int>)
    requires forall i :: 0 <= i < |days| ==> days[i] > 0
    requires forall j :: 0 <= j < |years| ==> years[j] > 0
    requires ResolveDates(today, days, years).Some?
    ensures AllBefore(ResolveDates(today, days, years).value, today)
  {
    var r := ResolveDates(today, days, years).value;
    var c := Candidates(today, days, years).value;
    forall k | 0 <= k < |r|
      ensures Before(r[k], today)
    {
      assert r[k] in multiset(c) by {
        assert r[k] in multiset(r);
      }
      var m :| 0 <= m < |c| && c[m] == r[k];
      CandidateBeforeToday(today, days, years, m);
    }
  }

  lemma CandidateBeforeToday(today: Date, days: seq<int>, years: seq<int>, m: int)
    requires forall i :: 0 <= i < |days| ==> days[i] > 0
    requires forall j :: 0 <= j < |years| ==> years[j] > 0
    requires Candidates(today, days, years).Some?
    requires 0 <= m < |Candidates(today, days, years).value|
    ensures Before(Candidates(today, days, years).value[m], today)
  {
    var c := Candidates(today, days, years).value;
    if m < |days| {
      assert c[m] == DaysBack(today, days).value[m];
    } else {
      var ys := YearsBack(today, years).value;
      assert c[m] == ys[m - |days|];
      SubtractYearsEarlier(today, years[m - |days|]);
    }
    OrdinalOrder(c[m], today);
  }
}
