/** `get_prices` (historical_stock_growth.py lines 84-121): a table with one
    row per ticker holding the live price and the close on each report date.
    The market-data service and the wall clock are parameters. */
module Prices {
  import opened Wrappers
  import opened Text
  import opened Sequences
  import opened Dates
  import opened Tables

  type Hour = h: int | 0 <= h < 24
  type Minute = m: int | 0 <= m < 60

  /** The wall clock as `datetime.now()` reads it, to the minute. */
  datatype Clock = Clock(date: Date, hour: Hour, minute: Minute)

  /** The close the service reports for `ticker` over the one-day window
      from `start` up to, not including, `end` (both `YYYY-MM-DD`); `None`
      where it answers with no rows (line 103). */
  type History = (string, string, string) -> Option<real>

  /** The live price of a ticker (line 113). */
  type Quote = string -> real

  /** Line 89: `now.strftime('%Y-%m-%d %H:%M') + ' price'`. */
  function PriceLabel(now: Clock): string {
    Format(now.date) + " " + Pad(now.hour, 2) + ":" + Pad(now.minute, 2) + " price"
  }

  /** Line 118: `date + ' close'`. */
  function CloseLabel(d: Date): string {
    Format(d) + " close"
  }

  /** Line 87: the day after each date, which the service takes as the
      exclusive end of a one-day window; `None` where a date is
      9999-12-31 and `+ timedelta(days=1)` raises `OverflowError`. */
  function EndDates(dates: seq<Date>): (r: Option<seq<Date>>)
    ensures r.Some? <==> forall i :: 0 <= i < |dates| ==> dates[i] != MaxDate
    ensures r.Some? ==> |r.value| == |dates|
    ensures r.Some? ==> forall i :: 0 <= i < |dates| ==> Ordinal(r.value[i]) == Ordinal(dates[i]) + 1
  {
    if |dates| == 0 then Some([])
    else
      BeforeLastDay(dates[0]);
      match AddDays(dates[0], 1)
      case None => None
      case Some(e) =>
        match EndDates(dates[1..])
        case None => None
        case Some(rest) => Some([e] + rest)
  }

  /** The end of each window is the calendar day after its start. */
  lemma EndDatesFollow(dates: seq<Date>)
    requires EndDates(dates).Some?
    ensures forall i :: 0 <= i < |dates| ==> dates[i] != MaxDate && EndDates(dates).value[i] == NextDay(dates[i])
  {
    var ends := EndDates(dates).value;
    forall i | 0 <= i < |dates|
      ensures ends[i] == NextDay(dates[i])
    {
      OrdinalOrder(ends[i], NextDay(dates[i]));
    }
  }

  /** Lines 100-111 for one ticker: the close on each date, queried over
      that date's one-day window, `None` (`NaN`) where the service had no
      rows. */
  function Closes(ticker: string, dates: seq<Date>, ends: seq<Date>, history: History): (r: seq<Cell>)
    requires |ends| == |dates|
    ensures |r| == |dates|
    ensures forall i :: 0 <= i < |dates| ==> r[i] == Num(history(ticker, Format(dates[i]), Format(ends[i])))
  {
    if |dates| == 0 then []
    else [Num(history(ticker, Format(dates[0]), Format(ends[0])))] + Closes(ticker, dates[1..], ends[1..], history)
  }

  /** Lines 93-115: one row per ticker, in the order given, duplicates kept:
      the ticker, its live price, then its closes. */
  function PriceRows(tickers: seq<string>, dates: seq<Date>, ends: seq<Date>,
                     history: History, current: Quote): (rows: seq<seq<Cell>>)
    requires |ends| == |dates|
    ensures |rows| == |tickers|
    ensures forall k :: 0 <= k < |tickers| ==>
              rows[k] == [Str(tickers[k]), Num(Some(current(tickers[k])))] + Closes(tickers[k], dates, ends, history)
  {
    if |tickers| == 0 then []
    else
      [[Str(tickers[0]), Num(Some(current(tickers[0])))] + Closes(tickers[0], dates, ends, history)]
      + PriceRows(tickers[1..], dates, ends, history, current)
  }

  /** `get_prices(dates, tickers)`. The columns are `ticker`, the live-price
      label, then `<date> close` for each date in order; row `k` describes
      `tickers[k]`, and its close for date `i` is what the service reports
      for the window from that date to the next day. `None` where a date has
      no next day. */
  function GetPrices(dates: seq<Date>, tickers: seq<string>, now: Clock,
                     history: History, current: Quote): (r: Option<Table>)
    ensures r.Some? <==> forall i :: 0 <= i < |dates| ==> dates[i] != MaxDate
    ensures r.Some? ==> WellFormed(r.value)
    ensures r.Some? ==> r.value.labels == ["ticker", PriceLabel(now)] + Map(CloseLabel, dates)
    ensures r.Some? ==> |r.value.rows| == |tickers|
    ensures r.Some? ==> forall k :: 0 <= k < |tickers| ==>
              |r.value.rows[k]| == 2 + |dates|
              && r.value.rows[k][0] == Str(tickers[k])
              && r.value.rows[k][1] == Num(Some(current(tickers[k])))
    ensures r.Some? ==> forall k, i :: 0 <= k < |tickers| && 0 <= i < |dates| ==>
              r.value.rows[k][2 + i] == Num(history(tickers[k], Format(dates[i]), Format(NextDay(dates[i]))))
  {
    match EndDates(dates)
    case None => None
    case Some(ends) =>
      EndDatesFollow(dates);
      var labels := ["ticker", PriceLabel(now)] + Map(CloseLabel, dates);
      var rows := PriceRows(tickers, dates, ends, history, current);
      Some(Table(labels, rows))
  }
}
