# historical_stock_growth, modelled in Dafny

`historical_stock_growth.py` reports how much each stock in a list has grown
over a set of look-back periods. The periods are given as day counts (`30`)
or year counts (`2y`). The script does the following:

1. It turns every period into a calendar date counted back from today, with
   dates sorted newest first.
2. It moves each date that falls on a weekend or a market holiday back to
   the previous trading day.
3. It asks the market-data service for each ticker's close on each date and
   for its live price.
4. It computes the percentage return from every close to the live price.
5. It lays the columns out as `ticker`, the live price, then a close and its
   return per date.
6. It reads a date from the start of every column label after the first.
   The period headers it works out from them are discarded, but a label
   that does not start with a date stops the run.
7. It drops the close columns unless they were asked for.

This project models that pipeline as pure functions over immutable data, and
proves what each step promises.

| module | file | models |
|---|---|---|
| `Wrappers` | wrappers.dfy | `Option` for Python's `None`/`NaN`, `Result` for a step that raises |
| `Sequences` | sequences.dfy | `Map`, `Drop`, `Distinct` and multiset facts |
| `Text` | text.dfy | Python's string order, zero-padded numbers, `sorted(reverse=True)`, `endswith`, `replace` |
| `Dates` | dates.dfy | `datetime.date`: ordinals, weekdays, `timedelta` days, `relativedelta` years, `strftime('%Y-%m-%d')` |
| `Periods` | periods.dfy | lines 42-51: `int()` on a period argument and the day and year lists |
| `Resolve` | resolve.dfy | `get_dates`, lines 58-70 |
| `Trading` | trading.dfy | `check_dates`, lines 125-139 |
| `Tables` | tables.dfy | the pandas operations used: select columns by label, `concat`, strided slices, interleaving |
| `Prices` | prices.dfy | `get_prices`, lines 84-121 |
| `Returns` | returns.dfy | `calculate_return`, `calculate_return_row`, `calculate_returns`, lines 142-174 |
| `Layout` | layout.dfy | the column order `calculate_returns` produces for the table `get_prices` builds |
| `Headers` | headers.dfy | `append_period_headers`, lines 177-201: the date read from each label |
| `Report` | report.dfy | `drop_close_prices`, lines 205-212 |
| `Pipeline` | pipeline.dfy | `main`, lines 223-240, without its file I/O |

The following are parameters rather than computed:

- **Clocks:** `datetime.today()` becomes `today: Date` and `datetime.now()`
  becomes `now: Clock`.
- **Holiday calendar:** `set<Date>`.
- **Market-data service:** `History` is a function
  `(ticker, start, end) -> Option<real>`, where `None` means the service
  returned no rows. `Quote` is a function `ticker -> real` for the live
  price.
- **Ticker list:** already read from its file.

Prices are `real` numbers. Python's `NaN` is `None`.

Some consequences of the code that are easy to miss, and that the model
keeps:

- A year argument with a malformed count (`xy`) is rejected as well as a
  malformed day count, because `int(period[:-1])` raises just as
  `int(period)` does.
- The program does not remove duplicate dates. Two periods that land on the
  same day give two equal dates and two columns with the same label.
- An empty ticker list stops the run. `calculate_returns` then joins the
  price table to a copy of itself, so `ticker` is also the second label,
  and line 182 cannot read a date from it.
- A period count of more than 4300 digits is rejected, because `int()`
  refuses such strings from Python 3.11 on.

## Model

| member | source | states |
|---|---|---|
| `Periods.ParsePeriod` | historical_stock_growth.py:44-51 | a parsed argument is a year count exactly when it ends in `y` |
| `Periods.ParseShow` | historical_stock_growth.py:47-49 | `Periods.ParseInt`, the model of `int()`, reads back every integer of at most 4300 digits written in decimal, negative ones included |
| `Periods.ParseRejectsLongCount` | historical_stock_growth.py:47-49 | a count of more than 4300 digits makes `int()` fail |
| `Periods.ParseRejectsStrayCharacter` | historical_stock_growth.py:45-51 | a character other than a digit, one of the six white-space characters `int()` skips, a sign or `_` anywhere in the argument makes `int()` fail |
| `Periods.ParsePeriodShow` | historical_stock_growth.py:46-49 | every day or year period written as `N` or `Ny` is classified back as that period |
| `Periods.ParsePeriods` | historical_stock_growth.py:42-51 | the lists are built exactly when every argument parses, and together they hold one period per argument; otherwise the error names the first argument that fails |
| `Periods.ParsePeriodsSingle` | historical_stock_growth.py:46-49 | one argument goes to the year list when it ends in `y`, to the day list otherwise, and an unparsable one is the error |
| `Periods.ParsePeriodsMember` | historical_stock_growth.py:45-49 | each argument's count is in the year list when the argument ends in `y`, and in the day list otherwise |
| `Periods.ParsePeriodsAppend` | historical_stock_growth.py:42-51 | parsing distributes over concatenation of the arguments, so each list keeps command-line order |
| `Dates.AddDays` | historical_stock_growth.py:63 | `d - timedelta(days=n)` is the date whose ordinal differs by exactly `n`, and fails exactly when that leaves 0001-01-01..9999-12-31 |
| `Dates.SubtractYears` | historical_stock_growth.py:65 | `relativedelta(years=n)` keeps month and day, clamping 29 February to the 28th in a common year, and fails exactly when the year leaves 1..9999 |
| `Dates.SubtractYearsEarlier` | historical_stock_growth.py:64-65 | a positive year count lands strictly earlier |
| `Dates.NextDay` | historical_stock_growth.py:87 | the day after has the next ordinal |
| `Dates.PrevDay` | historical_stock_growth.py:134 | `- timedelta(days=1)` gives the date with the previous ordinal |
| `Dates.OrdinalOrder` | historical_stock_growth.py:58-70 | ordinal numbering is chronological order and is one-to-one |
| `Dates.FormatLess` | historical_stock_growth.py:67-68 | `YYYY-MM-DD` strings compare as the dates do |
| `Dates.FormatOrder` | historical_stock_growth.py:67-68 | string order on formatted dates is ordinal order, and formatting is one-to-one |
| `Dates.Format` | historical_stock_growth.py:67 | `strftime('%Y-%m-%d')`, also used at lines 87 and 134, writes ten characters starting with a digit; `Dates.FormatOrder` and `Dates.ParseDateFormat` state what the string means |
| `Dates.FormatCharacters` | historical_stock_growth.py:67 | a formatted date holds only digits and dashes |
| `Dates.ParseDate` | historical_stock_growth.py:182 | `strptime(..., '%Y-%m-%d')`: any date it reads is written back as the same string |
| `Dates.ParseDateFormat` | historical_stock_growth.py:182 | `strptime(..., '%Y-%m-%d')` reads a string as a date exactly when the string is that date's `YYYY-MM-DD` form |
| `Resolve.DaysBack` | historical_stock_growth.py:62-63 | each day period `n` gives the date `n` days before today, in order, failing exactly when one is out of range |
| `Resolve.YearsBack` | historical_stock_growth.py:64-65 | each year period `n` gives today's month and day `n` years earlier, failing exactly when a year is out of range |
| `Resolve.ResolveDates` | historical_stock_growth.py:58-70 | one date per period, a rearrangement of the day dates followed by the year dates, newest first, and failure exactly when a period reaches out of range |
| `Resolve.ResolveDatesDays` | historical_stock_growth.py:62-63 | every day period contributes a date exactly that many days before today |
| `Resolve.ResolveDatesYears` | historical_stock_growth.py:64-65 | every year period contributes today's date that many calendar years back |
| `Resolve.ResolveDatesMatchesStringSort` | historical_stock_growth.py:67-68 | sorting the dates newest first gives the same list as sorting their strings in reverse, as line 68 does |
| `Trading.MinDateMonday` | historical_stock_growth.py:132 | `Dates.Weekday`, the model of `weekday()`, gives Monday (0) for 0001-01-01, as Python does |
| `Trading.WeekdayStep` | historical_stock_growth.py:132-134 | the day before has the previous weekday, Sunday before Monday |
| `Trading.CorrectDate` | historical_stock_growth.py:132-135 | the walk ends on the latest trading day on or before the date, or fails when there is none; `Trading.IsTradingDay` is the loop's exit test at line 132, a weekday 0-4 not in the holiday list |
| `Trading.CorrectDates` | historical_stock_growth.py:130-137 | the list keeps its length and positions, and each date becomes the latest trading day on or before it |
| `Trading.CorrectTradingDay` | historical_stock_growth.py:132 | a trading day is left unchanged |
| `Trading.CorrectDateFindsLatest` | historical_stock_growth.py:132-135 | whenever a day is the latest trading day on or before a date, the walk finds exactly that day |
| `Trading.CorrectDatesIdempotent` | historical_stock_growth.py:125-139 | correcting twice gives the same dates as correcting once |
| `Trading.CorrectDateMonotone` | historical_stock_growth.py:132-135 | a later date is never corrected to an earlier day than an earlier date |
| `Trading.CorrectDatesNewestFirst` | historical_stock_growth.py:125-139 | dates sorted newest first stay sorted after correction |
| `Trading.CorrectDatesFails` | historical_stock_growth.py:130-137 | correcting a list fails exactly when some date has no trading day on or before it |
| `Trading.CorrectDateStep` | historical_stock_growth.py:132-135 | a non-trading day is corrected as the day before it is |
| `Trading.SaturdayToFriday` | historical_stock_growth.py:132-135 | a Saturday whose Friday is not a holiday becomes that Friday |
| `Trading.HolidayExample` | historical_stock_growth.py:127-135 | with Monday 2023-01-02 a holiday, that day walks back over the weekend to Friday 2022-12-30 |
| `Prices.EndDates` | historical_stock_growth.py:87 | each end date is the next day, and the step fails exactly when a date is 9999-12-31 |
| `Prices.EndDatesFollow` | historical_stock_growth.py:87 | each query window runs from a date to the day after it |
| `Prices.Closes` | historical_stock_growth.py:100-111 | one close per date, each what the service reports for that date's window, `NaN` where it had none |
| `Prices.PriceRows` | historical_stock_growth.py:93-115 | one row per ticker in input order, duplicates kept: the ticker, its live price, its closes |
| `Prices.GetPrices` | historical_stock_growth.py:84-121 | labels `ticker`, the live-price label, then `<date> close` per date; each row's cells are the ticker, its live price, and the close from the window after each date; fails exactly on 9999-12-31 |
| `Returns.Return` | historical_stock_growth.py:172-174 | a return exists exactly when both prices do, and growing the close by that percentage gives the live price |
| `Returns.ReturnSign` | historical_stock_growth.py:172-174 | from a positive close, the return is positive when the price rose, zero when unchanged, and -100 when it fell to zero |
| `Returns.ReturnScale` | historical_stock_growth.py:172-174 | the return does not depend on the currency unit |
| `Returns.ReturnExamples` | historical_stock_growth.py:172-174 | 110 over 100 gives 10, 90 over 100 gives -10, and a missing price gives a missing return |
| `Returns.ReturnLabelOfClose` | historical_stock_growth.py:166 | replacing `close` by `return` in `<date> close` gives `<date> return` |
| `Returns.ReturnRow` | historical_stock_growth.py:160-169 | one return per close, each from that close to the row's live price |
| `Returns.ReturnsTable` | historical_stock_growth.py:145 | one return column per close column, labelled with `close` replaced by `return`, each cell the return of that row's close; a table without rows comes back as it is, as pandas' `apply` does for an empty frame |
| `Returns.Interleave` | historical_stock_growth.py:151-155 | the first two labels stay, and each later neighbouring pair is swapped |
| `Returns.InterleaveTwice` | historical_stock_growth.py:151-155 | rearranging twice restores the order |
| `Returns.CalculateReturns` | historical_stock_growth.py:142-157 | one row per input row; with rows, twice the close columns plus two, and without rows every column twice; every column from the prices or their returns |
| `Layout.CloseBelowReturn` | historical_stock_growth.py:148 | in descending order a date's return column comes before its close column |
| `Layout.OlderReturnBelowClose` | historical_stock_growth.py:148 | the columns of an older date come after those of a newer one |
| `Layout.OlderReturnBelowPrice` | historical_stock_growth.py:148 | columns of a date before the live price's day come after the live-price column |
| `Layout.SortJoinedLabels` | historical_stock_growth.py:148 | sorting the labels gives `ticker`, the live price, then each date's return and close, newest date first, with no label repeated |
| `Layout.InterleaveSortedLabels` | historical_stock_growth.py:151-155 | swapping the neighbours of that order puts each close before its return |
| `Layout.CalculateReturnsLabels` | historical_stock_growth.py:142-157 | for distinct dates before the live price, the result selects the close-return pairs from the joined table |
| `Layout.CalculateReturnsLayout` | historical_stock_growth.py:142-157 | for distinct dates before the live price, the columns are ticker, live price, then each date's close followed by its return, newest first, and each row carries the returns of its own closes |
| `Headers.PriceLabelDated` | historical_stock_growth.py:89 | `Prices.PriceLabel`, the live-price label, starts with the date of the clock |
| `Headers.CloseLabelDated` | historical_stock_growth.py:118 | `Prices.CloseLabel`, a close label, starts with the date it is the close of |
| `Headers.DatedLabel` | historical_stock_growth.py:182 | a label that starts with a date's `YYYY-MM-DD` form yields that date, whatever follows |
| `Headers.TickerFirst` | historical_stock_growth.py:148 | the reverse sort puts `ticker` above every label that starts with a date |
| `Headers.ReportHeaders` | historical_stock_growth.py:177-201 | for a price table with at least one row, every label after `ticker` starts with a date, so the step hands the table back unchanged |
| `Headers.EmptyReportHeaders` | historical_stock_growth.py:177-201 | for a price table without rows, the first two labels are both `ticker` and the step fails |
| `Headers.PriceTableHeaders` | historical_stock_growth.py:177-201 | `Headers.AppendPeriodHeaders` succeeds exactly when the price table has a row, and then returns the table unchanged |
| `Report.KeptLabels` | historical_stock_growth.py:209 | no kept label ends in `close`, every other label is kept, and nothing is added |
| `Report.KeptLabelsAppend` | historical_stock_growth.py:209 | filtering distributes over concatenation, so kept labels keep their order |
| `Report.DropClosePrices` | historical_stock_growth.py:205-212 | with the flag set the table is unchanged; otherwise no column ending in `close` is left, every other column is, in their original order and number (the kept labels are the filtered labels, which `Report.KeptLabelsAppend` shows keep order), and each kept cell is the original one |
| `Report.DropClosePricesTwice` | historical_stock_growth.py:205-212 | dropping the close columns again changes nothing |
| `Report.KeptReportLabels` | historical_stock_growth.py:209 | from the report's columns only the ticker, the live price and the returns survive, in order |
| `Report.DropClosePricesLayout` | historical_stock_growth.py:205-212 | for distinct dates before the live price, the report without closes has the ticker, the live price, then one return per date, newest first, each row with its own returns |
| `Pipeline.ReportDates` | historical_stock_growth.py:223-234 | no periods, or any malformed period, is an argument error; a successful result has one trading day per period, newest first, each the latest trading day on or before the date `get_dates` puts at that position; it fails with `DateOutOfRange` exactly when a period reaches out of range, and with `NoTradingDay` exactly when a date has no trading day on or before it |
| `Pipeline.ReportDatesDays` | historical_stock_growth.py:46-70 | a day period `N` puts into the report the latest trading day on or before the date `N` days before today |
| `Pipeline.ReportDatesYears` | historical_stock_growth.py:46-70 | a year period `Ny` puts into the report the latest trading day on or before today's month and day `N` years back |
| `Pipeline.Run` | historical_stock_growth.py:223-238 | the run fails exactly as the date steps fail, on 9999-12-31, or on an empty ticker list; a finished run has one row per ticker and, without the flag, no close column |
| `Pipeline.RunOk` | historical_stock_growth.py:223-238 | with at least one ticker and dates that all have a next day, the run writes the returns table of the price table, with or without its closes |
| `Pipeline.RunWithoutTickers` | historical_stock_growth.py:223-238 | an empty ticker list stops the run at line 182, with or without the flag |
| `Pipeline.GetPricesFetched` | historical_stock_growth.py:84-121 | when every date has a next day, each ticker's row is its live price and its closes |
| `Pipeline.RunWithCloses` | historical_stock_growth.py:223-238 | for distinct report dates before the live price, the report keeps each close followed by its return, per ticker, newest date first |
| `Pipeline.RunWithoutCloses` | historical_stock_growth.py:223-238 | for such dates without the flag, the report has, per ticker, its live price and the return over each period, newest date first |
| `Pipeline.PositivePeriodsBeforeToday` | historical_stock_growth.py:42-70 | positive day and year periods give report dates strictly before today |
| `Tables.Concat` | historical_stock_growth.py:148 | `pd.concat(axis=1)`: the labels of the first table followed by the second's, and each row the first table's row followed by the second's |
| `Tables.Select` | historical_stock_growth.py:155 | `df[cols]` keeps the rows and takes each named column's cells |
| `Tables.SelectSelect` | historical_stock_growth.py:155 | selecting twice is selecting once with the second list of names |
| `Tables.StridesSwap` | historical_stock_growth.py:151-154 | interleaving `s[3::2]` with `s[2::2]` swaps each neighbouring pair |
| `Tables.SwapPairsTwice` | historical_stock_growth.py:151-154 | swapping each pair twice restores the sequence |
| `Tables.PairsMultiset` | historical_stock_growth.py:154 | interleaving two lists rearranges their elements without loss |
| `Text.SortDescending` | historical_stock_growth.py:68 | `sort(reverse=True)` rearranges its input into descending string order |
| `Text.SortStrictlyDescending` | historical_stock_growth.py:148 | a list with no repeats has only one descending arrangement |
| `Text.LessAppend` | historical_stock_growth.py:148 | labels whose first parts have equal length compare by first part, then by the rest |
| `Text.ReplaceSuffix` | historical_stock_growth.py:166 | when no character before a trailing word is that word's first letter, `Text.ReplaceAll`, the model of `replace`, changes only the trailing word |
| `Text.PadOrder` | historical_stock_growth.py:67 | zero-padded numbers of one width compare as strings as they do as numbers |

## Left out

- Argument parsing with argparse, the check that the ticker file exists, and
  the `include_close_prices` conversion (lines 17-40, 53). Only the empty
  period list (lines 37-40) and the period loop are modelled. The flag is a
  `bool`.
- Reading the ticker file and writing the CSV file (lines 73-81, 215-220).
  Both are file I/O.
- All `print` output, including the diagnostic Yahoo URL and its timestamps
  (lines 106-109).
- The market-data library and the holiday calendar library (lines 96-113,
  127-128). Their internals are not visible, so they are parameters.
- `Prices.GetPrices`: the live-price lookup is a total function. When the
  service does not know a ticker, the lookup raises and ends the run. That
  failure is not modelled.
- `Headers.AppendPeriodHeaders`: the period headers of lines 184-197 are
  not modelled. The code discards them, and line 201 returns the table it
  was given. Only the date parsing at line 182, which can fail, is kept.
- `Resolve.DaysBack`, `Resolve.YearsBack`: `today` is read once. The code
  calls `datetime.today()` anew for every period (lines 63, 65), so a run
  across midnight could mix two days.
- `Returns.Return` requires a nonzero close. The division at line 174 is
  unguarded; in floating point a zero close gives an infinite value or
  `NaN`, which `real` does not have. `Pipeline.Run` therefore requires that
  the service never reports a zero close.
- Floating-point rounding. Prices and returns are exact reals.
- `Periods.ParsePeriod`, `Periods.ParseRejectsStrayCharacter`: `int()` also
  accepts non-ASCII decimal digits and non-ASCII white space. The model
  recognises only the digits 0-9 and the six ASCII white-space characters
  `int()` skips (tab, line feed, vertical tab, form feed, carriage return,
  space). It rejects every other character, including the non-ASCII
  characters that `int()` accepts.
- `Dates.ParseDate`: `strptime` also accepts forms without zero padding,
  such as `2023-1-5`. The model reads only `YYYY-MM-DD`. Every label the
  program builds has that form.
- Years before 1000. `Dates.Format` always writes four digits, whereas the C
  library's `strftime` may not pad them.
- `Tables.Select`, `Report.DropClosePrices`: with duplicate labels, pandas
  selects every column that carries a repeated label, and `Tables.Select`
  takes the first one. The difference shows only when two report dates
  coincide, or when the ticker list is empty. With no tickers, pandas would
  give every column four times, not twice as `Returns.CalculateReturns`
  states. The run fails at line 182 either way.
- `Layout.CalculateReturnsLabels`, `Layout.CalculateReturnsLayout`,
  `Report.ReportLabelsKept`, `Report.DropClosePricesLayout`,
  `Pipeline.RunWithCloses` and `Pipeline.RunWithoutCloses` are stated for at
  least one ticker. With none, the run fails at line 182
  (`Headers.EmptyReportHeaders`, `Pipeline.RunWithoutTickers`).
- The same lemmas also assume that the report dates are strictly newest
  first and all before the live price's day. When two periods land on the
  same trading day, the labels repeat. A report date falls on or after the
  live price's day in three cases. The first is a 0 period when today is a
  trading day. The second is a negative period whose date is still on or
  after today once moved back to a trading day. The third is a run where
  `today` and the day of `now` differ. Then the sort places that date's
  return label above the live-price column, and the layout is different.
  `Pipeline.PositivePeriodsBeforeToday` gives this second condition when
  every period is positive and `today` is the day of `now`.
- `Returns.CalculateReturns`: in general its contract only bounds the
  columns. The exact layout is the separate lemma
  `Layout.CalculateReturnsLayout`, under the conditions above.
- `Pipeline.Run`: in general its contract does not state the exact columns.
  The exact layout is in `Pipeline.RunWithCloses` and
  `Pipeline.RunWithoutCloses`.
