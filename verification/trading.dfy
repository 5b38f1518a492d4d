/** `check_dates` (historical_stock_growth.py lines 124-139): every date that
    falls on a weekend or a market holiday is moved back to the closest
    earlier trading day. The exchange's holiday calendar is a parameter. */
module Trading {
  import opened Wrappers
  import opened Dates
  import Resolve

  /** The negation of line 132's loop condition: Monday to Friday
      (`weekday() <= 4`) and not a market holiday. */
  predicate IsTradingDay(d: Date, holidays: set<Date>) {
    Weekday(d) <= 4 && d !in holidays
  }

  /** `r` is the latest trading day on or before `d`. */
  ghost predicate LatestTradingDay(r: Date, d: Date, holidays: set<Date>) {
    && IsTradingDay(r, holidays)
    && Ordinal(r) <= Ordinal(d)
    && forall e: Date :: Ordinal(r) < Ordinal(e) <= Ordinal(d) ==> !IsTradingDay(e, holidays)
  }

  /** No day from 0001-01-01 up to `d` is a trading day. */
  ghost predicate NoTradingDayBy(d: Date, holidays: set<Date>) {
    forall e: Date :: Ordinal(e) <= Ordinal(d) ==> !IsTradingDay(e, holidays)
  }

  lemma NothingBeforeMinDate()
    ensures forall e: Date :: Ordinal(e) <= 1 ==> e == MinDate
  {
    forall e: Date | Ordinal(e) <= 1
      ensures e == MinDate
    {
      OrdinalRange(e);
    }
  }

  /** The `while` loop of lines 132-135 for one date: step back one day at a
      time while the day is a weekend day or a holiday. `None` where the walk
      would step before 0001-01-01 and Python raises `OverflowError`. */
  function CorrectDate(d: Date, holidays: set<Date>): (r: Option<Date>)
    ensures r.Some? ==> LatestTradingDay(r.value, d, holidays)
    ensures r.None? ==> NoTradingDayBy(d, holidays)
    decreases Ordinal(d)
  {
    OrdinalPositive(d);
    if IsTradingDay(d, holidays) then
      TradingDayIsLatest(d, holidays);
      Some(d)
    else if d == MinDate then
      NoTradingDayByMinDate(holidays);
      None
    else
      var r := CorrectDate(PrevDay(d), holidays);
      StepBack(d, r, holidays);
      r
  }

  lemma OrdinalPositive(d: Date)
    ensures 0 < Ordinal(d)
  {
    OrdinalRange(d);
  }

  lemma TradingDayIsLatest(d: Date, holidays: set<Date>)
    requires IsTradingDay(d, holidays)
    ensures LatestTradingDay(d, d, holidays)
  {
  }

  lemma NoTradingDayByMinDate(holidays: set<Date>)
    requires !IsTradingDay(MinDate, holidays)
    ensures NoTradingDayBy(MinDate, holidays)
  {
    NothingBeforeMinDate();
  }

  /** One step of the walk: a non-trading day has the same latest trading
      day as the day before it. */
  lemma StepBack(d: Date, r: Option<Date>, holidays: set<Date>)
    requires d != MinDate && !IsTradingDay(d, holidays)
    requires r.Some? ==> LatestTradingDay(r.value, PrevDay(d), holidays)
    requires r.None? ==> NoTradingDayBy(PrevDay(d), holidays)
    ensures r.Some? ==> LatestTradingDay(r.value, d, holidays)
    ensures r.None? ==> NoTradingDayBy(d, holidays)
  {
    var p := PrevDay(d);
    forall e: Date | Ordinal(e) == Ordinal(d)
      ensures !IsTradingDay(e, holidays)
    {
      OrdinalOrder(e, d);
    }
  }

  /** Lines 130-137: every date corrected in place, list order kept; the
      first overflow ends the run. */
  function CorrectDates(ds: seq<Date>, holidays: set<Date>): (r: Option<seq<Date>>)
    ensures r.Some? ==> |r.value| == |ds|
    ensures r.Some? ==> forall i :: 0 <= i < |ds| ==> LatestTradingDay(r.value[i], ds[i], holidays)
    ensures r.None? ==> exists i :: 0 <= i < |ds| && NoTradingDayBy(ds[i], holidays)
  {
    if |ds| == 0 then Some([])
    else
      match CorrectDate(ds[0], holidays)
      case None => None
      case Some(d) =>
        match CorrectDates(ds[1..], holidays)
        case None => None
        case Some(rest) => Some([d] + rest)
  }

  /* ---------------- properties ---------------- */

  /** There is only one latest trading day on or before a date. */
  lemma LatestTradingDayUnique(r1: Date, r2: Date, d: Date, holidays: set<Date>)
    requires LatestTradingDay(r1, d, holidays) && LatestTradingDay(r2, d, holidays)
    ensures r1 == r2
  {
    OrdinalInjective();
  }

  /** A trading day is left where it is. */
  /** The walk over a list fails exactly when some date has no trading day
      on or before it. */
  lemma CorrectDatesFails(ds: seq<Date>, holidays: set<Date>)
    ensures CorrectDates(ds, holidays).None? <==> exists i :: 0 <= i < |ds| && NoTradingDayBy(ds[i], holidays)
  {
    var r := CorrectDates(ds, holidays);
    if r.Some? {
      forall i | 0 <= i < |ds|
        ensures !NoTradingDayBy(ds[i], holidays)
      {
        assert LatestTradingDay(r.value[i], ds[i], holidays);
        assert IsTradingDay(r.value[i], holidays);
      }
    }
  }

  lemma CorrectTradingDay(d: Date, holidays: set<Date>)
    requires IsTradingDay(d, holidays)
    ensures CorrectDate(d, holidays) == Some(d)
  {
  }

  /** The latest trading day on or before `d` is what the walk finds. */
  lemma CorrectDateFindsLatest(r: Date, d: Date, holidays: set<Date>)
    requires LatestTradingDay(r, d, holidays)
    ensures CorrectDate(d, holidays) == Some(r)
  {
    assert CorrectDate(d, holidays).Some?;
    LatestTradingDayUnique(CorrectDate(d, holidays).value, r, d, holidays);
  }

  /** Correcting twice is correcting once. */
  lemma {:induction false} CorrectDatesIdempotent(ds: seq<Date>, holidays: set<Date>)
    requires CorrectDates(ds, holidays).Some?
    ensures CorrectDates(CorrectDates(ds, holidays).value, holidays) == CorrectDates(ds, holidays)
  {
    if |ds| > 0 {
      var r := CorrectDates(ds, holidays).value;
      CorrectDatesIdempotent(ds[1..], holidays);
      CorrectTradingDay(r[0], holidays);
      assert r[1..] == CorrectDates(ds[1..], holidays).value;
    }
  }

  /** Correction never reorders: a later date corrects to a day no earlier. */
  lemma CorrectDateMonotone(a: Date, b: Date, holidays: set<Date>)
    requires Ordinal(a) <= Ordinal(b)
    requires CorrectDate(a, holidays).Some?
    ensures CorrectDate(b, holidays).Some?
    ensures Ordinal(CorrectDate(a, holidays).value) <= Ordinal(CorrectDate(b, holidays).value)
  {
    var ra := CorrectDate(a, holidays).value;
    assert IsTradingDay(ra, holidays) && Ordinal(ra) <= Ordinal(b);
    assert CorrectDate(b, holidays).Some?;
    var rb := CorrectDate(b, holidays).value;
    assert Ordinal(ra) <= Ordinal(rb);
  }

  /** Dates sorted most recent first stay sorted after correction (equal
      neighbours become possible). */
  lemma CorrectDatesNewestFirst(ds: seq<Date>, holidays: set<Date>)
    requires Resolve.NewestFirst(ds)
    requires CorrectDates(ds, holidays).Some?
    ensures Resolve.NewestFirst(CorrectDates(ds, holidays).value)
  {
    var r := CorrectDates(ds, holidays).value;
    forall i, j | 0 <= i < j < |r|
      ensures !Before(r[i], r[j])
    {
      CorrectDateFindsLatest(r[i], ds[i], holidays);
      CorrectDateFindsLatest(r[j], ds[j], holidays);
      OrdinalOrder(ds[i], ds[j]);
      CorrectDateMonotone(ds[j], ds[i], holidays);
      OrdinalOrder(r[i], r[j]);
    }
  }

  /** The day before is the previous weekday. */
  lemma WeekdayStep(d: Date)
    requires d != MinDate
    ensures Weekday(PrevDay(d)) == (Weekday(d) + 6) % 7
  {
    var n := Ordinal(d);
    assert Ordinal(PrevDay(d)) == n - 1;
    ModSevenStep(n);
  }

  lemma ModSevenStep(n: int)
    ensures (n - 1 + 6) % 7 == ((n + 6) % 7 + 6) % 7
  {
  }

  /** A Saturday whose Friday is not a holiday moves to that Friday. */
  lemma SaturdayToFriday(d: Date, holidays: set<Date>)
    requires Weekday(d) == 5
    requires d == MinDate || PrevDay(d) !in holidays
    ensures d != MinDate
    ensures CorrectDate(d, holidays) == Some(PrevDay(d))
  {
    SaturdayNotMinDate(d);
    var p := PrevDay(d);
    WeekdayStep(d);
    assert Weekday(p) == 4 by {
      assert Weekday(d) + 6 == 11;
    }
    CorrectTradingDay(p, holidays);
    CorrectDateStep(d, holidays);
  }

  lemma SaturdayNotMinDate(d: Date)
    requires Weekday(d) == 5
    ensures d != MinDate
  {
    MinDateMonday();
  }

  /** 0001-01-01 was a Monday. */
  lemma MinDateMonday()
    ensures Weekday(MinDate) == 0
  {
    assert DaysBeforeYear(1) == 0;
    assert DaysBeforeMonth(1, 1) == 0;
    assert Ordinal(MinDate) == 1;
  }

  lemma CorrectDateStep(d: Date, holidays: set<Date>)
    requires d != MinDate && !IsTradingDay(d, holidays)
    ensures CorrectDate(d, holidays) == CorrectDate(PrevDay(d), holidays)
  {
  }

  /** New Year's Day 2023 was observed on Monday 2 January: with that
      holiday listed, 2023-01-02 walks back over the weekend to Friday
      2022-12-30. */
  lemma HolidayExample()
    ensures CorrectDate(Civil(2023, 1, 2), {Civil(2023, 1, 2)}) == Some(Civil(2022, 12, 30))
  {
    var h: set<Date> := {Civil(2023, 1, 2)};
    var mon, sun, sat, fri: Date := Civil(2023, 1, 2), Civil(2023, 1, 1), Civil(2022, 12, 31), Civil(2022, 12, 30);
    assert Ordinal(mon) == 738522 && Ordinal(sun) == 738521;
    assert Ordinal(sat) == 738520 && Ordinal(fri) == 738519;
    assert PrevDay(mon) == sun && PrevDay(sun) == sat && PrevDay(sat) == fri;
    assert IsTradingDay(fri, h);
    assert CorrectDate(sat, h) == Some(fri);
    assert CorrectDate(sun, h) == Some(fri);
  }
}
