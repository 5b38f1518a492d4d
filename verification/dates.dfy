/** Calendar days as Python's `datetime.date` holds them: the proleptic
    Gregorian calendar, years 1 through 9999, numbered by `toordinal()`
    (0001-01-01 is day 1, a Monday). The arithmetic the report performs on
    dates (`- timedelta(days=n)`, `+ timedelta(days=1)`, `- relativedelta(years=n)`,
    `weekday()`, `strftime('%Y-%m-%d')`) is defined here. */
module Dates {
  import opened Wrappers
  import opened Text

  const MinYear: int := 1
  const MaxYear: int := 9999

  datatype Civil = Civil(year: int, month: int, day: int)

  predicate IsLeap(y: int) {
    y % 4 == 0 && (y % 100 != 0 || y % 400 == 0)
  }

  function DaysInMonth(y: int, m: int): int
    requires 1 <= m <= 12
  {
    if m == 2 then (if IsLeap(y) then 29 else 28)
    else if m == 4 || m == 6 || m == 9 || m == 11 then 30
    else 31
  }

  function YearLength(y: int): int {
    if IsLeap(y) then 366 else 365
  }

  predicate ValidCivil(c: Civil) {
    && MinYear <= c.year <= MaxYear
    && 1 <= c.month <= 12
    && 1 <= c.day <= DaysInMonth(c.year, c.month)
  }

  /** A day `datetime.date` can represent. */
  type Date = c: Civil | ValidCivil(c) witness Civil(1, 1, 1)

  const MinDate: Date := Civil(MinYear, 1, 1)
  const MaxDate: Date := Civil(MaxYear, 12, 31)
  /** `date.max.toordinal()` */
  const MaxOrdinal: int := 3652059

  /** Days in the years before `y` (`_days_before_year` in CPython). */
  function DaysBeforeYear(y: int): int {
    var p := y - 1;
    365 * p + p / 4 - p / 100 + p / 400
  }

  /** Days in the months of year `y` before month `m` (`_days_before_month`). */
  function DaysBeforeMonth(y: int, m: int): int
    requires 1 <= m <= 12
  {
    var common :=
      if m == 1 then 0 else if m == 2 then 31 else if m == 3 then 59
      else if m == 4 then 90 else if m == 5 then 120 else if m == 6 then 151
      else if m == 7 then 181 else if m == 8 then 212 else if m == 9 then 243
      else if m == 10 then 273 else if m == 11 then 304 else 334;
    if m > 2 && IsLeap(y) then common + 1 else common
  }

  /** `date.toordinal()` */
  function Ordinal(d: Date): int {
    DaysBeforeYear(d.year) + DaysBeforeMonth(d.year, d.month) + d.day
  }

  /** `date.weekday()`: Monday is 0, Saturday 5, Sunday 6. */
  function Weekday(d: Date): int {
    (Ordinal(d) + 6) % 7
  }

  /* ---------------- the ordinal numbering ---------------- */

  lemma DivStep(q: int)
    ensures q / 4 - (q - 1) / 4 == (if q % 4 == 0 then 1 else 0)
    ensures q / 100 - (q - 1) / 100 == (if q % 100 == 0 then 1 else 0)
    ensures q / 400 - (q - 1) / 400 == (if q % 400 == 0 then 1 else 0)
    ensures q % 400 == 0 ==> q % 100 == 0
    ensures q % 100 == 0 ==> q % 4 == 0
  {
    if q % 400 == 0 {
      assert q == 100 * (4 * (q / 400));
    }
    if q % 100 == 0 {
      assert q == 4 * (25 * (q / 100));
    }
  }

  lemma YearStep(y: int)
    ensures DaysBeforeYear(y + 1) == DaysBeforeYear(y) + YearLength(y)
  {
    DivStep(y);
  }

  lemma {:induction false} YearMonotone(y1: int, y2: int)
    requires y1 < y2
    ensures DaysBeforeYear(y1) + YearLength(y1) <= DaysBeforeYear(y2)
    decreases y2 - y1
  {
    YearStep(y1);
    if y1 + 1 < y2 {
      YearMonotone(y1 + 1, y2);
    }
  }

  lemma MonthMonotone(y: int, m1: int, m2: int)
    requires 1 <= m1 < m2 <= 12
    ensures DaysBeforeMonth(y, m1) + DaysInMonth(y, m1) <= DaysBeforeMonth(y, m2)
  {
  }

  lemma MonthStep(y: int, m: int)
    requires 1 <= m <= 12
    ensures m < 12 ==> DaysBeforeMonth(y, m + 1) == DaysBeforeMonth(y, m) + DaysInMonth(y, m)
    ensures DaysBeforeMonth(y, m) + DaysInMonth(y, m) <= YearLength(y)
    ensures m == 12 ==> DaysBeforeMonth(y, m) + DaysInMonth(y, m) == YearLength(y)
  {
  }

  /** Calendar order: year, then month, then day. */
  predicate Before(a: Date, b: Date) {
    a.year < b.year || (a.year == b.year && (a.month < b.month || (a.month == b.month && a.day < b.day)))
  }

  lemma OrdinalMonotone(a: Date, b: Date)
    requires Before(a, b)
    ensures Ordinal(a) < Ordinal(b)
  {
    MonthStep(a.year, a.month);
    if a.year < b.year {
      YearMonotone(a.year, b.year);
    } else if a.month < b.month {
      MonthMonotone(a.year, a.month, b.month);
    }
  }

  /** The ordinal numbering is an order isomorphism from calendar order onto
      the integers: it is injective and sorts dates chronologically. */
  lemma OrdinalOrder(a: Date, b: Date)
    ensures Ordinal(a) < Ordinal(b) <==> Before(a, b)
    ensures Ordinal(a) == Ordinal(b) <==> a == b
  {
    if Before(a, b) {
      OrdinalMonotone(a, b);
    } else if Before(b, a) {
      OrdinalMonotone(b, a);
    }
  }

  lemma OrdinalInjective()
    ensures forall a: Date, b: Date :: Ordinal(a) == Ordinal(b) ==> a == b
  {
    forall a: Date, b: Date | Ordinal(a) == Ordinal(b)
      ensures a == b
    {
      OrdinalOrder(a, b);
    }
  }

  /** Every representable date numbers between `date.min` (1) and `date.max`. */
  lemma OrdinalRange(d: Date)
    ensures 1 <= Ordinal(d) <= MaxOrdinal
    ensures Ordinal(d) == 1 <==> d == MinDate
    ensures Ordinal(d) == MaxOrdinal <==> d == MaxDate
  {
    if d == MinDate {
      EndOrdinals();
    } else {
      AfterMinDate(d);
    }
    if d == MaxDate {
      EndOrdinals();
    } else {
      BeforeMaxDate(d);
    }
  }

  lemma AfterMinDate(d: Date)
    requires d != MinDate
    ensures 1 < Ordinal(d)
  {
    assert Before(MinDate, d);
    OrdinalMonotone(MinDate, d);
    EndOrdinals();
  }

  lemma BeforeMaxDate(d: Date)
    requires d != MaxDate
    ensures Ordinal(d) < MaxOrdinal
  {
    assert Before(d, MaxDate);
    OrdinalMonotone(d, MaxDate);
    EndOrdinals();
  }

  lemma EndOrdinals()
    ensures Ordinal(MinDate) == 1
    ensures Ordinal(MaxDate) == MaxOrdinal
  {
    DaysBeforeLastYear();
    assert DaysBeforeMonth(9999, 12) == 334;
  }

  lemma DaysBeforeLastYear()
    ensures DaysBeforeYear(MaxYear) == 3651694
  {
    var p := MaxYear - 1;
    assert p / 4 == 2499 && p / 100 == 99 && p / 400 == 24;
    assert 365 * p == 3649270;
  }

  /* ---------------- day arithmetic ---------------- */

  /** The following day (`d + timedelta(days=1)` where that does not overflow). */
  function NextDay(d: Date): (r: Date)
    requires d != MaxDate
    ensures Ordinal(r) == Ordinal(d) + 1
  {
    MonthStep(d.year, d.month);
    if d.day < DaysInMonth(d.year, d.month) then Civil(d.year, d.month, d.day + 1)
    else if d.month < 12 then Civil(d.year, d.month + 1, 1)
    else YearStep(d.year); Civil(d.year + 1, 1, 1)
  }

  /** The preceding day (`d - timedelta(days=1)` where that does not overflow). */
  function PrevDay(d: Date): (r: Date)
    requires d != MinDate
    ensures Ordinal(r) == Ordinal(d) - 1
  {
    if d.day > 1 then Civil(d.year, d.month, d.day - 1)
    else if d.month > 1 then
      MonthStep(d.year, d.month - 1);
      Civil(d.year, d.month - 1, DaysInMonth(d.year, d.month - 1))
    else
      YearStep(d.year - 1);
      MonthStep(d.year - 1, 12);
      Civil(d.year - 1, 12, 31)
  }

  /** `d + timedelta(days=k)`: `None` where Python raises `OverflowError`
      because the result would leave the representable range. */
  function AddDays(d: Date, k: int): (r: Option<Date>)
    ensures r.Some? <==> 1 <= Ordinal(d) + k <= MaxOrdinal
    ensures r.Some? ==> Ordinal(r.value) == Ordinal(d) + k
    decreases if k < 0 then -k else k
  {
    OrdinalRange(d);
    if k == 0 then Some(d)
    else if k > 0 then
      if d == MaxDate then None else AddDays(NextDay(d), k - 1)
    else
      if d == MinDate then None else AddDays(PrevDay(d), k + 1)
  }

  /** `d - relativedelta(years=n)`: same month and day `n` calendar years
      earlier, with the day clamped to the length of the target month (only
      29 February can be affected); `None` where Python raises `ValueError`
      because the target year is out of range. */
  function SubtractYears(d: Date, n: int): (r: Option<Date>)
    ensures r.Some? <==> MinYear <= d.year - n <= MaxYear
    ensures r.Some? ==> YearsEarlier(r.value, d, n)
  {
    var y := d.year - n;
    if y < MinYear || y > MaxYear then None
    else
      var last := DaysInMonth(y, d.month);
      Some(Civil(y, d.month, if d.day <= last then d.day else last))
  }

  /** `r` is `d` moved `n` calendar years back: same month, same day except
      that 29 February becomes 28 February in a common year. */
  predicate YearsEarlier(r: Date, d: Date, n: int) {
    && r.year == d.year - n
    && r.month == d.month
    && (r.day == d.day || (d.month == 2 && d.day == 29 && !IsLeap(r.year) && r.day == 28))
  }

  /** A positive number of years lands strictly earlier. */
  lemma SubtractYearsEarlier(d: Date, n: int)
    requires n > 0 && SubtractYears(d, n).Some?
    ensures Ordinal(SubtractYears(d, n).value) < Ordinal(d)
  {
    OrdinalOrder(SubtractYears(d, n).value, d);
  }

  /* ---------------- the YYYY-MM-DD form ---------------- */

  /** `d.strftime('%Y-%m-%d')`, with the year always written as four digits. */
  function Format(d: Date): (s: string)
    ensures |s| == 10
    ensures IsDigit(s[0])
  {
    Pad(d.year, 4) + "-" + Pad(d.month, 2) + "-" + Pad(d.day, 2)
  }

  /** String order on the `YYYY-MM-DD` form is chronological order, and the
      form identifies the date: sorting the strings sorts the dates. */
  lemma FormatOrder(a: Date, b: Date)
    ensures Less(Format(a), Format(b)) <==> Ordinal(a) < Ordinal(b)
    ensures Format(a) == Format(b) <==> a == b
  {
    FormatLess(a, b);
    FormatInjective(a, b);
    OrdinalOrder(a, b);
  }

  lemma FormatLess(a: Date, b: Date)
    ensures Less(Format(a), Format(b)) <==> Before(a, b)
  {
    FormatFields(a, b);
    PadOrder(a.year, b.year, 4);
    PadOrder(a.month, b.month, 2);
    PadOrder(a.day, b.day, 2);
  }

  lemma FormatInjective(a: Date, b: Date)
    ensures Format(a) == Format(b) <==> a == b
  {
    FormatFields(a, b);
  }

  /** The fields of the `YYYY-MM-DD` form, compared. */
  lemma FormatFields(a: Date, b: Date)
    ensures Less(Format(a), Format(b))
            <==> Less(Pad(a.year, 4), Pad(b.year, 4))
                 || (a.year == b.year && (Less(Pad(a.month, 2), Pad(b.month, 2))
                     || (a.month == b.month && Less(Pad(a.day, 2), Pad(b.day, 2)))))
    ensures Format(a) == Format(b) <==> a == b
    ensures a.year < Pow10(4) && b.year < Pow10(4)
    ensures a.month < Pow10(2) && b.month < Pow10(2) && a.day < Pow10(2) && b.day < Pow10(2)
  {
    assert Pow10(4) == 10000 && Pow10(2) == 100;
    PadInjective(a.year, b.year, 4);
    PadInjective(a.month, b.month, 2);
    PadInjective(a.day, b.day, 2);
    JoinedFields(Pad(a.year, 4), Pad(a.month, 2), Pad(a.day, 2), Pad(b.year, 4), Pad(b.month, 2), Pad(b.day, 2), "-");
  }

  /** The form holds only digits and the two dashes. */
  lemma FormatCharacters(d: Date)
    ensures forall i :: 0 <= i < |Format(d)| ==> IsDigit(Format(d)[i]) || Format(d)[i] == '-'
  {
    var y, m, dd := Pad(d.year, 4), Pad(d.month, 2), Pad(d.day, 2);
    var s := Format(d);
    forall i | 0 <= i < |s|
      ensures IsDigit(s[i]) || s[i] == '-'
    {
      if i < 4 {
        assert s[i] == y[i];
      } else if 5 <= i < 7 {
        assert s[i] == m[i - 5];
      } else if 8 <= i {
        assert s[i] == dd[i - 8];
      }
    }
  }

  /** `datetime.strptime(s, '%Y-%m-%d')` on the zero-padded form: four year
      digits, two month digits and two day digits separated by dashes,
      naming a real calendar day. `None` where `strptime` raises
      `ValueError`. */
  function ParseDate(s: string): (r: Option<Date>)
    ensures r.Some? ==> Format(r.value) == s
  {
    if |s| == 10 && s[4] == '-' && s[7] == '-'
       && AllDigits(s[..4]) && AllDigits(s[5..7]) && AllDigits(s[8..])
    then
      var c := Civil(Value(s[..4]), Value(s[5..7]), Value(s[8..]));
      if ValidCivil(c) then
        FormatOfFields(s, c);
        Some(c)
      else None
    else None
  }

  /** A string of the `YYYY-MM-DD` shape is the form of the date its fields
      name. */
  lemma FormatOfFields(s: string, d: Date)
    requires |s| == 10 && s[4] == '-' && s[7] == '-'
    requires AllDigits(s[..4]) && AllDigits(s[5..7]) && AllDigits(s[8..])
    requires d == Civil(Value(s[..4]), Value(s[5..7]), Value(s[8..]))
    ensures Format(d) == s
  {
    PadOfValue(s[..4]);
    PadOfValue(s[5..7]);
    PadOfValue(s[8..]);
    assert s == s[..4] + "-" + s[5..7] + "-" + s[8..];
  }

  /** Reading a date is the inverse of writing one: `strptime` accepts
      exactly the strings `strftime` writes, and gives back their date. */
  lemma ParseDateFormat(s: string, d: Date)
    ensures ParseDate(s) == Some(d) <==> Format(d) == s
  {
    if Format(d) == s {
      var y, m, dd := Pad(d.year, 4), Pad(d.month, 2), Pad(d.day, 2);
      assert s[..4] == y && s[5..7] == m && s[8..] == dd;
      assert Pow10(2) == 100 && Pow10(4) == 10000;
      PadValue(d.year, 4);
      PadValue(d.month, 2);
      PadValue(d.day, 2);
    }
  }

  /** Only `date.max` has no following day. */
  lemma BeforeLastDay(d: Date)
    ensures Ordinal(d) < MaxOrdinal <==> d != MaxDate
    ensures 1 <= Ordinal(d)
  {
    OrdinalRange(d);
  }

  /** `[d.strftime('%Y-%m-%d') for d in ds]` */
  function FormatAll(ds: seq<Date>): (r: seq<string>)
    ensures |r| == |ds|
    ensures forall i :: 0 <= i < |ds| ==> r[i] == Format(ds[i])
  {
    if |ds| == 0 then [] else [Format(ds[0])] + FormatAll(ds[1..])
  }
}
