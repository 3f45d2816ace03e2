/** Python's `datetime.date` as far as `etlutil/date.py` uses it: the
    proleptic Gregorian calendar of years 1 to 9999, the day number
    `toordinal`, `date + timedelta(days=...)` and
    `date + relativedelta(months=..., years=...)`. */
module Calendar {
  import opened Outcomes
  import opened Decimal

  const MinYear: int := 1
  const MaxYear: int := 9999

  /** `timedelta` refuses more days than this. */
  const MaxDeltaDays: int := 999999999

  /** `date(9999, 12, 31).toordinal()`. */
  const MaxOrdinal: int := 3652059

  datatype Date = Date(year: int, month: int, day: int)

  /** Gregorian leap years: every fourth year, except centuries not divisible by 400. */
  predicate IsLeap(y: int) {
    y % 4 == 0 && (y % 100 != 0 || y % 400 == 0)
  }

  /** `calendar.monthrange(y, m)[1]`. */
  function DaysInMonth(y: int, m: int): (n: int)
    requires 1 <= m <= 12
    ensures 28 <= n <= 31
  {
    if m == 2 then (if IsLeap(y) then 29 else 28)
    else if m == 4 || m == 6 || m == 9 || m == 11 then 30
    else 31
  }

  function DaysInYear(y: int): int {
    if IsLeap(y) then 366 else 365
  }

  /** The triples a `date` object can hold; every other triple makes the
      constructor raise. */
  predicate Valid(d: Date) {
    MinYear <= d.year <= MaxYear && 1 <= d.month <= 12 && 1 <= d.day <= DaysInMonth(d.year, d.month)
  }

  /** `a < b` on dates: by year, then month, then day. */
  predicate Before(a: Date, b: Date) {
    a.year < b.year || (a.year == b.year && (a.month < b.month || (a.month == b.month && a.day < b.day)))
  }

  /** Days in the years before `y`. */
  function DaysBeforeYear(y: int): int
    requires y >= 1
  {
    var p := y - 1;
    p * 365 + p / 4 - p / 100 + p / 400
  }

  /** Days in the months of year `y` before month `m`. */
  function DaysBeforeMonth(y: int, m: int): (r: int)
    requires 1 <= m <= 12
    ensures 28 * (m - 1) <= r <= 31 * (m - 1)
  {
    if m == 1 then 0 else DaysBeforeMonth(y, m - 1) + DaysInMonth(y, m - 1)
  }

  /** `d.toordinal()`: day 1 is 0001-01-01. */
  function Ordinal(d: Date): int
    requires Valid(d)
  {
    DaysBeforeYear(d.year) + DaysBeforeMonth(d.year, d.month) + d.day
  }

  /** The number of months since year 0, which relativedelta arithmetic adds to. */
  function MonthIndex(d: Date): int {
    d.year * 12 + d.month - 1
  }

  // ---- the day number ----

  lemma YearStep(y: int)
    requires y >= 1
    ensures DaysBeforeYear(y + 1) == DaysBeforeYear(y) + DaysInYear(y)
  {
    var p := y - 1;
    assert (p + 1) / 4 == p / 4 + (if y % 4 == 0 then 1 else 0);
    assert (p + 1) / 100 == p / 100 + (if y % 100 == 0 then 1 else 0);
    assert (p + 1) / 400 == p / 400 + (if y % 400 == 0 then 1 else 0);
  }

  lemma YearEnd(y: int)
    ensures DaysBeforeMonth(y, 12) + DaysInMonth(y, 12) == DaysInYear(y)
  {
    var f := DaysInMonth(y, 2);
    assert DaysBeforeMonth(y, 2) == 31;
    assert DaysBeforeMonth(y, 3) == 31 + f;
    assert DaysBeforeMonth(y, 4) == 62 + f;
    assert DaysBeforeMonth(y, 5) == 92 + f;
    assert DaysBeforeMonth(y, 6) == 123 + f;
    assert DaysBeforeMonth(y, 7) == 153 + f;
    assert DaysBeforeMonth(y, 8) == 184 + f;
    assert DaysBeforeMonth(y, 9) == 215 + f;
    assert DaysBeforeMonth(y, 10) == 245 + f;
    assert DaysBeforeMonth(y, 11) == 276 + f;
    assert DaysBeforeMonth(y, 12) == 306 + f;
  }

  lemma {:induction false} MonthsBefore(y: int, m1: int, m2: int)
    requires 1 <= m1 < m2 <= 12
    ensures DaysBeforeMonth(y, m1) + DaysInMonth(y, m1) <= DaysBeforeMonth(y, m2)
    decreases m2 - m1
  {
    if m1 + 1 < m2 {
      MonthsBefore(y, m1 + 1, m2);
    }
  }

  lemma {:induction false} YearsBefore(y1: int, y2: int)
    requires 1 <= y1 < y2
    ensures DaysBeforeYear(y1) + DaysInYear(y1) <= DaysBeforeYear(y2)
    decreases y2 - y1
  {
    YearStep(y1);
    if y1 + 1 < y2 {
      YearsBefore(y1 + 1, y2);
    }
  }

  /** The last day of `d`'s year is no earlier in day numbers than `d`. */
  lemma WithinYear(d: Date)
    requires Valid(d)
    ensures DaysBeforeYear(d.year) + 1 <= Ordinal(d) <= DaysBeforeYear(d.year) + DaysInYear(d.year)
  {
    YearEnd(d.year);
    if d.month < 12 {
      MonthsBefore(d.year, d.month, 12);
    }
  }

  /** Python's date order is the order of day numbers. */
  lemma OrdinalOrder(a: Date, b: Date)
    requires Valid(a) && Valid(b)
    ensures Before(a, b) <==> Ordinal(a) < Ordinal(b)
    ensures a == b <==> Ordinal(a) == Ordinal(b)
  {
    if Before(a, b) {
      OrdinalBefore(a, b);
    } else if Before(b, a) {
      OrdinalBefore(b, a);
    }
  }

  lemma OrdinalBefore(a: Date, b: Date)
    requires Valid(a) && Valid(b) && Before(a, b)
    ensures Ordinal(a) < Ordinal(b)
  {
    if a.year < b.year {
      WithinYear(a);
      WithinYear(b);
      YearsBefore(a.year, b.year);
    } else if a.month < b.month {
      MonthsBefore(a.year, a.month, b.month);
    }
  }

  lemma LastOrdinal()
    ensures DaysBeforeYear(MaxYear) + DaysInYear(MaxYear) == MaxOrdinal
  {
    assert DaysBeforeYear(9999) == 3651694;
    assert DaysInYear(9999) == 365;
  }

  /** Day numbers run from 1 for 0001-01-01 to `MaxOrdinal` for 9999-12-31. */
  lemma OrdinalRange(d: Date)
    requires Valid(d)
    ensures 1 <= Ordinal(d) <= MaxOrdinal
  {
    assert DaysBeforeYear(d.year) >= 365 * (d.year - 1);
    WithinYear(d);
    LastOrdinal();
    if d.year < MaxYear {
      YearsBefore(d.year, MaxYear);
    }
  }

  /** The day after `d`. */
  function NextDay(d: Date): (r: Date)
    requires Valid(d) && Ordinal(d) < MaxOrdinal
    ensures Valid(r) && Ordinal(r) == Ordinal(d) + 1
  {
    if d.day < DaysInMonth(d.year, d.month) then Date(d.year, d.month, d.day + 1)
    else if d.month < 12 then Date(d.year, d.month + 1, 1)
    else
      YearEnd(d.year);
      LastOrdinal();
      YearStep(d.year);
      Date(d.year + 1, 1, 1)
  }

  /** The day before `d`. */
  function PrevDay(d: Date): (r: Date)
    requires Valid(d) && Ordinal(d) > 1
    ensures Valid(r) && Ordinal(r) == Ordinal(d) - 1
  {
    if d.day > 1 then Date(d.year, d.month, d.day - 1)
    else if d.month > 1 then Date(d.year, d.month - 1, DaysInMonth(d.year, d.month - 1))
    else
      YearEnd(d.year - 1);
      YearStep(d.year - 1);
      Date(d.year - 1, 12, 31)
  }

  /** The date `k` days after `d` (before it for negative `k`). */
  function AddDays(d: Date, k: int): (r: Date)
    requires Valid(d) && 1 <= Ordinal(d) + k <= MaxOrdinal
    ensures Valid(r) && Ordinal(r) == Ordinal(d) + k
    decreases if k < 0 then -k else k
  {
    if k == 0 then d
    else if k > 0 then AddDays(NextDay(d), k - 1)
    else AddDays(PrevDay(d), k + 1)
  }

  /** A date is determined by its day number. */
  lemma OrdinalInjective(a: Date, b: Date)
    requires Valid(a) && Valid(b) && Ordinal(a) == Ordinal(b)
    ensures a == b
  {
    OrdinalOrder(a, b);
  }

  // ---- the arithmetic `generate_date_array` uses ----

  /** `d + timedelta(days=k)`: the `timedelta` constructor refuses more than
      `MaxDeltaDays` days, and the sum must stay within years 1 to 9999;
      both raise `OverflowError`. */
  function PlusDays(d: Date, k: int): (r: Result<Date>)
    requires Valid(d)
    ensures r.Success? <==> (-MaxDeltaDays <= k <= MaxDeltaDays && 1 <= Ordinal(d) + k <= MaxOrdinal)
    ensures r.Success? ==> Valid(r.value) && Ordinal(r.value) == Ordinal(d) + k
    ensures r.Failure? ==> r.error.OverflowError?
  {
    if k < -MaxDeltaDays || k > MaxDeltaDays then
      Failure(OverflowError("days=" + IntToString(k) + "; must have magnitude <= 999999999"))
    else if Ordinal(d) + k < 1 || Ordinal(d) + k > MaxOrdinal then
      Failure(OverflowError("date value out of range"))
    else Success(AddDays(d, k))
  }

  /** The message `date.replace` raises for a year outside 1 to 9999. */
  function YearOutOfRange(y: int): Error {
    ValueError("year " + IntToString(y) + " is out of range")
  }

  /** The range of a C `int`, which `date.replace` converts its `year` to. */
  const CIntMin: int := -0x8000_0000
  const CIntMax: int := 0x7FFF_FFFF

  /** The error `date.replace(year=y)` raises for a year outside 1 to 9999: a
      year that does not fit a C `int` fails its conversion with
      `OverflowError` before the range check is reached. */
  function ReplaceYearError(y: int): (e: Error)
    requires y < MinYear || y > MaxYear
    ensures e.OverflowError? <==> y < CIntMin || CIntMax < y
    ensures CIntMin <= y <= CIntMax ==> e == YearOutOfRange(y)
  {
    if y > CIntMax then OverflowError("signed integer is greater than maximum")
    else if y < CIntMin then OverflowError("signed integer is less than minimum")
    else YearOutOfRange(y)
  }

  /** `min(day, calendar.monthrange(y, m)[1])`: the day clamped to the month. */
  function Clamped(y: int, m: int, day: int): int
    requires 1 <= m <= 12
  {
    if day < DaysInMonth(y, m) then day else DaysInMonth(y, m)
  }

  /** `d + relativedelta(months=n)`: `n` months on, the day clamped to the
      length of the month reached, the error of `date.replace` once the year
      leaves 1 to 9999. relativedelta folds whole years out of `n` first; the
      month reached is the same. */
  function PlusMonths(d: Date, n: int): (r: Result<Date>)
    requires Valid(d)
    ensures r.Success? <==> MinYear <= (MonthIndex(d) + n) / 12 <= MaxYear
    ensures r.Success? ==> Valid(r.value) && MonthIndex(r.value) == MonthIndex(d) + n
    ensures r.Success? ==> r.value.day == if d.day < DaysInMonth(r.value.year, r.value.month) then d.day
                                          else DaysInMonth(r.value.year, r.value.month)
    ensures r.Failure? ==> (r.error.OverflowError? <==> (MonthIndex(d) + n) / 12 < CIntMin || CIntMax < (MonthIndex(d) + n) / 12)
    ensures r.Failure? && CIntMin <= (MonthIndex(d) + n) / 12 <= CIntMax ==> r.error == YearOutOfRange((MonthIndex(d) + n) / 12)
  {
    var t := MonthIndex(d) + n;
    var y, m := t / 12, t % 12 + 1;
    if y < MinYear || y > MaxYear then Failure(ReplaceYearError(y))
    else Success(Date(y, m, Clamped(y, m, d.day)))
  }

  /** `d + relativedelta(years=n)`: same month and day `n` years on, 29
      February clamped to the 28th in a common year, the error of
      `date.replace` once the year leaves 1 to 9999. */
  function PlusYears(d: Date, n: int): (r: Result<Date>)
    requires Valid(d)
    ensures r.Success? <==> MinYear <= d.year + n <= MaxYear
    ensures r.Success? ==> Valid(r.value) && r.value.year == d.year + n && r.value.month == d.month
    ensures r.Success? ==> r.value.day == if d.day < DaysInMonth(d.year + n, d.month) then d.day
                                          else DaysInMonth(d.year + n, d.month)
    ensures r.Failure? ==> (r.error.OverflowError? <==> d.year + n < CIntMin || CIntMax < d.year + n)
    ensures r.Failure? && CIntMin <= d.year + n <= CIntMax ==> r.error == YearOutOfRange(d.year + n)
  {
    var y := d.year + n;
    if y < MinYear || y > MaxYear then Failure(ReplaceYearError(y))
    else Success(Date(y, d.month, Clamped(y, d.month, d.day)))
  }

  /** A year step is twelve month steps. */
  lemma PlusYearsIsTwelveMonths(d: Date, n: int)
    requires Valid(d)
    ensures PlusYears(d, n) == PlusMonths(d, 12 * n)
  {
    var t := MonthIndex(d) + 12 * n;
    assert t == (d.year + n) * 12 + (d.month - 1);
    assert t / 12 == d.year + n && t % 12 == d.month - 1;
  }

  /** Adding nothing gives the date back. */
  lemma PlusZero(d: Date)
    requires Valid(d)
    ensures PlusDays(d, 0) == Success(d)
    ensures PlusMonths(d, 0) == Success(d)
    ensures PlusYears(d, 0) == Success(d)
  {
    OrdinalRange(d);
    var t := MonthIndex(d);
    assert t / 12 == d.year && t % 12 == d.month - 1;
  }

  /** Dates in later months come later. */
  lemma MonthIndexOrder(a: Date, b: Date)
    requires Valid(a) && Valid(b) && MonthIndex(a) < MonthIndex(b)
    ensures Before(a, b)
  {
  }
}
