/** Calendar dates as Python's `datetime.date` handles them: the proleptic Gregorian
    calendar on years 1..9999, a date's ordinal (`date.toordinal()`, 1 for 0001-01-01),
    the inverse `date.fromordinal()`, and `date + relativedelta(days=k)` (with days only,
    exactly `k` days later, as with `timedelta`) and `date + relativedelta(years=k)` from
    dateutil. */
module Dates {
  import opened Outcomes
  import opened Arithmetic

  datatype Date = Date(year: int, month: int, day: int)

  const MinYear := 1
  const MaxYear := 9999
  /** The ordinal of 9999-12-31, the last representable date. */
  const MaxOrdinal := 3652059

  predicate IsLeap(y: int) {
    y % 4 == 0 && (y % 100 != 0 || y % 400 == 0)
  }

  /** Length of month `m` in a common year or a leap year. */
  function MonthLength(leap: bool, m: int): int
    requires 1 <= m <= 12
  {
    if m == 2 then (if leap then 29 else 28)
    else if m == 4 || m == 6 || m == 9 || m == 11 then 30
    else 31
  }

  /** Days of the year before the first of month `m` (Python's `_days_before_month`). */
  function DaysBefore(leap: bool, m: int): int
    requires 1 <= m <= 12
  {
    var common :=
      if m == 1 then 0 else if m == 2 then 31 else if m == 3 then 59
      else if m == 4 then 90 else if m == 5 then 120 else if m == 6 then 151
      else if m == 7 then 181 else if m == 8 then 212 else if m == 9 then 243
      else if m == 10 then 273 else if m == 11 then 304 else 334;
    common + (if m > 2 && leap then 1 else 0)
  }

  function DaysInMonth(y: int, m: int): int
    requires 1 <= m <= 12
  {
    MonthLength(IsLeap(y), m)
  }

  /** Days before January 1st of year `y`, counted from 0001-01-01 (Python's `_days_before_year`). */
  function DaysBeforeYear(y: int): int {
    var x := y - 1;
    x * 365 + x / 4 - x / 100 + x / 400
  }

  function DaysInYear(y: int): int {
    if IsLeap(y) then 366 else 365
  }

  /** A value Python's `date` constructor accepts. */
  predicate Valid(d: Date) {
    MinYear <= d.year <= MaxYear && 1 <= d.month <= 12 && 1 <= d.day <= DaysInMonth(d.year, d.month)
  }

  /** A `datetime.date` value: a date the constructor accepts. */
  type CalendarDate = d: Date | Valid(d) witness Date(1, 1, 1)

  /** Python's date comparison: year, then month, then day. */
  predicate Before(a: Date, b: Date) {
    a.year < b.year
    || (a.year == b.year && (a.month < b.month || (a.month == b.month && a.day < b.day)))
  }

  predicate NotAfter(a: Date, b: Date) {
    Before(a, b) || a == b
  }

  /** `date.toordinal()`: every valid date has an ordinal between 1 and `MaxOrdinal`. */
  function ToOrdinal(d: Date): (n: int)
    requires Valid(d)
    ensures 1 <= n <= MaxOrdinal
  {
    YearStep(d.year);
    YearsGrow(d.year + 1, MaxYear + 1);
    DaysBeforeYear(d.year) + DaysBefore(IsLeap(d.year), d.month) + d.day
  }

  /** The 400-, 100-, 4- and 1-year cycles `_ord2ymd` splits a day count into. */
  datatype Cycles = Cycles(n400: int, n100: int, n4: int, n1: int, rest: int)

  function Split(n0: nat): Cycles {
    var r400 := n0 % 146097;
    var r100 := r400 % 36524;
    var r4 := r100 % 1461;
    Cycles(n0 / 146097, r400 / 36524, r100 / 1461, r4 / 365, r4 % 365)
  }

  /** Month and day from a 0-based day of the year: Python's estimate `(n + 50) >> 5`,
      corrected by one month when it overshoots. */
  function MonthDay(leap: bool, doy: int): (md: (int, int))
    requires 0 <= doy < (if leap then 366 else 365)
    ensures 1 <= md.0 <= 12 && 1 <= md.1 <= MonthLength(leap, md.0)
    ensures DaysBefore(leap, md.0) + md.1 - 1 == doy
  {
    var m := (doy + 50) / 32;
    var preceding := DaysBefore(leap, m);
    if preceding > doy then
      (m - 1, doy - (preceding - MonthLength(leap, m - 1)) + 1)
    else
      (m, doy - preceding + 1)
  }

  /** `date.fromordinal(n)`, following Python's `_ord2ymd`; `FromOrdinalInverse` shows the
      result is the one valid date whose ordinal is `n`. */
  function FromOrdinal(n: int): Date
    requires 1 <= n <= MaxOrdinal
  {
    SplitBounds(n - 1);
    FromCycles(Split(n - 1))
  }

  /** The date that many cycles, years and days after 0001-01-01. */
  function FromCycles(c: Cycles): Date
    requires WellSplit(c)
  {
    var year := c.n400 * 400 + c.n100 * 100 + c.n4 * 4 + c.n1 + 1;
    if c.n1 == 4 || c.n100 == 4 then
      // the last day of a 4-year or a 400-year cycle: December 31st of a leap year
      Date(year - 1, 12, 31)
    else
      var leap := c.n1 == 3 && (c.n4 != 24 || c.n100 == 3);
      var md := MonthDay(leap, c.rest);
      Date(year, md.0, md.1)
  }

  /** `date + relativedelta(days=k)`: the date `k` days later (earlier for negative `k`),
      or OverflowError when that leaves years 1..9999. */
  function AddDays(d: Date, k: int): (r: Result<Date>)
    requires Valid(d)
    ensures r.Success? <==> 1 <= ToOrdinal(d) + k <= MaxOrdinal
    ensures r.Success? ==> Valid(r.value) && ToOrdinal(r.value) == ToOrdinal(d) + k
    ensures r.Failure? ==> r.error == OverflowError
  {
    var o := ToOrdinal(d) + k;
    if 1 <= o <= MaxOrdinal then
      FromOrdinalInverse(o);
      Success(FromOrdinal(o))
    else
      Failure(OverflowError)
  }

  /** `date + relativedelta(years=k)`: the same month `k` years on, the day clamped to
      that month's length (February 29th becomes the 28th in a common year); ValueError
      when the year leaves 1..9999. */
  function AddYears(d: Date, k: int): (r: Result<Date>)
    requires Valid(d)
    ensures r.Success? <==> MinYear <= d.year + k <= MaxYear
    ensures r.Failure? ==> r.error == ValueError
    ensures r.Success? ==> Valid(r.value) && r.value.year == d.year + k && r.value.month == d.month
    ensures r.Success? ==> r.value.day <= d.day
    ensures r.Success? && r.value.day < d.day ==> r.value.day == DaysInMonth(r.value.year, d.month)
    ensures r.Success? && d.day <= DaysInMonth(d.year + k, d.month) ==> r.value.day == d.day
  {
    var y := d.year + k;
    if MinYear <= y <= MaxYear then
      var last := DaysInMonth(y, d.month);
      Success(Date(y, d.month, if d.day < last then d.day else last))
    else
      Failure(ValueError)
  }

  // ---------------------------------------------------------------------------
  // Arithmetic facts behind the ordinal

  /** The shapes a decomposition into cycles takes, with the two boundary cases
      `_ord2ymd` treats apart. */
  predicate WellSplit(c: Cycles) {
    && 0 <= c.n400 && 0 <= c.n100 <= 4 && 0 <= c.n4 <= 24 && 0 <= c.n1 <= 4 && 0 <= c.rest < 365
    && (c.n100 == 4 ==> c.n4 == 0 && c.n1 == 0 && c.rest == 0)
    && (c.n1 == 4 ==> c.rest == 0 && c.n4 <= 23 && c.n100 <= 3)
  }

  /** The number of days the cycles stand for. */
  function Days(c: Cycles): int {
    146097 * c.n400 + 36524 * c.n100 + 1461 * c.n4 + 365 * c.n1 + c.rest
  }

  lemma SplitBounds(n0: nat)
    ensures WellSplit(Split(n0)) && Days(Split(n0)) == n0
  {
  }

  /** The days before a year written in cycles, and whether that year is a leap year. */
  lemma CycleYear(n400: int, n100: int, n4: int, n1: int)
    requires 0 <= n400 && 0 <= n100 <= 3 && 0 <= n4 <= 24 && 0 <= n1 <= 3
    ensures DaysBeforeYear(400 * n400 + 100 * n100 + 4 * n4 + n1 + 1)
         == 146097 * n400 + 36524 * n100 + 1461 * n4 + 365 * n1
    ensures IsLeap(400 * n400 + 100 * n100 + 4 * n4 + n1 + 1) <==> (n1 == 3 && (n4 != 24 || n100 == 3))
  {
    var x := 400 * n400 + 100 * n100 + 4 * n4 + n1;
    assert x / 4 == 100 * n400 + 25 * n100 + n4;
    assert x / 100 == 4 * n400 + n100;
    assert x / 400 == n400;
    var y := x + 1;
    assert y % 4 == (n1 + 1) % 4;
    assert n1 == 3 ==> y % 100 == (4 * n4 + 4) % 100;
    assert n1 == 3 && n4 == 24 ==> y % 400 == (100 * n100 + 100) % 400;
  }

  /** One year on, the count grows by the length of the year. */
  lemma YearStep(y: int)
    ensures DaysBeforeYear(y + 1) == DaysBeforeYear(y) + DaysInYear(y)
  {
    var x := y - 1;
    QuotientsStep(x);
    Divisibility(y);
    assert (x + 1) * 365 == x * 365 + 365;
  }

  /** Every year divisible by 100 is divisible by 4, and every one divisible by 400 is
      divisible by 100. */
  lemma Divisibility(y: int)
    ensures y % 100 == 0 ==> y % 4 == 0
    ensures y % 400 == 0 ==> y % 100 == 0
  {
    if y % 100 == 0 {
      RemainderUnique(y, 4, 25 * (y / 100), 0);
    }
    if y % 400 == 0 {
      RemainderUnique(y, 100, 4 * (y / 400), 0);
    }
  }

  lemma QuotientsStep(x: int)
    ensures (x + 1) / 4 == x / 4 + (if (x + 1) % 4 == 0 then 1 else 0)
    ensures (x + 1) / 100 == x / 100 + (if (x + 1) % 100 == 0 then 1 else 0)
    ensures (x + 1) / 400 == x / 400 + (if (x + 1) % 400 == 0 then 1 else 0)
  {
  }

  /** Every year has at least 365 days, so the count of days before a year grows with it. */
  lemma {:induction false} YearsGrow(a: int, b: int)
    requires a <= b
    ensures DaysBeforeYear(a) + 365 * (b - a) <= DaysBeforeYear(b)
    decreases b - a
  {
    if a < b {
      YearStep(a);
      YearsGrow(a + 1, b);
    }
  }

  /** No year after 9999 starts within the representable ordinals. */
  lemma LateYears(y: int)
    ensures y > MaxYear ==> DaysBeforeYear(y) >= MaxOrdinal
  {
    if y > MaxYear {
      YearsGrow(MaxYear + 1, y);
    }
  }

  /** `_ord2ymd` inverts `toordinal`: it yields a valid date whose ordinal is `n`. */
  lemma FromOrdinalInverse(n: int)
    requires 1 <= n <= MaxOrdinal
    ensures Valid(FromOrdinal(n)) && ToOrdinal(FromOrdinal(n)) == n
  {
    SplitBounds(n - 1);
    CyclesInverse(Split(n - 1));
  }

  lemma CyclesInverse(c: Cycles)
    requires WellSplit(c) && Days(c) < MaxOrdinal
    ensures Valid(FromCycles(c)) && ToOrdinal(FromCycles(c)) == Days(c) + 1
  {
    if c.n1 == 4 {
      CycleEnd(c.n400, c.n100, c.n4);
    } else if c.n100 == 4 {
      CycleEnd(c.n400, 3, 24);
    } else {
      WithinYear(c.n400, c.n100, c.n4, c.n1, c.rest);
    }
  }

  /** The day after `n1 + 1` whole years of a cycle (`n1 < 4`) is valid and has the
      expected ordinal. */
  lemma WithinYear(n400: int, n100: int, n4: int, n1: int, rest: int)
    requires 0 <= n400 && 0 <= n100 <= 3 && 0 <= n4 <= 24 && 0 <= n1 <= 3 && 0 <= rest < 365
    requires 146097 * n400 + 36524 * n100 + 1461 * n4 + 365 * n1 + rest < MaxOrdinal
    ensures var leap := n1 == 3 && (n4 != 24 || n100 == 3);
      var md := MonthDay(leap, rest);
      var d := Date(n400 * 400 + n100 * 100 + n4 * 4 + n1 + 1, md.0, md.1);
      Valid(d) && ToOrdinal(d) == 146097 * n400 + 36524 * n100 + 1461 * n4 + 365 * n1 + rest + 1
  {
    var year := n400 * 400 + n100 * 100 + n4 * 4 + n1 + 1;
    var leap := n1 == 3 && (n4 != 24 || n100 == 3);
    CycleYear(n400, n100, n4, n1);
    LateYears(year);
    assert year <= MaxYear;
    assert IsLeap(year) == leap;
  }

  /** December 31st closing a 4-year cycle (of a 100-year cycle of a 400-year cycle) is
      valid and has the expected ordinal. */
  lemma CycleEnd(n400: int, n100: int, n4: int)
    requires 0 <= n400 && 0 <= n100 <= 3 && 0 <= n4 <= 24 && (n4 == 24 ==> n100 == 3)
    requires 146097 * n400 + 36524 * n100 + 1461 * n4 + 1460 < MaxOrdinal
    ensures var d := Date(n400 * 400 + n100 * 100 + n4 * 4 + 4, 12, 31);
      Valid(d) && ToOrdinal(d) == 146097 * n400 + 36524 * n100 + 1461 * n4 + 1461
  {
    var year := n400 * 400 + n100 * 100 + n4 * 4 + 4;
    CycleYear(n400, n100, n4, 3);
    LateYears(year);
    assert IsLeap(year);
  }

  // ---------------------------------------------------------------------------
  // The ordinal orders dates as Python compares them, and is one-to-one

  /** A date that comes earlier has a smaller ordinal. */
  lemma OrdinalIncreasing(a: Date, b: Date)
    requires Valid(a) && Valid(b) && Before(a, b)
    ensures ToOrdinal(a) < ToOrdinal(b)
  {
    if a.year < b.year {
      YearStep(a.year);
      YearsGrow(a.year + 1, b.year);
      assert DaysBefore(IsLeap(a.year), a.month) + a.day <= DaysInYear(a.year);
    } else {
      assert DaysBefore(IsLeap(a.year), a.month) + a.day < DaysBefore(IsLeap(b.year), b.month) + b.day;
    }
  }

  /** Two valid dates with the same ordinal are the same date. */
  lemma OrdinalInjective(a: Date, b: Date)
    requires Valid(a) && Valid(b) && ToOrdinal(a) == ToOrdinal(b)
    ensures a == b
  {
    if Before(a, b) {
      OrdinalIncreasing(a, b);
    } else if Before(b, a) {
      OrdinalIncreasing(b, a);
    }
  }

  /** Comparing dates is comparing their ordinals. */
  lemma BeforeIsOrdinalLess(a: Date, b: Date)
    requires Valid(a) && Valid(b)
    ensures Before(a, b) <==> ToOrdinal(a) < ToOrdinal(b)
  {
    if Before(a, b) {
      OrdinalIncreasing(a, b);
    } else if Before(b, a) {
      OrdinalIncreasing(b, a);
    }
  }

  /** `date.fromordinal(d.toordinal()) == d`. */
  lemma FromToOrdinal(d: Date)
    requires Valid(d)
    ensures FromOrdinal(ToOrdinal(d)) == d
  {
    FromOrdinalInverse(ToOrdinal(d));
    OrdinalInjective(FromOrdinal(ToOrdinal(d)), d);
  }

  // ---------------------------------------------------------------------------
  // Adding days and years

  /** Adding no days gives the same date. */
  lemma AddNoDays(d: Date)
    requires Valid(d)
    ensures AddDays(d, 0) == Success(d)
  {
    FromToOrdinal(d);
  }

  /** Adding `j` days and then `k` days is adding `j + k` days. */
  lemma AddDaysTwice(d: Date, j: int, k: int)
    requires Valid(d) && AddDays(d, j).Success?
    ensures AddDays(AddDays(d, j).value, k) == AddDays(d, j + k)
  {
    var e := AddDays(d, j).value;
    if AddDays(e, k).Success? {
      OrdinalInjective(AddDays(e, k).value, AddDays(d, j + k).value);
    }
  }

  /** Adding a non-negative number of days never moves a date earlier; adding a positive
      number moves it strictly later. */
  lemma AddDaysLater(d: Date, k: int)
    requires Valid(d) && 0 <= k && AddDays(d, k).Success?
    ensures NotAfter(d, AddDays(d, k).value)
    ensures 0 < k ==> Before(d, AddDays(d, k).value)
  {
    var e := AddDays(d, k).value;
    BeforeIsOrdinalLess(d, e);
    if k == 0 {
      OrdinalInjective(d, e);
    }
  }

  /** A leap day moved to a common year becomes February 28th. */
  lemma LeapDayClamped(d: Date, k: int)
    requires Valid(d) && d.month == 2 && d.day == 29
    requires MinYear <= d.year + k <= MaxYear && !IsLeap(d.year + k)
    ensures AddYears(d, k) == Success(Date(d.year + k, 2, 28))
  {
  }

  /** The two terms of the application 14865625: filed 2015-09-25, twenty years on is
      2035-09-25, and 752 days of adjustment after that is 2037-10-16. */
  lemma TermExample()
    ensures AddYears(Date(2015, 9, 25), 20) == Success(Date(2035, 9, 25))
    ensures AddDays(Date(2035, 9, 25), 752) == Success(Date(2037, 10, 16))
  {
    ExampleOrdinals();
    var e := AddDays(Date(2035, 9, 25), 752).value;
    OrdinalInjective(e, Date(2037, 10, 16));
  }

  lemma ExampleOrdinals()
    ensures ToOrdinal(Date(2037, 10, 16)) == ToOrdinal(Date(2035, 9, 25)) + 752
  {
    YearStep(2035);
    YearStep(2036);
  }
}
