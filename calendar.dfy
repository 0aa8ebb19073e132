/**
 * The proleptic Gregorian day arithmetic that JavaScript's `Date` is defined
 * by (section 21.4.1 of ECMA-262): day numbers counted from 1 January 1970,
 * the year, month and date a day number falls in, and `MakeDay`, which turns
 * a possibly out-of-range (year, month, date) triple into a day number by
 * rolling months into years and dates into following or preceding months.
 * Months are 0 to 11, as in JavaScript.
 */
module Calendar {

  /** Milliseconds in a day. */
  const MsPerDay: int := 86400000

  /** `Day(t)`: the day number of time value `t`. */
  function Day(t: int): int {
    t / MsPerDay
  }

  /** `TimeWithinDay(t)` */
  function TimeWithinDay(t: int): (r: int)
    ensures 0 <= r < MsPerDay
  {
    t % MsPerDay
  }

  /** A time value is its day's start plus the time within the day. */
  lemma DayAndTime(t: int)
    ensures Day(t) * MsPerDay + TimeWithinDay(t) == t
  {
  }

  // ---------------------------------------------------------------------------
  // Years

  predicate InLeapYear(y: int) {
    y % 4 == 0 && (y % 100 != 0 || y % 400 == 0)
  }

  function DaysInYear(y: int): int {
    if InLeapYear(y) then 366 else 365
  }

  /** `DayFromYear(y)`: the day number of 1 January of year `y`. */
  function DayFromYear(y: int): int {
    365 * (y - 1970) + (y - 1969) / 4 - (y - 1901) / 100 + (y - 1601) / 400
  }

  /** Each count of leap-year candidates in `DayFromYear` steps up exactly at the years it counts. */
  lemma LeapCount4(y: int)
    ensures (y - 1968) / 4 == (y - 1969) / 4 + (if y % 4 == 0 then 1 else 0)
  {
  }

  lemma LeapCount100(y: int)
    ensures (y - 1900) / 100 == (y - 1901) / 100 + (if y % 100 == 0 then 1 else 0)
  {
  }

  lemma LeapCount400(y: int)
    ensures (y - 1600) / 400 == (y - 1601) / 400 + (if y % 400 == 0 then 1 else 0)
  {
  }

  /** A multiple of 400 is a multiple of 100. */
  lemma CenturyOf400(y: int)
    requires y % 400 == 0
    ensures y % 100 == 0
  {
    var q := y / 400;
    assert y == 100 * (4 * q);
    assert y / 100 == 4 * q;
  }

  /** A multiple of 100 is a multiple of 4. */
  lemma LeapOf100(y: int)
    requires y % 100 == 0
    ensures y % 4 == 0
  {
    var q := y / 100;
    assert y == 4 * (25 * q);
    assert y / 4 == 25 * q;
  }

  lemma DivShift4(x: int, q: int)
    ensures (x + 4 * q) / 4 == x / 4 + q
  {
  }

  lemma DivShift100(x: int, q: int)
    ensures (x + 100 * q) / 100 == x / 100 + q
  {
  }

  lemma DivShift400(x: int, q: int)
    ensures (x + 400 * q) / 400 == x / 400 + q
  {
  }

  /** Consecutive years are `DaysInYear` apart. */
  lemma DayFromYearNext(y: int)
    ensures DayFromYear(y + 1) == DayFromYear(y) + DaysInYear(y)
  {
    LeapCount4(y);
    LeapCount100(y);
    LeapCount400(y);
    if y % 400 == 0 {
      CenturyOf400(y);
    }
    if y % 100 == 0 {
      LeapOf100(y);
    }
  }

  /** 400 years are always 146097 days. */
  lemma DayFromYearCycle(y: int, q: int)
    ensures DayFromYear(y + 400 * q) == DayFromYear(y) + 146097 * q
  {
    DivShift4(y - 1969, 100 * q);
    DivShift100(y - 1901, 4 * q);
    DivShift400(y - 1601, q);
  }

  /** Later years start at least 365 days per year later. */
  lemma {:induction false} DayFromYearMonotone(a: int, b: int)
    requires a <= b
    ensures DayFromYear(a) + 365 * (b - a) <= DayFromYear(b)
    decreases b - a
  {
    if a < b {
      DayFromYearMonotone(a, b - 1);
      DayFromYearNext(b - 1);
    }
  }

  /** The year, counted from 1970, within one 400-year cycle that holds day `r`. */
  function YearInCycle(r: int, k: int): (y: int)
    requires 0 <= k < 400 && DayFromYear(1970 + k) <= r < 146097
    ensures k <= y < 400 && DayFromYear(1970 + y) <= r < DayFromYear(1971 + y)
    decreases 400 - k
  {
    if k == 399 || r < DayFromYear(1971 + k) then k else YearInCycle(r, k + 1)
  }

  /** `YearFromTime` on day numbers: the year whose days include `d`. */
  function YearOfDay(d: int): (y: int)
    ensures DayFromYear(y) <= d < DayFromYear(y + 1)
  {
    var q, r := d / 146097, d % 146097;
    var k := YearInCycle(r, 0);
    DayFromYearCycle(1970 + k, q);
    DayFromYearCycle(1971 + k, q);
    1970 + k + 400 * q
  }

  /** Only one year holds a given day. */
  lemma YearOfDayUnique(d: int, y: int)
    requires DayFromYear(y) <= d < DayFromYear(y + 1)
    ensures YearOfDay(d) == y
  {
    var y' := YearOfDay(d);
    if y' < y {
      DayFromYearMonotone(y' + 1, y);
    } else if y < y' {
      DayFromYearMonotone(y + 1, y');
    }
  }

  // ---------------------------------------------------------------------------
  // Months

  /** The days of a common year before month `m`, for `m` from 0 to 12. */
  function CommonCumDays(m: int): int
    requires 0 <= m <= 12
  {
    if m < 6 then
      (if m == 0 then 0 else if m == 1 then 31 else if m == 2 then 59
       else if m == 3 then 90 else if m == 4 then 120 else 151)
    else
      (if m == 6 then 181 else if m == 7 then 212 else if m == 8 then 243
       else if m == 9 then 273 else if m == 10 then 304 else if m == 11 then 334 else 365)
  }

  /** The days of the year before month `m`; in a leap year February has 29 days. */
  function CumDays(m: int, leap: bool): int
    requires 0 <= m <= 12
  {
    CommonCumDays(m) + if leap && m >= 2 then 1 else 0
  }

  /** Every month has 28 to 31 days, and the months fill the year. */
  lemma CumDaysStep(m: int, leap: bool)
    requires 0 <= m < 12
    ensures 28 <= CumDays(m + 1, leap) - CumDays(m, leap) <= 31
    ensures CumDays(0, leap) == 0 && CumDays(12, leap) == (if leap then 366 else 365)
  {
  }

  lemma {:induction false} CumDaysMonotone(a: int, b: int, leap: bool)
    requires 0 <= a <= b <= 12
    ensures CumDays(a, leap) + 28 * (b - a) <= CumDays(b, leap)
    decreases b - a
  {
    if a < b {
      CumDaysMonotone(a, b - 1, leap);
      CumDaysStep(b - 1, leap);
    }
  }

  /** The month of day-in-year `dy`, searching from month `m`. */
  function MonthInYear(dy: int, leap: bool, m: int): (r: int)
    requires 0 <= m < 12 && CumDays(m, leap) <= dy < CumDays(12, leap)
    ensures m <= r < 12 && CumDays(r, leap) <= dy < CumDays(r + 1, leap)
    decreases 12 - m
  {
    if m == 11 || dy < CumDays(m + 1, leap) then m else MonthInYear(dy, leap, m + 1)
  }

  /** Only one month holds a given day of the year. */
  lemma {:induction false} MonthInYearUnique(dy: int, leap: bool, k: int, m: int)
    requires 0 <= k <= m < 12 && CumDays(k, leap) <= dy < CumDays(12, leap)
    requires CumDays(m, leap) <= dy < CumDays(m + 1, leap)
    ensures MonthInYear(dy, leap, k) == m
    decreases m - k
  {
    if k < m {
      CumDaysMonotone(k + 1, m, leap);
      MonthInYearUnique(dy, leap, k + 1, m);
    }
  }

  /** The day number of the first day of month `m` of year `y`. */
  function MonthStart(y: int, m: int): int
    requires 0 <= m < 12
  {
    DayFromYear(y) + CumDays(m, InLeapYear(y))
  }

  function DaysInMonth(y: int, m: int): (n: int)
    requires 0 <= m < 12
    ensures 28 <= n <= 31
  {
    CumDaysStep(m, InLeapYear(y));
    CumDays(m + 1, InLeapYear(y)) - CumDays(m, InLeapYear(y))
  }

  /** `MonthFromTime` on day numbers. */
  function MonthOfDay(d: int): (m: int)
    ensures 0 <= m < 12
    ensures MonthStart(YearOfDay(d), m) <= d < MonthStart(YearOfDay(d), m) + DaysInMonth(YearOfDay(d), m)
  {
    var y := YearOfDay(d);
    DayFromYearNext(y);
    CumDaysStep(0, InLeapYear(y));
    MonthInYear(d - DayFromYear(y), InLeapYear(y), 0)
  }

  /** `DateFromTime` on day numbers: 1 to the length of the month. */
  function DateOfDay(d: int): (dt: int)
    ensures 1 <= dt <= DaysInMonth(YearOfDay(d), MonthOfDay(d))
  {
    d - MonthStart(YearOfDay(d), MonthOfDay(d)) + 1
  }

  // ---------------------------------------------------------------------------
  // MakeDay

  /**
   * `MakeDay(year, month, date)`: month `month` is taken as month
   * `month mod 12` of year `year + floor(month / 12)`, and `date` counts on
   * from that month's first day, whatever its size.
   */
  function MakeDay(year: int, month: int, date: int): int {
    MonthStart(year + month / 12, month % 12) + date - 1
  }

  /** Counting from the first day of a month in range reaches any day. */
  lemma MakeDayInMonth(d: int, y: int, m: int)
    requires 0 <= m < 12
    ensures MakeDay(y, m, d - MonthStart(y, m) + 1) == d
  {
    assert m / 12 == 0 && m % 12 == m;
  }

  /** The year, month and date of a day give the day back. */
  lemma MakeDayOfCivil(d: int)
    ensures MakeDay(YearOfDay(d), MonthOfDay(d), DateOfDay(d)) == d
  {
    MakeDayInMonth(d, YearOfDay(d), MonthOfDay(d));
  }

  /** A valid (year, month, date) is exactly what `MakeDay` turns it into. */
  lemma CivilOfMakeDay(y: int, m: int, dt: int)
    requires 0 <= m < 12 && 1 <= dt <= DaysInMonth(y, m)
    ensures YearOfDay(MakeDay(y, m, dt)) == y
    ensures MonthOfDay(MakeDay(y, m, dt)) == m
    ensures DateOfDay(MakeDay(y, m, dt)) == dt
  {
    var d := MakeDay(y, m, dt);
    var leap := InLeapYear(y);
    assert m / 12 == 0 && m % 12 == m;
    assert d == DayFromYear(y) + CumDays(m, leap) + dt - 1;
    CumDaysMonotone(m + 1, 12, leap);
    CumDaysStep(0, leap);
    DayFromYearNext(y);
    YearOfDayUnique(d, y);
    MonthInYearUnique(d - DayFromYear(y), leap, 0, m);
    assert MonthOfDay(d) == m;
  }

  /** The next month starts at least 28 days later. */
  lemma NextMonthLater(y: int, m: int)
    ensures MakeDay(y, m, 1) + 28 <= MakeDay(y, m + 1, 1)
  {
    var ym, mn := y + m / 12, m % 12;
    if mn < 11 {
      assert (m + 1) / 12 == m / 12 && (m + 1) % 12 == mn + 1;
      CumDaysStep(mn, InLeapYear(ym));
    } else {
      assert (m + 1) / 12 == m / 12 + 1 && (m + 1) % 12 == 0;
      DayFromYearNext(ym);
      CumDaysStep(11, InLeapYear(ym));
      CumDaysStep(0, InLeapYear(ym + 1));
    }
  }

  /** A sequence that grows by at least 28 per step grows by at least 28 per step over `k` steps. */
  lemma {:induction false} StepsBack(f: int -> int, m: int, k: int)
    requires k >= 0
    requires forall i, j :: j == i + 1 ==> f(i) + 28 <= f(j)
    ensures f(m - k) + 28 * k <= f(m)
    decreases k
  {
    if k > 0 {
      StepsBack(f, m, k - 1);
      assert f(m - k) + 28 <= f(m - k + 1);
      assert m - (k - 1) == m - k + 1;
    }
  }

  /** The first of the month `k` months back is at least 28 days per month earlier. */
  lemma FirstsBackEarlier(y: int, m: int, k: int)
    requires k >= 0
    ensures MakeDay(y, m - k, 1) + 28 * k <= MakeDay(y, m, 1)
  {
    var f := (i: int) => MakeDay(y, i, 1);
    forall i, j | j == i + 1 ensures f(i) + 28 <= f(j) {
      NextMonthLater(y, i);
    }
    StepsBack(f, m, k);
    assert f(m - k) == MakeDay(y, m - k, 1);
    assert f(m) == MakeDay(y, m, 1);
  }

  /** Going `k` months back with the same date lands at least 28 days per month earlier. */
  lemma MonthsBackEarlier(y: int, m: int, dt: int, k: int)
    requires k >= 0
    ensures MakeDay(y, m - k, dt) + 28 * k <= MakeDay(y, m, dt)
  {
    FirstsBackEarlier(y, m, k);
    MakeDayDateShift(y, m - k, 1, dt - 1);
    MakeDayDateShift(y, m, 1, dt - 1);
  }

  /** Going `k` years back is going `12 * k` months back. */
  lemma YearsAreTwelveMonths(y: int, m: int, dt: int, k: int)
    ensures MakeDay(y - k, m, dt) == MakeDay(y, m - 12 * k, dt)
  {
    assert (m - 12 * k) / 12 == m / 12 - k && (m - 12 * k) % 12 == m % 12;
  }

  /** Dates count on from the month's first day without bound. */
  lemma MakeDayDateShift(y: int, m: int, dt: int, k: int)
    ensures MakeDay(y, m, dt + k) == MakeDay(y, m, dt) + k
  {
  }
}
