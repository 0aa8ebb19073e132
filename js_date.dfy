/**
 * The part of JavaScript's `Date` that src/utils/dateRanges.js uses: a
 * mutable object holding one time value (milliseconds since 1970-01-01),
 * its getters `getFullYear`, `getMonth` and `getDate`, and the setters
 * `setDate`, `setMonth`, `setFullYear` and `setHours`, which recompute the
 * time value through `MakeDay`, so out-of-range arguments roll over into
 * neighbouring months and years (section 21.4.4 of ECMA-262). Local time is
 * taken to be the time value itself.
 */
module JsDates {
  import opened Calendar

  // ---------------------------------------------------------------------------
  // Time values

  /** `YearFromTime(t)` */
  function YearFromTime(t: int): int {
    YearOfDay(Day(t))
  }

  /** `MonthFromTime(t)`: 0 to 11. */
  function MonthFromTime(t: int): (m: int)
    ensures 0 <= m < 12
  {
    MonthOfDay(Day(t))
  }

  /** `DateFromTime(t)`: 1 to 31. */
  function DateFromTime(t: int): (dt: int)
    ensures 1 <= dt <= 31
  {
    DateOfDay(Day(t))
  }

  /** `MakeDate(day, time)` */
  function MakeDate(day: int, time: int): int {
    day * MsPerDay + time
  }

  /** The time value `setDate(date)` stores. */
  function WithDate(t: int, date: int): int {
    MakeDate(MakeDay(YearFromTime(t), MonthFromTime(t), date), TimeWithinDay(t))
  }

  /** The time value `setMonth(month)` stores. */
  function WithMonth(t: int, month: int): int {
    MakeDate(MakeDay(YearFromTime(t), month, DateFromTime(t)), TimeWithinDay(t))
  }

  /** The time value `setFullYear(year)` stores. */
  function WithFullYear(t: int, year: int): int {
    MakeDate(MakeDay(year, MonthFromTime(t), DateFromTime(t)), TimeWithinDay(t))
  }

  /**
   * The time value with its year, month and date each moved back by the given
   * amount and recombined through `MakeDay`, so that an out-of-range month or
   * date rolls over, at the same time of day.
   */
  function MovedBack(t: int, years: int, months: int, days: int): int {
    MakeDate(MakeDay(YearFromTime(t) - years, MonthFromTime(t) - months, DateFromTime(t) - days), TimeWithinDay(t))
  }

  /** The time value `setHours(0, 0, 0, 0)` stores: the start of the day. */
  function AtMidnight(t: int): int {
    MakeDate(Day(t), 0)
  }

  /** Midnight is the start of the same day: a whole number of days, at most `t`, less than a day before it. */
  lemma AtMidnightFacts(t: int)
    ensures AtMidnight(t) % MsPerDay == 0
    ensures Day(AtMidnight(t)) == Day(t)
    ensures AtMidnight(t) <= t < AtMidnight(t) + MsPerDay
    ensures AtMidnight(AtMidnight(t)) == AtMidnight(t)
  {
  }

  /** A whole number of days is its own midnight, and stays one when whole days are taken away. */
  lemma WholeDaysBack(t: int, k: int)
    requires t % MsPerDay == 0
    ensures AtMidnight(t) == t
    ensures (t - k * MsPerDay) % MsPerDay == 0
  {
    var q := t / MsPerDay;
    assert t - k * MsPerDay == (q - k) * MsPerDay;
  }

  /** `setDate(getDate() - k)` moves the date back `k`. */
  lemma SetDateMovesBack(t: int, k: int)
    ensures WithDate(t, DateFromTime(t) - k) == MovedBack(t, 0, 0, k)
  {
  }

  /** `setMonth(getMonth() - k)` moves the month back `k`. */
  lemma SetMonthMovesBack(t: int, k: int)
    ensures WithMonth(t, MonthFromTime(t) - k) == MovedBack(t, 0, k, 0)
  {
  }

  /** `setFullYear(getFullYear() - k)` moves the year back `k`. */
  lemma SetFullYearMovesBack(t: int, k: int)
    ensures WithFullYear(t, YearFromTime(t) - k) == MovedBack(t, k, 0, 0)
  {
  }

  /** Moving the date `k` back moves the time exactly `k` days back, whatever month boundaries it crosses. */
  lemma DaysBackExact(t: int, k: int)
    ensures MovedBack(t, 0, 0, k) == t - k * MsPerDay
  {
    var d := Day(t);
    var y, m, dt := YearOfDay(d), MonthOfDay(d), DateOfDay(d);
    calc {
      MovedBack(t, 0, 0, k);
      MakeDate(MakeDay(y, m, dt + -k), TimeWithinDay(t));
      { MakeDayDateShift(y, m, dt, -k); }
      MakeDate(MakeDay(y, m, dt) - k, TimeWithinDay(t));
      { MakeDayOfCivil(d); }
      MakeDate(d - k, TimeWithinDay(t));
      (d - k) * MsPerDay + TimeWithinDay(t);
      { assert (d - k) * MsPerDay == d * MsPerDay - k * MsPerDay; }
      d * MsPerDay + TimeWithinDay(t) - k * MsPerDay;
      { DayAndTime(t); }
      t - k * MsPerDay;
    }
  }

  /** `setDate(date)` with a date inside the month sets exactly that date and keeps the year, month and time of day. */
  lemma WithDateInMonth(t: int, date: int)
    requires 1 <= date <= DaysInMonth(YearFromTime(t), MonthFromTime(t))
    ensures YearFromTime(WithDate(t, date)) == YearFromTime(t)
    ensures MonthFromTime(WithDate(t, date)) == MonthFromTime(t)
    ensures DateFromTime(WithDate(t, date)) == date
    ensures TimeWithinDay(WithDate(t, date)) == TimeWithinDay(t)
  {
    var day := MakeDay(YearFromTime(t), MonthFromTime(t), date);
    CivilOfMakeDay(YearFromTime(t), MonthFromTime(t), date);
    assert Day(WithDate(t, date)) == day;
  }

  /** Whole days keep their order when counted in milliseconds. */
  lemma DaysToMs(a: int, b: int)
    requires a <= b
    ensures a * MsPerDay <= b * MsPerDay
  {
  }

  /** Moving the month `k >= 0` back lands at least 28 days per month earlier. */
  lemma MonthsBackBound(t: int, k: int)
    requires k >= 0
    ensures MovedBack(t, 0, k, 0) + 28 * k * MsPerDay <= t
  {
    var d := Day(t);
    var y, m, dt := YearOfDay(d), MonthOfDay(d), DateOfDay(d);
    var back := MakeDay(y, m - k, dt);
    assert MovedBack(t, 0, k, 0) == back * MsPerDay + TimeWithinDay(t);
    MonthsBackEarlier(y, m, dt, k);
    MakeDayOfCivil(d);
    DaysToMs(back + 28 * k, d);
    assert (back + 28 * k) * MsPerDay == back * MsPerDay + 28 * k * MsPerDay;
    DayAndTime(t);
  }

  /** Moving the year `k` back is moving the month `12 * k` back. */
  lemma YearsAreMonthsBack(t: int, k: int)
    ensures MovedBack(t, k, 0, 0) == MovedBack(t, 0, 12 * k, 0)
  {
    YearsAreTwelveMonths(YearFromTime(t), MonthFromTime(t), DateFromTime(t), k);
  }

  // ---------------------------------------------------------------------------
  // The Date object

  /** A `Date`: the one field is its time value. */
  class JsDate {
    var time: int

    /** `new Date(t)`, and `new Date(other)`, which copies `other`'s time value. */
    constructor (t: int)
      ensures time == t
    {
      time := t;
    }

    /** `getFullYear()` */
    function GetFullYear(): (y: int)
      reads this
      ensures DayFromYear(y) <= Day(time) < DayFromYear(y + 1)
    {
      YearFromTime(time)
    }

    /** `getMonth()`: 0 to 11. */
    function GetMonth(): (m: int)
      reads this
      ensures 0 <= m < 12
    {
      MonthFromTime(time)
    }

    /** `getDate()`: 1 to 31. */
    function GetDate(): (dt: int)
      reads this
      ensures 1 <= dt <= 31
    {
      DateFromTime(time)
    }

    /** `setDate(date)` */
    method SetDate(date: int)
      modifies this
      ensures time == WithDate(old(time), date)
    {
      time := MakeDate(MakeDay(GetFullYear(), GetMonth(), date), TimeWithinDay(time));
    }

    /** `setMonth(month)` */
    method SetMonth(month: int)
      modifies this
      ensures time == WithMonth(old(time), month)
    {
      time := MakeDate(MakeDay(GetFullYear(), month, GetDate()), TimeWithinDay(time));
    }

    /** `setFullYear(year)` */
    method SetFullYear(year: int)
      modifies this
      ensures time == WithFullYear(old(time), year)
    {
      time := MakeDate(MakeDay(year, GetMonth(), GetDate()), TimeWithinDay(time));
    }

    /** `setHours(0, 0, 0, 0)` */
    method SetHoursToMidnight()
      modifies this
      ensures time == AtMidnight(old(time))
    {
      time := MakeDate(Day(time), 0);
    }
  }
}
