/**
 * src/utils/dateRanges.js: the four reporting ranges, how a range key is
 * resolved to one of them, how the range's first day is found by calendar
 * subtraction from today's midnight, and the `YYYY-MM-DD` form the dates are
 * sent to the backend in. The current time is a parameter.
 */
module DateRanges {
  import opened Wrappers
  import opened JsValues
  import opened Calendar
  import opened JsDates

  // ---------------------------------------------------------------------------
  // formatDate

  predicate IsDigit(c: char) {
    '0' <= c <= '9'
  }

  predicate IsDigits(s: string) {
    forall i :: 0 <= i < |s| ==> IsDigit(s[i])
  }

  function DigitChar(d: int): char
    requires 0 <= d < 10
  {
    "0123456789"[d]
  }

  function DigitValue(c: char): int
    requires IsDigit(c)
  {
    c as int - '0' as int
  }

  /** The number a string of decimal digits denotes. */
  function DecimalValue(s: string): int
    requires IsDigits(s)
    decreases |s|
  {
    if s == [] then 0 else DecimalValue(s[..|s| - 1]) * 10 + DigitValue(s[|s| - 1])
  }

  /** `String(n)` for a non-negative integer: its decimal digits, without leading zeros. */
  function NatToString(n: nat): string
    decreases n
  {
    if n < 10 then [DigitChar(n)] else NatToString(n / 10) + [DigitChar(n % 10)]
  }

  /** `String(n)` for an integer. */
  function IntToString(n: int): string {
    if n < 0 then "-" + NatToString(-n) else NatToString(n)
  }

  /** The number a decimal string, possibly with a leading "-", denotes. */
  function IntValue(s: string): int
    requires s != [] && IsDigits(if s[0] == '-' then s[1..] else s)
  {
    if s[0] == '-' then -DecimalValue(s[1..]) else DecimalValue(s)
  }

  /** The digits denote `n`; one digit below 10 and two from 10 to 99. */
  lemma {:induction false} NatToStringValue(n: nat)
    ensures IsDigits(NatToString(n)) && NatToString(n) != []
    ensures DecimalValue(NatToString(n)) == n
    ensures n < 10 ==> |NatToString(n)| == 1
    ensures 10 <= n < 100 ==> |NatToString(n)| == 2
    decreases n
  {
    if n >= 10 {
      NatToStringValue(n / 10);
      var s := NatToString(n);
      assert s[..|s| - 1] == NatToString(n / 10);
    }
  }

  /** Printing an integer and reading it back gives the integer. */
  lemma IntToStringValue(n: int)
    ensures var s := IntToString(n);
      s != [] && IsDigits(if s[0] == '-' then s[1..] else s) && IntValue(s) == n
  {
    if n < 0 {
      NatToStringValue(-n);
      assert IntToString(n)[1..] == NatToString(-n);
    } else {
      NatToStringValue(n);
    }
  }

  /** `n` copies of `c`. */
  function Repeat(c: char, n: nat): (r: string)
    ensures |r| == n
    ensures forall i :: 0 <= i < n ==> r[i] == c
  {
    if n == 0 then [] else [c] + Repeat(c, n - 1)
  }

  /** `s.padStart(targetLength, fill)` for a one-character fill. */
  function PadStart(s: string, targetLength: int, fill: char): string {
    if |s| < targetLength then Repeat(fill, targetLength - |s|) + s else s
  }

  /** Padding keeps `s` as the tail and fills only up to the target length. */
  lemma PadStartShape(s: string, targetLength: int, fill: char)
    ensures var r := PadStart(s, targetLength, fill);
      && |r| == (if |s| < targetLength then targetLength else |s|)
      && r[|r| - |s|..] == s
      && forall i :: 0 <= i < |r| - |s| ==> r[i] == fill
  {
    var r := PadStart(s, targetLength, fill);
    if |s| < targetLength {
      assert r[|r| - |s|..] == s;
    }
  }

  /** `String(n).padStart(2, "0")` for `n` from 0 to 99: two digits denoting `n`. */
  lemma TwoDigits(n: int)
    requires 0 <= n < 100
    ensures var s := PadStart(NatToString(n), 2, '0');
      |s| == 2 && IsDigits(s) && DecimalValue(s) == n
  {
    NatToStringValue(n);
    var s := PadStart(NatToString(n), 2, '0');
    if n < 10 {
      assert s == ['0'] + NatToString(n);
      assert s[..1] == "0";
    }
  }

  /** The template literal `${year}-${month}-${day}`, with month and day padded to two digits. */
  function FormatParts(year: int, month: nat, day: nat): string {
    IntToString(year) + "-" + PadStart(NatToString(month), 2, '0') + "-" + PadStart(NatToString(day), 2, '0')
  }

  /** `formatDate` on a time value. */
  function FormatTime(t: int): string {
    FormatParts(YearFromTime(t), MonthFromTime(t) + 1, DateFromTime(t))
  }

  /** `formatDate(date)` */
  function FormatDate(date: JsDate): string
    reads date
  {
    FormatTime(date.time)
  }

  /**
   * `s` reads as `year`, `month` and `day`: the year printed before the
   * second-to-last "-", then the month and the day, each as exactly two digits.
   */
  predicate ReadsAs(s: string, year: int, month: int, day: int) {
    var n := |s|;
    && n >= 7 && s[n - 6] == '-' && s[n - 3] == '-'
    && s[..n - 6] == IntToString(year)
    && IsDigits(s[n - 5..n - 3]) && DecimalValue(s[n - 5..n - 3]) == month
    && IsDigits(s[n - 2..]) && DecimalValue(s[n - 2..]) == day
  }

  /** The formatted parts read back as the parts, for a month and day below 100. */
  lemma FormatPartsReadBack(year: int, month: nat, day: nat)
    requires month < 100 && day < 100
    ensures ReadsAs(FormatParts(year, month, day), year, month, day)
  {
    var y := IntToString(year);
    var mm := PadStart(NatToString(month), 2, '0');
    var dd := PadStart(NatToString(day), 2, '0');
    TwoDigits(month);
    TwoDigits(day);
    IntToStringValue(year);
    var s := y + "-" + mm + "-" + dd;
    var n := |s|;
    assert s[..n - 6] == y;
    assert s[n - 5..n - 3] == mm;
    assert s[n - 2..] == dd;
  }

  /** The string `formatDate` gives reads back as the date's year, month (1 to 12) and day of the month. */
  lemma FormatTimeParts(t: int)
    ensures ReadsAs(FormatTime(t), YearFromTime(t), MonthFromTime(t) + 1, DateFromTime(t))
  {
    FormatPartsReadBack(YearFromTime(t), MonthFromTime(t) + 1, DateFromTime(t));
  }

  /** Two strings that read as parts fix the parts. */
  lemma ReadsAsUnique(s: string, y1: int, m1: int, d1: int, y2: int, m2: int, d2: int)
    requires ReadsAs(s, y1, m1, d1) && ReadsAs(s, y2, m2, d2)
    ensures y1 == y2 && m1 == m2 && d1 == d2
  {
    IntToStringValue(y1);
    IntToStringValue(y2);
  }

  /** Two time values format alike exactly when they fall on the same day. */
  lemma FormatTimeSameDay(t1: int, t2: int)
    ensures FormatTime(t1) == FormatTime(t2) <==> Day(t1) == Day(t2)
  {
    if FormatTime(t1) == FormatTime(t2) {
      FormatTimeParts(t1);
      FormatTimeParts(t2);
      ReadsAsUnique(FormatTime(t1), YearFromTime(t1), MonthFromTime(t1) + 1, DateFromTime(t1),
                    YearFromTime(t2), MonthFromTime(t2) + 1, DateFromTime(t2));
      MakeDayOfCivil(Day(t1));
      MakeDayOfCivil(Day(t2));
    }
  }

  // ---------------------------------------------------------------------------
  // RANGE_OPTIONS

  /** What `getStart` subtracts from the end date. */
  datatype Span = Days(days: int) | Months(months: int) | Years(years: int)

  /** An entry of `RANGE_OPTIONS`; `title` is its `label`. */
  datatype RangeOption = RangeOption(key: string, title: string, span: Span)

  /** `RANGE_OPTIONS` */
  const RangeOptions: seq<RangeOption> := [
    RangeOption("7d", "Past Week", Days(7)),
    RangeOption("1m", "Past Month", Months(1)),
    RangeOption("6m", "Past 6 Months", Months(6)),
    RangeOption("1y", "Past Year", Years(1))
  ]

  /** No two options share a key. */
  lemma RangeKeysDistinct()
    ensures forall i, j :: 0 <= i < j < |RangeOptions| ==> RangeOptions[i].key != RangeOptions[j].key
  {
  }

  /** `options.find((option) => option.key === key)`; None is `undefined`. */
  function Find(options: seq<RangeOption>, key: Value): (r: Option<RangeOption>)
    ensures r.Some? <==> exists i :: 0 <= i < |options| && Str(options[i].key) == key
    ensures r.Some? ==> r.value in options && Str(r.value.key) == key
    decreases |options|
  {
    if options == [] then None
    else if Str(options[0].key) == key then Some(options[0])
    else
      var r := Find(options[1..], key);
      assert forall i :: 1 <= i < |options| ==> options[i] == options[1..][i - 1];
      r
  }

  /** The default parameter `fallbackKey = RANGE_OPTIONS[0].key`, taken when the argument is `undefined`. */
  function FallbackKey(fallbackKey: Value): Value {
    if fallbackKey.Undefined? then Str(RangeOptions[0].key) else fallbackKey
  }

  /** Lines 37-40: the option for `rangeKey`, else the one for `fallbackKey`, else the first. */
  function ResolveOption(rangeKey: Value, fallbackKey: Value): RangeOption {
    match Find(RangeOptions, rangeKey)
    case Some(o) => o
    case None =>
      match Find(RangeOptions, FallbackKey(fallbackKey))
      case Some(o) => o
      case None => RangeOptions[0]
  }

  predicate HasKey(key: Value) {
    exists i :: 0 <= i < |RangeOptions| && Str(RangeOptions[i].key) == key
  }

  /**
   * The range key wins when some option has it; otherwise the fallback key
   * (by default "7d") when some option has that; otherwise the "7d" option.
   */
  lemma ResolveOptionChain(rangeKey: Value, fallbackKey: Value)
    ensures var o := ResolveOption(rangeKey, fallbackKey);
      && o in RangeOptions
      && (HasKey(rangeKey) ==> Str(o.key) == rangeKey)
      && (!HasKey(rangeKey) && HasKey(FallbackKey(fallbackKey)) ==> Str(o.key) == FallbackKey(fallbackKey))
      && (!HasKey(rangeKey) && !HasKey(FallbackKey(fallbackKey)) ==> o == RangeOptions[0])
  {
  }

  /** Without a usable key the range is the past week. */
  lemma ResolveUnknownKey(rangeKey: Value)
    requires !HasKey(rangeKey)
    ensures ResolveOption(rangeKey, Undefined).key == "7d"
  {
  }

  // ---------------------------------------------------------------------------
  // Range starts

  /** How far `getStart` moves the end date's year back. */
  function YearsBack(span: Span): int {
    if span.Years? then span.years else 0
  }

  /** How far `getStart` moves the end date's month back. */
  function MonthsBack(span: Span): int {
    if span.Months? then span.months else 0
  }

  /** How far `getStart` moves the end date's day of the month back: `days - 1` for a span of days. */
  function DaysBack(span: Span): int {
    if span.Days? then span.days - 1 else 0
  }

  /** The time value `option.getStart(end)` returns, before its hours are cleared. */
  function StartOf(span: Span, endTime: int): int {
    MovedBack(endTime, YearsBack(span), MonthsBack(span), DaysBack(span))
  }

  /** A span that reaches back at least one day: over two days, or a month or more, or a year or more. */
  predicate ReachesBack(span: Span) {
    match span
    case Days(n) => n >= 2
    case Months(n) => n >= 1
    case Years(n) => n >= 1
  }

  lemma OptionsReachBack()
    ensures forall i :: 0 <= i < |RangeOptions| ==> ReachesBack(RangeOptions[i].span)
  {
  }

  /** A span of `n` days starts exactly `n - 1` days earlier. */
  lemma DaysStartExact(n: int, endTime: int)
    ensures StartOf(Days(n), endTime) == endTime - (n - 1) * MsPerDay
  {
    DaysBackExact(endTime, n - 1);
  }

  /** A span of `n >= 0` months starts at least 28 days per month earlier. */
  lemma MonthsStartEarlier(n: int, endTime: int)
    requires n >= 0
    ensures StartOf(Months(n), endTime) + 28 * n * MsPerDay <= endTime
  {
    MonthsBackBound(endTime, n);
  }

  /** A span of `n >= 0` years is a span of `12 * n` months, so it starts at least 336 days per year earlier. */
  lemma YearsStartEarlier(n: int, endTime: int)
    requires n >= 0
    ensures StartOf(Years(n), endTime) == StartOf(Months(12 * n), endTime)
    ensures StartOf(Years(n), endTime) + 336 * n * MsPerDay <= endTime
  {
    YearsAreMonthsBack(endTime, n);
    MonthsBackBound(endTime, 12 * n);
    var m := 12 * n;
    assert 28 * m == 336 * n;
  }

  /**
   * From a midnight end, the start's midnight is a whole number of days
   * earlier and strictly before the end; a span of `n` days starts exactly
   * `n - 1` days before.
   */
  lemma StartBeforeEnd(span: Span, endTime: int)
    requires endTime % MsPerDay == 0 && ReachesBack(span)
    ensures AtMidnight(StartOf(span, endTime)) % MsPerDay == 0
    ensures AtMidnight(StartOf(span, endTime)) < endTime
    ensures span.Days? ==> AtMidnight(StartOf(span, endTime)) == endTime - (span.days - 1) * MsPerDay
  {
    var s := StartOf(span, endTime);
    AtMidnightFacts(s);
    match span
    case Days(n) =>
      DaysStartExact(n, endTime);
      WholeDaysBack(endTime, n - 1);
      WholeDaysBack(s, 0);
    case Months(n) =>
      MonthsStartEarlier(n, endTime);
      assert 28 * n * MsPerDay > 0;
    case Years(n) =>
      YearsStartEarlier(n, endTime);
      assert 336 * n * MsPerDay > 0;
  }

  // ---------------------------------------------------------------------------
  // The helpers and resolveDateRange

  /** `subtractDaysInclusive(endDate, days)`: a copy of `endDate`, `days - 1` days earlier. */
  method SubtractDaysInclusive(endDate: JsDate, days: int) returns (start: JsDate)
    ensures fresh(start)
    ensures start.time == StartOf(Days(days), endDate.time)
  {
    ghost var t := endDate.time;
    start := new JsDate(endDate.time);
    var date := start.GetDate() - (days - 1);
    assert date == DateFromTime(t) - (days - 1);
    start.SetDate(date);
    assert start.time == StartOf(Days(days), t) by {
      SetDateMovesBack(t, days - 1);
      assert StartOf(Days(days), t) == MovedBack(t, 0, 0, days - 1);
    }
  }

  /** `subtractMonths(endDate, months)`: a copy of `endDate` with its month moved back. */
  method SubtractMonths(endDate: JsDate, months: int) returns (start: JsDate)
    ensures fresh(start)
    ensures start.time == StartOf(Months(months), endDate.time)
  {
    ghost var t := endDate.time;
    start := new JsDate(endDate.time);
    start.SetMonth(start.GetMonth() - months);
    assert start.time == StartOf(Months(months), t) by {
      assert start.time == WithMonth(t, MonthFromTime(t) - months);
      SetMonthMovesBack(t, months);
      assert StartOf(Months(months), t) == MovedBack(t, 0, months, 0);
    }
  }

  /** `subtractYears(endDate, years)`: a copy of `endDate` with its year moved back. */
  method SubtractYears(endDate: JsDate, years: int) returns (start: JsDate)
    ensures fresh(start)
    ensures start.time == StartOf(Years(years), endDate.time)
  {
    ghost var t := endDate.time;
    start := new JsDate(endDate.time);
    start.SetFullYear(start.GetFullYear() - years);
    assert start.time == StartOf(Years(years), t) by {
      assert start.time == WithFullYear(t, YearFromTime(t) - years);
      SetFullYearMovesBack(t, years);
      assert StartOf(Years(years), t) == MovedBack(t, years, 0, 0);
    }
  }

  /** `option.getStart(end)` */
  method GetStart(option: RangeOption, endDate: JsDate) returns (start: JsDate)
    ensures fresh(start)
    ensures start.time == StartOf(option.span, endDate.time)
  {
    match option.span
    case Days(n) => start := SubtractDaysInclusive(endDate, n);
    case Months(n) => start := SubtractMonths(endDate, n);
    case Years(n) => start := SubtractYears(endDate, n);
  }

  /** `resolveDateRange(rangeKey, fallbackKey)` at time `now`. */
  method ResolveDateRange(now: int, rangeKey: Value, fallbackKey: Value) returns (start: JsDate, end: JsDate)
    ensures fresh(start) && fresh(end) && start != end
    ensures end.time == AtMidnight(now)
    ensures start.time == AtMidnight(StartOf(ResolveOption(rangeKey, fallbackKey).span, end.time))
    ensures start.time % MsPerDay == 0 && end.time % MsPerDay == 0
    ensures start.time < end.time
    ensures ResolveOption(rangeKey, fallbackKey).key == "7d" ==> start.time == end.time - 6 * MsPerDay
  {
    var today := new JsDate(now);
    today.SetHoursToMidnight();
    end := new JsDate(today.time);
    var rangeOption := ResolveOption(rangeKey, fallbackKey);
    start := GetStart(rangeOption, end);
    start.SetHoursToMidnight();
    AtMidnightFacts(now);
    ResolveOptionChain(rangeKey, fallbackKey);
    OptionsReachBack();
    StartBeforeEnd(rangeOption.span, end.time);
  }
}
