/** PixelMEDIA.PixelCore.Helpers.DateHelper: the calendar helpers over
    System.DateTime, which is a proleptic Gregorian date in the years 1 to
    9999 with a time of day. The model keeps the time to the second. */
module DateHelper {
  import opened Wrappers
  import opened Int32

  const MinYear := 1
  const MaxYear := 9999

  /** The Gregorian rule: divisible by 4, and not by 100 unless by 400. */
  predicate IsLeap(year: int) {
    year % 4 == 0 && (year % 100 != 0 || year % 400 == 0)
  }

  function DaysInMonth(year: int, month: int): (r: int)
    requires 1 <= month <= 12
    ensures 28 <= r <= 31
  {
    if month == 2 then (if IsLeap(year) then 29 else 28)
    else if month == 4 || month == 6 || month == 9 || month == 11 then 30
    else 31
  }

  datatype DateTime = DateTime(year: int, month: int, day: int, hour: int, minute: int, second: int)

  /** The values a System.DateTime can hold. */
  predicate Valid(d: DateTime) {
    && MinYear <= d.year <= MaxYear
    && 1 <= d.month <= 12
    && 1 <= d.day <= DaysInMonth(d.year, d.month)
    && 0 <= d.hour < 24 && 0 <= d.minute < 60 && 0 <= d.second < 60
  }

  predicate SameTimeOfDay(a: DateTime, b: DateTime) {
    a.hour == b.hour && a.minute == b.minute && a.second == b.second
  }

  /** new DateTime(year, month, day, hour, minute, second): the date, or the
      ArgumentOutOfRangeException thrown for a component out of range. */
  function New(year: int, month: int, day: int, hour: int, minute: int, second: int): (r: Result<DateTime>)
    ensures r.Ok? <==> Valid(DateTime(year, month, day, hour, minute, second))
    ensures r.Ok? ==> r.value == DateTime(year, month, day, hour, minute, second)
    ensures r.Err? ==> r.fault == ArgumentOutOfRange
  {
    var d := DateTime(year, month, day, hour, minute, second);
    if Valid(d) then Ok(d) else Err(ArgumentOutOfRange)
  }

  // ---- Day numbers: days since 1 January of the year 1 ----

  function YearLength(year: int): int {
    if IsLeap(year) then 366 else 365
  }

  function DaysBeforeYear(year: int): (r: nat)
    requires year >= 1
    ensures year > 1 ==> r > 0
  {
    if year == 1 then 0 else DaysBeforeYear(year - 1) + YearLength(year - 1)
  }

  function DaysBeforeMonth(year: int, month: int): (r: nat)
    requires 1 <= month <= 13
    ensures month > 1 ==> r > 0
  {
    if month == 1 then 0 else DaysBeforeMonth(year, month - 1) + DaysInMonth(year, month - 1)
  }

  /** The position of d's date on the calendar; the time of day is ignored. */
  function DayNumber(d: DateTime): nat
    requires Valid(d)
  {
    DaysBeforeYear(d.year) + DaysBeforeMonth(d.year, d.month) + d.day - 1
  }

  /** The day number of 31 December 9999, the last date there is. */
  function MaxDayNumber(): int {
    DaysBeforeYear(MaxYear + 1) - 1
  }

  /** The twelve months make up the year. */
  lemma MonthsFillYear(year: int)
    ensures DaysBeforeMonth(year, 13) == YearLength(year)
  {
    var f := DaysInMonth(year, 2);
    assert DaysBeforeMonth(year, 2) == 31;
    assert DaysBeforeMonth(year, 3) == 31 + f;
    assert DaysBeforeMonth(year, 4) == 62 + f;
    assert DaysBeforeMonth(year, 5) == 92 + f;
    assert DaysBeforeMonth(year, 6) == 123 + f;
    assert DaysBeforeMonth(year, 7) == 153 + f;
    assert DaysBeforeMonth(year, 8) == 184 + f;
    assert DaysBeforeMonth(year, 9) == 215 + f;
    assert DaysBeforeMonth(year, 10) == 245 + f;
    assert DaysBeforeMonth(year, 11) == 276 + f;
    assert DaysBeforeMonth(year, 12) == 306 + f;
  }

  lemma {:induction false} DaysBeforeMonthMonotone(year: int, m: int, m': int)
    requires 1 <= m <= m' <= 13
    ensures DaysBeforeMonth(year, m) <= DaysBeforeMonth(year, m')
    decreases m' - m
  {
    if m < m' {
      DaysBeforeMonthMonotone(year, m, m' - 1);
    }
  }

  lemma {:induction false} DaysBeforeYearMonotone(y: int, y': int)
    requires 1 <= y <= y'
    ensures DaysBeforeYear(y) <= DaysBeforeYear(y')
    decreases y' - y
  {
    if y < y' {
      DaysBeforeYearMonotone(y, y' - 1);
    }
  }

  /** A date's day number lies within its year, and within its month. */
  lemma DayNumberInYear(d: DateTime)
    requires Valid(d)
    ensures DaysBeforeYear(d.year) <= DayNumber(d) < DaysBeforeYear(d.year + 1)
    ensures DaysBeforeMonth(d.year, d.month) + d.day <= DaysBeforeMonth(d.year, d.month + 1)
  {
    MonthsFillYear(d.year);
    DaysBeforeMonthMonotone(d.year, d.month + 1, 13);
  }

  /** Every date's day number is between 0 and MaxDayNumber(). */
  lemma DayNumberBound(d: DateTime)
    requires Valid(d)
    ensures 0 <= DayNumber(d) <= MaxDayNumber()
  {
    DayNumberInYear(d);
    DaysBeforeYearMonotone(d.year + 1, MaxYear + 1);
  }

  /** The day number fixes the date: two dates with the same day number and
      time of day are equal. */
  lemma DayNumberInjective(a: DateTime, b: DateTime)
    requires Valid(a) && Valid(b) && SameTimeOfDay(a, b)
    requires DayNumber(a) == DayNumber(b)
    ensures a == b
  {
    DayNumberInYear(a);
    DayNumberInYear(b);
    if a.year < b.year {
      DaysBeforeYearMonotone(a.year + 1, b.year);
    } else if b.year < a.year {
      DaysBeforeYearMonotone(b.year + 1, a.year);
    } else if a.month < b.month {
      DaysBeforeMonthMonotone(a.year, a.month + 1, b.month);
    } else if b.month < a.month {
      DaysBeforeMonthMonotone(a.year, b.month + 1, a.month);
    }
  }

  // ---- Moving by days ----

  /** The next date at the same time of day, if there is one. */
  function NextDay(d: DateTime): (r: Option<DateTime>)
    requires Valid(d)
    ensures r.Some? ==> Valid(r.value) && SameTimeOfDay(r.value, d) && DayNumber(r.value) == DayNumber(d) + 1
    ensures r.None? <==> DayNumber(d) == MaxDayNumber()
  {
    if d.day < DaysInMonth(d.year, d.month) then
      var e := d.(day := d.day + 1);
      DayNumberBound(e);
      Some(e)
    else if d.month < 12 then
      var e := d.(month := d.month + 1, day := 1);
      DayNumberBound(e);
      Some(e)
    else if d.year < MaxYear then
      var e := d.(year := d.year + 1, month := 1, day := 1);
      NewYearStep(d);
      DayNumberBound(e);
      Some(e)
    else
      NewYearStep(d);
      None
  }

  /** 31 December is the day before the first day of the next year. */
  lemma NewYearStep(d: DateTime)
    requires Valid(d) && d.month == 12 && d.day == DaysInMonth(d.year, d.month)
    ensures DayNumber(d) + 1 == DaysBeforeYear(d.year + 1)
  {
    MonthsFillYear(d.year);
  }

  /** The previous date at the same time of day, if there is one. */
  function PrevDay(d: DateTime): (r: Option<DateTime>)
    requires Valid(d)
    ensures r.Some? ==> Valid(r.value) && SameTimeOfDay(r.value, d) && DayNumber(r.value) == DayNumber(d) - 1
    ensures r.None? <==> DayNumber(d) == 0
  {
    if d.day > 1 then Some(d.(day := d.day - 1))
    else if d.month > 1 then Some(d.(month := d.month - 1, day := DaysInMonth(d.year, d.month - 1)))
    else if d.year > MinYear then
      MonthsFillYear(d.year - 1);
      Some(d.(year := d.year - 1, month := 12, day := 31))
    else None
  }

  /** DateTime.AddDays(n) for a whole number of days: the date n days away at
      the same time of day, or ArgumentOutOfRangeException when that date is
      outside the years 1 to 9999. */
  function AddDays(d: DateTime, n: int): (r: Result<DateTime>)
    requires Valid(d)
    ensures r.Ok? <==> 0 <= DayNumber(d) + n <= MaxDayNumber()
    ensures r.Ok? ==> Valid(r.value) && SameTimeOfDay(r.value, d) && DayNumber(r.value) == DayNumber(d) + n
    ensures r.Err? ==> r.fault == ArgumentOutOfRange
    decreases if n < 0 then -n else n
  {
    DayNumberBound(d);
    if n == 0 then Ok(d)
    else if n > 0 then
      match NextDay(d)
      case None => Err(ArgumentOutOfRange)
      case Some(e) => AddDays(e, n - 1)
    else
      match PrevDay(d)
      case None => Err(ArgumentOutOfRange)
      case Some(e) => AddDays(e, n + 1)
  }

  // ---- The helpers ----

  /** FirstDayOfYear(y): new DateTime(y.Year, 1, 1). */
  function FirstDayOfYear(d: DateTime): (r: DateTime)
    requires Valid(d)
    ensures Valid(r)
  {
    DateTime(d.year, 1, 1, 0, 0, 0)
  }

  /** The first day of the year is midnight of the earliest date in d's year. */
  lemma FirstDayOfYearIsFirst(d: DateTime)
    requires Valid(d)
    ensures var r := FirstDayOfYear(d);
            && r.year == d.year && r.hour == 0 && r.minute == 0 && r.second == 0
            && DayNumber(r) <= DayNumber(d) < DayNumber(r) + YearLength(d.year)
            && (PrevDay(r).Some? ==> PrevDay(r).value.year == d.year - 1)
  {
    DayNumberInYear(d);
  }

  /** LastDayOfYear(d): one day before new DateTime(d.Year + 1, 1, 1), which
      throws for the year 9999. */
  function LastDayOfYear(d: DateTime): (r: Result<DateTime>)
    requires Valid(d)
    ensures r.Err? <==> d.year == MaxYear
    ensures r.Err? ==> r.fault == ArgumentOutOfRange
    ensures d.year < MaxYear ==> && r.Ok? && Valid(r.value) && SameTimeOfDay(r.value, DateTime(d.year + 1, 1, 1, 0, 0, 0))
                                 && DayNumber(r.value) + 1 == DayNumber(DateTime(d.year + 1, 1, 1, 0, 0, 0))
  {
    match New(d.year + 1, 1, 1, 0, 0, 0)
    case Err(f) => Err(f)
    case Ok(n) => AddDays(n, -1)
  }

  /** LastDayOfYear is 31 December of d's year at midnight, the latest date of
      that year; it fails exactly for the year 9999. */
  lemma LastDayOfYearIsLast(d: DateTime)
    requires Valid(d)
    ensures var r := LastDayOfYear(d);
            && (r.Err? <==> d.year == MaxYear)
            && (r.Err? ==> r.fault == ArgumentOutOfRange)
            && (r.Ok? ==> && r.value == DateTime(d.year, 12, 31, 0, 0, 0)
                          && DayNumber(d) <= DayNumber(r.value)
                          && (NextDay(r.value).Some? ==> NextDay(r.value).value.year == d.year + 1))
  {
    if d.year < MaxYear {
      var n := DateTime(d.year + 1, 1, 1, 0, 0, 0);
      var r := LastDayOfYear(d);
      DayNumberInYear(d);
      assert AddDays(n, -1) == AddDays(PrevDay(n).value, 0);
      assert r.value == PrevDay(n).value;
    }
  }

  /** StartOfMonth(d): new DateTime(d.Year, d.Month, 1). */
  function StartOfMonth(d: DateTime): (r: DateTime)
    requires Valid(d)
    ensures Valid(r)
  {
    DateTime(d.year, d.month, 1, 0, 0, 0)
  }

  /** StartOfMonth is midnight of the first date of d's month: the same year and
      month, d.Day - 1 days before d. */
  lemma StartOfMonthIsFirst(d: DateTime)
    requires Valid(d)
    ensures var r := StartOfMonth(d);
            && r.year == d.year && r.month == d.month && r.hour == 0 && r.minute == 0 && r.second == 0
            && DayNumber(d) - DayNumber(r) == d.day - 1
            && (PrevDay(r).Some? ==> PrevDay(r).value.month != d.month)
  {
  }

  /** EndOfMonth(d): one day before new DateTime(d.Year, d.Month + 1, 1, 23,
      59, 59), which throws for December because there is no month 13. */
  function EndOfMonth(d: DateTime): (r: Result<DateTime>)
    requires Valid(d)
    ensures r.Err? <==> d.month == 12
    ensures r.Err? ==> r.fault == ArgumentOutOfRange
    ensures d.month < 12 ==> && r.Ok? && Valid(r.value) && SameTimeOfDay(r.value, DateTime(d.year, d.month + 1, 1, 23, 59, 59))
                             && DayNumber(r.value) + 1 == DayNumber(DateTime(d.year, d.month + 1, 1, 23, 59, 59))
  {
    match New(d.year, d.month + 1, 1, 23, 59, 59)
    case Err(f) => Err(f)
    case Ok(n) => AddDays(n, -1)
  }

  /** For January to November, EndOfMonth is the last date of d's month at
      23:59:59; for December it fails. */
  lemma EndOfMonthIsLast(d: DateTime)
    requires Valid(d)
    ensures var r := EndOfMonth(d);
            && (r.Err? <==> d.month == 12)
            && (r.Err? ==> r.fault == ArgumentOutOfRange)
            && (r.Ok? ==> && r.value == DateTime(d.year, d.month, DaysInMonth(d.year, d.month), 23, 59, 59)
                          && d.day <= r.value.day
                          && NextDay(r.value).Some? && NextDay(r.value).value.month == d.month + 1)
  {
    if d.month < 12 {
      var n := DateTime(d.year, d.month + 1, 1, 23, 59, 59);
      assert AddDays(n, -1) == AddDays(PrevDay(n).value, 0);
    }
  }

  /** The end of the month EndOfMonth evidently means: the first of d's month
      at 23:59:59, moved on to the month's last day. Unlike EndOfMonth it
      never builds a month 13, so December is covered too. */
  function EndOfMonthIntended(d: DateTime): (r: Result<DateTime>)
    requires Valid(d)
  {
    AddDays(DateTime(d.year, d.month, 1, 23, 59, 59), DaysInMonth(d.year, d.month) - 1)
  }

  /** The intended end of the month is always defined, is the last date of d's
      month at 23:59:59, and agrees with EndOfMonth wherever that is defined. */
  lemma EndOfMonthIntendedIsLast(d: DateTime)
    requires Valid(d)
    ensures var r := EndOfMonthIntended(d);
            && r == Ok(DateTime(d.year, d.month, DaysInMonth(d.year, d.month), 23, 59, 59))
            && d.day <= r.value.day
            && (NextDay(r.value).Some? ==> NextDay(r.value).value.month != d.month)
            && (d.month < 12 ==> EndOfMonth(d) == r)
  {
    var last := DateTime(d.year, d.month, DaysInMonth(d.year, d.month), 23, 59, 59);
    DayNumberBound(last);
    var r := EndOfMonthIntended(d);
    DayNumberInjective(r.value, last);
    EndOfMonthIsLast(d);
  }

  /** EndOfMonth as written fails for every December date, where the intended
      end of the month is 31 December. */
  lemma EndOfMonthDecemberFails()
    ensures EndOfMonth(DateTime(2024, 12, 15, 0, 0, 0)).Err?
    ensures EndOfMonthIntended(DateTime(2024, 12, 15, 0, 0, 0)) == Ok(DateTime(2024, 12, 31, 23, 59, 59))
  {
    EndOfMonthIntendedIsLast(DateTime(2024, 12, 15, 0, 0, 0));
  }

  /** DateHelper.IsLeapYear(year), that is DateTime.IsLeapYear, which throws
      ArgumentOutOfRangeException outside the years 1 to 9999. */
  function IsLeapYear(year: Int32): (r: Result<bool>)
    ensures r.Ok? <==> MinYear <= year <= MaxYear
    ensures r.Err? ==> r.fault == ArgumentOutOfRange
  {
    if year < MinYear || year > MaxYear then Err(ArgumentOutOfRange) else Ok(IsLeap(year))
  }

  /** A year is a leap year exactly when it has a 29 February, and then it has
      366 days. */
  lemma LeapYearHasFebruary29(year: Int32)
    requires MinYear <= year <= MaxYear
    ensures IsLeapYear(year) == Ok(true) <==> New(year, 2, 29, 0, 0, 0).Ok?
    ensures IsLeapYear(year) == Ok(true) <==> DaysBeforeMonth(year, 13) == 366
  {
    MonthsFillYear(year);
  }

  /** The leap-year rule repeats every 400 years. */
  lemma LeapYearPeriod(year: Int32)
    requires MinYear <= year && year + 400 <= MaxYear
    ensures IsLeapYear(year) == IsLeapYear(year + 400)
  {
  }

  /** The Gregorian exceptions: 1900 is not a leap year, 2000 and 2024 are. */
  lemma LeapYearExamples()
    ensures IsLeapYear(1900) == Ok(false) && IsLeapYear(2000) == Ok(true) && IsLeapYear(2024) == Ok(true)
    ensures IsLeapYear(0).Err? && IsLeapYear(10000).Err?
  {
  }

  /** days[j] is start moved by j days, for every j. */
  predicate ConsecutiveFrom(start: DateTime, days: seq<DateTime>)
    requires Valid(start)
  {
    forall j :: 0 <= j < |days| ==>
      Valid(days[j]) && SameTimeOfDay(days[j], start) && DayNumber(days[j]) == DayNumber(start) + j
  }

  /** GetDaysInRangeInclusive(startDate, endDate) with dayCount, the whole-day
      difference GetDaysDifference computes, as input: startDate.AddDays(i)
      for i from 0 to dayCount, or the exception the first AddDays past
      31 December 9999 throws. */
  method GetDaysInRangeInclusive(startDate: DateTime, dayCount: Int32) returns (r: Result<seq<DateTime>>)
    requires Valid(startDate)
    ensures r.Ok? <==> dayCount < 0 || DayNumber(startDate) + dayCount <= MaxDayNumber()
    ensures r.Err? ==> r.fault == ArgumentOutOfRange
    ensures r.Ok? ==> |r.value| == (if dayCount < 0 then 0 else dayCount + 1)
    ensures r.Ok? ==> ConsecutiveFrom(startDate, r.value)
  {
    DayNumberBound(startDate);
    var days: seq<DateTime> := [];
    var i := 0;
    while i <= dayCount
      invariant 0 <= i && (dayCount >= 0 ==> i <= dayCount + 1) && (dayCount < 0 ==> i == 0)
      invariant |days| == i
      invariant DayNumber(startDate) + i - 1 <= MaxDayNumber()
      invariant ConsecutiveFrom(startDate, days)
    {
      var next := AddDays(startDate, i);
      if next.Err? {
        return Err(next.fault);
      }
      days := days + [next.value];
      i := i + 1;
    }
    return Ok(days);
  }

  /** A consecutive run starts at start and each entry is the next day of the
      one before. */
  lemma ConsecutiveSteps(start: DateTime, days: seq<DateTime>)
    requires Valid(start) && ConsecutiveFrom(start, days) && days != []
    ensures days[0] == start
    ensures forall j :: 0 <= j < |days| - 1 ==> NextDay(days[j]) == Some(days[j + 1])
  {
    DayNumberInjective(days[0], start);
    forall j | 0 <= j < |days| - 1 ensures NextDay(days[j]) == Some(days[j + 1]) {
      DayNumberBound(days[j + 1]);
      DayNumberInjective(NextDay(days[j]).value, days[j + 1]);
    }
  }
}
