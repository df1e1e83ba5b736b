/**
 * The parts of Python's `datetime`, `calendar` and `dateutil.relativedelta`
 * that the progress calculator relies on: the proleptic Gregorian calendar,
 * ordinal day numbers, subtraction of naive datetimes (which yields a
 * normalised timedelta) and the addition of whole calendar years.
 */
module Calendar {
  import opened Wrappers
  import Arith

  /** A calendar date, as Python's `date`. */
  datatype Date = Date(year: int, month: int, day: int)

  /** A time of day, as Python's `time`; microseconds play no part in the model. */
  datatype Time = Time(hour: int, minute: int, second: int)

  /** A naive local datetime: its `date()` and its `time()`. */
  datatype DateTime = DateTime(date: Date, time: Time)

  /** Python's timedelta, normalised so that 0 <= seconds < 86400. */
  datatype TimeDelta = TimeDelta(days: int, seconds: int)

  const MinYear := 1
  const MaxYear := 9999

  /** Number of days of each month, January first, in a common year. */
  const MonthTable: seq<int> := [31, 28, 31, 30, 31, 30, 31, 31, 30, 31, 30, 31]

  /** The Gregorian leap-year rule (calendar.isleap). */
  predicate IsLeapYear(y: int) {
    y % 4 == 0 && (y % 100 != 0 || y % 400 == 0)
  }

  /** 366 for a leap year and 365 otherwise. */
  function DaysInYear(y: int): (n: int)
    ensures n == 365 || n == 366
    ensures n == 366 <==> IsLeapYear(y)
  {
    365 + if IsLeapYear(y) then 1 else 0
  }

  /** The length of month `m` of year `y` (calendar.monthrange(y, m)[1]). */
  function DaysInMonth(y: int, m: int): (n: int)
    requires 1 <= m <= 12
    ensures 28 <= n <= 31
    ensures n == 29 <==> m == 2 && IsLeapYear(y)
  {
    MonthTable[m - 1] + if m == 2 && IsLeapYear(y) then 1 else 0
  }

  /** Days in the months of year `y` before month `m`; `m == 13` covers the whole year. */
  function DaysBeforeMonth(y: int, m: int): (n: int)
    requires 1 <= m <= 13
    ensures 28 * (m - 1) <= n <= 31 * (m - 1)
  {
    if m == 1 then 0 else DaysBeforeMonth(y, m - 1) + DaysInMonth(y, m - 1)
  }

  /** Days in the years 1 .. y-1 of the proleptic Gregorian calendar. */
  function DaysBeforeYear(y: int): int
    decreases y
  {
    if y <= MinYear then 0 else DaysBeforeYear(y - 1) + DaysInYear(y - 1)
  }

  predicate ValidDate(y: int, m: int, d: int) {
    MinYear <= y <= MaxYear && 1 <= m <= 12 && 1 <= d <= DaysInMonth(y, m)
  }

  /** What Python's datetime constructor accepts. */
  predicate Valid(t: DateTime) {
    ValidDate(t.date.year, t.date.month, t.date.day)
    && 0 <= t.time.hour < 24 && 0 <= t.time.minute < 60 && 0 <= t.time.second < 60
  }

  /** The 1-based ordinal day within the year. */
  function DayOfYear(y: int, m: int, d: int): int
    requires 1 <= m <= 12
  {
    DaysBeforeMonth(y, m) + d
  }

  /**
   * date.toordinal(): 0001-01-01 is day 1. From year 1 on it agrees with
   * the closed form datetime's `_ymd2ord` uses.
   */
  function Ordinal(t: DateTime): (n: int)
    requires 1 <= t.date.month <= 12
    ensures var y := t.date.year - 1;
      t.date.year >= MinYear ==>
        n == 365 * y + y / 4 - y / 100 + y / 400 + DayOfYear(t.date.year, t.date.month, t.date.day)
  {
    if t.date.year >= MinYear then
      DaysBeforeYearClosedForm(t.date.year);
      DaysBeforeYear(t.date.year) + DayOfYear(t.date.year, t.date.month, t.date.day)
    else
      DaysBeforeYear(t.date.year) + DayOfYear(t.date.year, t.date.month, t.date.day)
  }

  function SecondOfDay(t: DateTime): int {
    (t.time.hour * 60 + t.time.minute) * 60 + t.time.second
  }

  /**
   * The timedelta constructor's normalisation: carry whole days out of the
   * seconds so that 0 <= seconds < 86400, keeping the total duration.
   */
  function Normalize(days: int, seconds: int): (r: TimeDelta)
    ensures 0 <= r.seconds < 86400
    ensures r.days * 86400 + r.seconds == days * 86400 + seconds
  {
    TimeDelta(days + seconds / 86400, seconds % 86400)
  }

  /**
   * `a - b` for naive datetimes: the difference of the ordinals in days and
   * of the times of day in seconds, normalised.
   */
  function Sub(a: DateTime, b: DateTime): (r: TimeDelta)
    requires 1 <= a.date.month <= 12 && 1 <= b.date.month <= 12
    ensures 0 <= r.seconds < 86400
    ensures r.days * 86400 + r.seconds == (Ordinal(a) - Ordinal(b)) * 86400 + SecondOfDay(a) - SecondOfDay(b)
  {
    Normalize(Ordinal(a) - Ordinal(b), SecondOfDay(a) - SecondOfDay(b))
  }

  /** The midnight that starts the day of `t`. */
  function Midnight(t: DateTime): DateTime {
    DateTime(t.date, Time(0, 0, 0))
  }

  /**
   * `t + relativedelta(years=n)`: move to year `t.date.year + n`, clamp the day to
   * that month's length, and fail when the year leaves Python's range.
   */
  function AddYears(t: DateTime, n: int): (r: Result<DateTime, ()>)
    requires Valid(t)
    ensures r.Ok? <==> MinYear <= t.date.year + n <= MaxYear
    ensures r.Ok? ==> Valid(r.value) && r.value.date.year == t.date.year + n && r.value.date.month == t.date.month
    ensures r.Ok? ==> r.value.date.day <= t.date.day
    ensures r.Ok? ==> (r.value.date.day == t.date.day <==> t.date.day <= DaysInMonth(t.date.year + n, t.date.month))
    ensures r.Ok? && t.date.day > DaysInMonth(t.date.year + n, t.date.month) ==>
      r.value.date.day == DaysInMonth(t.date.year + n, t.date.month)
    ensures n == 0 ==> r == Ok(t)
    ensures r.Ok? ==> r.value.time == t.time
  {
    var year := t.date.year + n;
    if year < MinYear || year > MaxYear then Err(())
    else
      var monthEnd := DaysInMonth(year, t.date.month);
      var day := if t.date.day < monthEnd then t.date.day else monthEnd;
      Ok(DateTime(Date(year, t.date.month, day), t.time))
  }

  // ---------------------------------------------------------------------------
  // Properties of the calendar
  // ---------------------------------------------------------------------------

  /**
   * The closed form Python's datetime uses for the days before year `y`
   * agrees with adding up the lengths of the years 1 .. y-1.
   */
  lemma {:induction false} DaysBeforeYearClosedForm(y: int)
    requires y >= MinYear
    ensures var n := y - 1; DaysBeforeYear(y) == 365 * n + n / 4 - n / 100 + n / 400
    decreases y
  {
    if y > MinYear {
      DaysBeforeYearClosedForm(y - 1);
      var n := y - 2;
      Arith.DivStep(n, 4);
      Arith.DivStep(n, 100);
      Arith.DivStep(n, 400);
      Arith.LeapDivisors(n + 1);
    }
  }

  /** The year's length is the sum of the month table (leap day included). */
  lemma {:induction false} MonthsFillYear(y: int)
    ensures DaysBeforeMonth(y, 13) == DaysInYear(y)
  {
    var feb := DaysInMonth(y, 2);
    assert DaysBeforeMonth(y, 2) == 31;
    assert DaysBeforeMonth(y, 3) == 31 + feb;
    assert DaysBeforeMonth(y, 4) == 62 + feb;
    assert DaysBeforeMonth(y, 5) == 92 + feb;
    assert DaysBeforeMonth(y, 6) == 123 + feb;
    assert DaysBeforeMonth(y, 7) == 153 + feb;
    assert DaysBeforeMonth(y, 8) == 184 + feb;
    assert DaysBeforeMonth(y, 9) == 215 + feb;
    assert DaysBeforeMonth(y, 10) == 245 + feb;
    assert DaysBeforeMonth(y, 11) == 276 + feb;
    assert DaysBeforeMonth(y, 12) == 306 + feb;
  }

  /** Months are contiguous: the last day of one month is just before the first day of the next. */
  lemma DayOfYearBounds(y: int, m: int, d: int)
    requires 1 <= m <= 12 && 1 <= d <= DaysInMonth(y, m)
    ensures DaysBeforeMonth(y, m) < DayOfYear(y, m, d) <= DaysBeforeMonth(y, m + 1)
  {
  }

  /** Each later month starts at least 28 days after an earlier one. */
  lemma {:induction false} DaysBeforeMonthGrows(y: int, m1: int, m2: int)
    requires 1 <= m1 <= m2 <= 13
    ensures DaysBeforeMonth(y, m1) + 28 * (m2 - m1) <= DaysBeforeMonth(y, m2)
    decreases m2 - m1
  {
    if m1 < m2 {
      DaysBeforeMonthGrows(y, m1, m2 - 1);
    }
  }

  /**
   * The ordinal day of a valid date lies in 1 .. DaysInYear(y); it is 1 on
   * January 1 only and DaysInYear(y) on December 31 only.
   */
  lemma DayOfYearRange(y: int, m: int, d: int)
    requires 1 <= m <= 12 && 1 <= d <= DaysInMonth(y, m)
    ensures 1 <= DayOfYear(y, m, d) <= DaysInYear(y)
    ensures DayOfYear(y, m, d) == 1 <==> m == 1 && d == 1
    ensures DayOfYear(y, m, d) == DaysInYear(y) <==> m == 12 && d == 31
  {
    MonthsFillYear(y);
    DayOfYearBounds(y, m, d);
    DaysBeforeMonthGrows(y, 1, m);
    DaysBeforeMonthGrows(y, m + 1, 13);
    if m == 12 {
      assert DaysBeforeMonth(y, 13) == DaysBeforeMonth(y, 12) + 31;
    }
  }

  /** Total length of the `n` consecutive years starting with year `y`. */
  function YearsSpan(y: int, n: nat): int
    decreases n
  {
    if n == 0 then 0 else DaysInYear(y) + YearsSpan(y + 1, n - 1)
  }

  lemma {:induction false} YearsSpanBounds(y: int, n: nat)
    ensures 365 * n <= YearsSpan(y, n) <= 366 * n
    decreases n
  {
    if n > 0 {
      YearsSpanBounds(y + 1, n - 1);
    }
  }

  /** Between two years in Python's range, DaysBeforeYear grows by the length of the years in between. */
  lemma {:induction false} DaysBeforeYearSpan(y: int, n: nat)
    requires y >= MinYear
    ensures DaysBeforeYear(y + n) - DaysBeforeYear(y) == YearsSpan(y, n)
    decreases n
  {
    if n > 0 {
      DaysBeforeYearSpan(y + 1, n - 1);
    }
  }

  /** Calendar order of the dates of two datetimes (times of day ignored). */
  predicate DateBefore(a: DateTime, b: DateTime) {
    a.date.year < b.date.year
    || (a.date.year == b.date.year && a.date.month < b.date.month)
    || (a.date.year == b.date.year && a.date.month == b.date.month && a.date.day < b.date.day)
  }

  /** Ordinal numbers follow calendar order: a later date has a larger ordinal. */
  lemma OrdinalOrder(a: DateTime, b: DateTime)
    requires Valid(a) && Valid(b) && DateBefore(a, b)
    ensures Ordinal(a) < Ordinal(b)
  {
    if a.date.year < b.date.year {
      DayOfYearRange(a.date.year, a.date.month, a.date.day);
      DayOfYearRange(b.date.year, b.date.month, b.date.day);
      LaterYearStartsLater(a.date.year, b.date.year);
    } else if a.date.month < b.date.month {
      DayOfYearBounds(a.date.year, a.date.month, a.date.day);
      DaysBeforeMonthGrows(a.date.year, a.date.month + 1, b.date.month);
    }
  }

  /** The days before a later year cover at least the whole of every earlier year. */
  lemma {:induction false} LaterYearStartsLater(y1: int, y2: int)
    requires MinYear <= y1 < y2
    ensures DaysBeforeYear(y1) + DaysInYear(y1) <= DaysBeforeYear(y2)
    decreases y2
  {
    if y2 > y1 + 1 {
      LaterYearStartsLater(y1, y2 - 1);
    }
  }

  /** Two valid datetimes have the same ordinal exactly when they fall on the same date. */
  lemma OrdinalSameDate(a: DateTime, b: DateTime)
    requires Valid(a) && Valid(b)
    ensures Ordinal(a) == Ordinal(b) <==> !DateBefore(a, b) && !DateBefore(b, a)
  {
    if DateBefore(a, b) {
      OrdinalOrder(a, b);
    } else if DateBefore(b, a) {
      OrdinalOrder(b, a);
    }
  }

  /**
   * Subtracting a midnight from a later-or-earlier datetime: the whole days
   * are the difference of the ordinals and the seconds are the time of day.
   */
  lemma SubMidnight(a: DateTime, b: DateTime)
    requires Valid(a) && Valid(b) && SecondOfDay(b) == 0
    ensures Sub(a, b).days == Ordinal(a) - Ordinal(b)
    ensures Sub(a, b).seconds == SecondOfDay(a)
  {
    Arith.DivUnique(SecondOfDay(a), 86400, 0, SecondOfDay(a));
  }

  /**
   * Subtracting a datetime from a midnight: the days fall one short of the
   * ordinal difference unless the subtrahend is itself at midnight.
   */
  lemma SubFromMidnight(a: DateTime, b: DateTime)
    requires Valid(a) && Valid(b) && SecondOfDay(a) == 0
    ensures Sub(a, b).days == Ordinal(a) - Ordinal(b) - (if SecondOfDay(b) == 0 then 0 else 1)
  {
    var secs := -SecondOfDay(b);
    if secs == 0 {
      Arith.DivUnique(secs, 86400, 0, 0);
    } else {
      Arith.DivUnique(secs, 86400, -1, 86400 + secs);
    }
  }
}
