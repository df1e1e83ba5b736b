/**
 * The progress calculator: from one explicit instant to (current, max,
 * percent) triples for the day, the month, the year and a lifespan that
 * starts on a fixed birthday.
 */
module Progress {
  import opened Wrappers
  import opened Calendar
  import Arith

  /** How far through a period: `current` out of `max`, and the truncated percentage. */
  datatype Progress = Progress(current: int, max: int, percent: int)

  /**
   * Why the lifespan computation fails: the expected death year leaves the
   * range Python's datetime accepts, or the lifespan is empty and the
   * percentage divides by zero.
   */
  datatype LifespanError = YearOutOfRange | ZeroDivision

  const BirthYear := 1995
  const Birthday := DateTime(Date(BirthYear, 2, 14), Time(0, 0, 0))

  /** The percentage `floor(current / max * 100)`, computed exactly on integers. */
  function Percent(current: int, max: int): (p: int)
    requires max != 0
    ensures max > 0 ==> p * max <= current * 100 < (p + 1) * max
    ensures max < 0 ==> p * max >= current * 100 > (p + 1) * max
  {
    Arith.FloorDivBounds(current * 100, max);
    Arith.FloorDiv(current * 100, max)
  }

  /** Over a positive period the percentage reaches 100 exactly once `current` reaches `max`. */
  lemma PercentReachesFull(current: int, max: int)
    requires max > 0
    ensures Percent(current, max) >= 100 <==> current >= max
  {
    var q := Percent(current, max);
    Arith.FloorDivBounds(current * 100, max);
    if current >= max {
      assert (q + 1) * max > current * 100 >= 100 * max;
      Arith.MulCancelLt(100, q + 1, max);
    } else {
      assert q * max <= current * 100 < 100 * max;
      Arith.MulCancelLt(q, 100, max);
    }
  }

  /** For `0 <= current <= max` the percentage is in 0 .. 100 and is 100 only at the end. */
  lemma PercentRange(current: int, max: int)
    requires 0 <= current <= max && max > 0
    ensures 0 <= Percent(current, max) <= 100
    ensures Percent(current, max) == 100 <==> current == max
  {
    var q := Percent(current, max);
    Arith.FloorDivBounds(current * 100, max);
    PercentReachesFull(current, max);
    assert q * max <= current * 100 <= 100 * max;
    if q > 100 {
      Arith.MulCancelLt(100, q, max);
    }
  }

  /** days_into_year: whole days since January 1 of the same year, plus one. */
  function DaysIntoYear(now: DateTime): (n: int)
    requires Valid(now)
    ensures n == DayOfYear(now.date.year, now.date.month, now.date.day)
    ensures 1 <= n <= DaysInYear(now.date.year)
  {
    var start := DateTime(Date(now.date.year, 1, 1), Time(0, 0, 0));
    SubMidnight(now, start);
    DayOfYearRange(now.date.year, now.date.month, now.date.day);
    Sub(now, start).days + 1
  }

  /**
   * days_to_end_of_year: whole days from `now` to December 31 at 00:00, plus
   * one. The days remaining including today only at exactly midnight; one
   * less at any other time of day.
   */
  function DaysToEndOfYear(now: DateTime): (n: int)
    requires Valid(now)
    ensures n == DaysInYear(now.date.year) - DayOfYear(now.date.year, now.date.month, now.date.day)
                 + (if SecondOfDay(now) == 0 then 1 else 0)
    ensures 0 <= n <= DaysInYear(now.date.year)
    ensures n == 0 <==> now.date.month == 12 && now.date.day == 31 && SecondOfDay(now) != 0
  {
    var end := DateTime(Date(now.date.year, 12, 31), Time(0, 0, 0));
    SubFromMidnight(end, now);
    DayOfYearRange(now.date.year, 12, 31);
    DayOfYearRange(now.date.year, now.date.month, now.date.day);
    Sub(end, now).days + 1
  }

  /** Minutes since midnight out of the 1440 minutes of a day. */
  function DayProgress(now: DateTime): (p: Progress)
    requires Valid(now)
    ensures p.current == now.time.hour * 60 + now.time.minute
    ensures 0 <= p.current < 1440 && p.max == 1440
    ensures 0 <= p.percent <= 99 && p.percent == Percent(p.current, p.max)
  {
    SubMidnight(now, Midnight(now));
    var minutes := Sub(now, Midnight(now)).seconds / 60;
    PercentRange(minutes, 1440);
    PercentReachesFull(minutes, 1440);
    Progress(minutes, 1440, Percent(minutes, 1440))
  }

  /** Day of the month out of the month's length. */
  function MonthProgress(now: DateTime): (p: Progress)
    requires Valid(now)
    ensures p.current == now.date.day && p.max == DaysInMonth(now.date.year, now.date.month)
    ensures p.percent == Percent(p.current, p.max)
    ensures 0 <= p.percent <= 100
    ensures p.percent == 100 <==> now.date.day == DaysInMonth(now.date.year, now.date.month)
  {
    var monthEnd := DaysInMonth(now.date.year, now.date.month);
    PercentRange(now.date.day, monthEnd);
    Progress(now.date.day, monthEnd, Percent(now.date.day, monthEnd))
  }

  /** Ordinal day of the year out of the year's length. */
  function YearProgress(now: DateTime): (p: Progress)
    requires Valid(now)
    ensures p.current == DayOfYear(now.date.year, now.date.month, now.date.day)
    ensures p.max == DaysInYear(now.date.year) && p.percent == Percent(p.current, p.max)
    ensures 0 <= p.percent <= 100
    ensures p.percent == 100 <==> now.date.month == 12 && now.date.day == 31
  {
    var days := DaysIntoYear(now);
    var length := DaysInYear(now.date.year);
    DayOfYearRange(now.date.year, now.date.month, now.date.day);
    PercentRange(days, length);
    Progress(days, length, Percent(days, length))
  }

  /**
   * `birthday + relativedelta(years=n)` for the fixed birthday: February 14
   * exists in every year, so nothing is clamped; only the year can fail.
   */
  lemma ExpectedDeath(lifeExpectancy: int)
    ensures var r := AddYears(Birthday, lifeExpectancy);
      && (r.Ok? <==> MinYear <= BirthYear + lifeExpectancy <= MaxYear)
      && (r.Ok? ==> r.value == DateTime(Date(BirthYear + lifeExpectancy, 2, 14), Time(0, 0, 0)))
  {
  }

  /**
   * Whole days lived since `birthday` out of the whole days from `birthday`
   * to the expected death `lifeExpectancy` years on. It fails with a year
   * error exactly when the death year is out of range; for a birthday at
   * midnight it fails with a division by zero exactly for a zero life
   * expectancy, both counts are differences of day ordinals, and the total
   * is positive exactly for a positive life expectancy.
   */
  function Lifespan(now: DateTime, birthday: DateTime, lifeExpectancy: int): (r: Result<Progress, LifespanError>)
    requires Valid(now) && Valid(birthday)
    ensures var inRange := MinYear <= birthday.date.year + lifeExpectancy <= MaxYear;
      && (r == Err(YearOutOfRange) <==> !inRange)
      && (r.Ok? ==> r.value.max != 0 && r.value.percent == Percent(r.value.current, r.value.max))
      && (SecondOfDay(birthday) == 0 ==>
          && (r == Err(ZeroDivision) <==> inRange && lifeExpectancy == 0)
          && (r.Ok? ==> r.value.current == Ordinal(now) - Ordinal(birthday))
          && (r.Ok? ==> r.value.max == Ordinal(AddYears(birthday, lifeExpectancy).value) - Ordinal(birthday))
          && (r.Ok? ==> (r.value.max > 0 <==> lifeExpectancy > 0)))
  {
    match AddYears(birthday, lifeExpectancy)
    case Err(_) => Err(YearOutOfRange)
    case Ok(death) =>
      var daysIn := Sub(now, birthday).days;
      var totalDays := Sub(death, birthday).days;
      LifespanCounts(now, birthday, death, lifeExpectancy);
      if totalDays == 0 then Err(ZeroDivision)
      else Ok(Progress(daysIn, totalDays, Percent(daysIn, totalDays)))
  }

  /** The two day counts of the lifespan, for a birthday at midnight. */
  lemma LifespanCounts(now: DateTime, birthday: DateTime, death: DateTime, lifeExpectancy: int)
    requires Valid(now) && Valid(birthday) && AddYears(birthday, lifeExpectancy) == Ok(death)
    ensures SecondOfDay(birthday) == 0 ==>
      && Sub(now, birthday).days == Ordinal(now) - Ordinal(birthday)
      && Sub(death, birthday).days == Ordinal(death) - Ordinal(birthday)
      && (Sub(death, birthday).days > 0 <==> lifeExpectancy > 0)
      && (Sub(death, birthday).days == 0 <==> lifeExpectancy == 0)
  {
    if SecondOfDay(birthday) == 0 {
      SubMidnight(now, birthday);
      SubMidnight(death, birthday);
      if lifeExpectancy > 0 {
        OrdinalOrder(birthday, death);
      } else if lifeExpectancy < 0 {
        OrdinalOrder(death, birthday);
      }
    }
  }

  /**
   * The lifespan from the fixed birthday, 1995-02-14 at midnight: `current`
   * counts the days since the birthday and `max` is the total length of
   * the years lived through (negative when the life expectancy counts back).
   */
  function LifespanProgress(now: DateTime, lifeExpectancy: int): (r: Result<Progress, LifespanError>)
    requires Valid(now)
    ensures && (r == Err(YearOutOfRange) <==> !(MinYear <= BirthYear + lifeExpectancy <= MaxYear))
      && (r == Err(ZeroDivision) <==> lifeExpectancy == 0)
      && (r.Ok? ==> r.value.current == Ordinal(now) - Ordinal(Birthday))
      && (r.Ok? ==> r.value.max != 0 && r.value.percent == Percent(r.value.current, r.value.max))
      && (r.Ok? && lifeExpectancy > 0 ==> r.value.max == YearsSpan(BirthYear, lifeExpectancy))
      && (r.Ok? && lifeExpectancy < 0 ==> r.value.max == -YearsSpan(BirthYear + lifeExpectancy, -lifeExpectancy))
  {
    LifespanYears(now, Birthday, lifeExpectancy);
    Lifespan(now, Birthday, lifeExpectancy)
  }

  /** The days from a birthday in January or on February 1..28 to the same date `n` years on (or back). */
  lemma YearsLived(birthday: DateTime, n: int)
    requires Valid(birthday) && birthday.date.month <= 2 && (birthday.date.month == 1 || birthday.date.day <= 28)
    requires MinYear <= birthday.date.year + n <= MaxYear
    ensures var d := AddYears(birthday, n).value;
      && (n >= 0 ==> Ordinal(d) - Ordinal(birthday) == YearsSpan(birthday.date.year, n))
      && (n < 0 ==> Ordinal(d) - Ordinal(birthday) == -YearsSpan(birthday.date.year + n, -n))
  {
    var y := birthday.date.year;
    var d := AddYears(birthday, n).value;
    assert d.date == Date(y + n, birthday.date.month, birthday.date.day);
    assert DaysBeforeMonth(y + n, birthday.date.month) == DaysBeforeMonth(y, birthday.date.month);
    assert Ordinal(d) - Ordinal(birthday) == DaysBeforeYear(y + n) - DaysBeforeYear(y);
    if n >= 0 {
      DaysBeforeYearSpan(y, n);
    } else {
      DaysBeforeYearSpan(y + n, -n);
    }
  }

  /**
   * For a birthday at midnight in January or on February 1..28 (so that
   * `relativedelta` keeps the day and no leap day falls between the
   * birthday and the end of its month) `max` is the total
   * length of the years lived through, negative when counting back.
   */
  lemma LifespanYears(now: DateTime, birthday: DateTime, lifeExpectancy: int)
    requires Valid(now) && Valid(birthday) && SecondOfDay(birthday) == 0
    requires birthday.date.month <= 2 && (birthday.date.month == 1 || birthday.date.day <= 28)
    ensures var r := Lifespan(now, birthday, lifeExpectancy);
      && (r == Err(YearOutOfRange) <==> !(MinYear <= birthday.date.year + lifeExpectancy <= MaxYear))
      && (r == Err(ZeroDivision) <==> lifeExpectancy == 0)
      && (r.Ok? ==> r.value.current == Ordinal(now) - Ordinal(birthday))
      && (r.Ok? ==> r.value.max != 0 && r.value.percent == Percent(r.value.current, r.value.max))
      && (r.Ok? && lifeExpectancy > 0 ==> r.value.max == YearsSpan(birthday.date.year, lifeExpectancy))
      && (r.Ok? && lifeExpectancy < 0 ==> r.value.max == -YearsSpan(birthday.date.year + lifeExpectancy, -lifeExpectancy))
  {
    if MinYear <= birthday.date.year + lifeExpectancy <= MaxYear {
      YearsLived(birthday, lifeExpectancy);
    }
  }

  /**
   * For a positive life expectancy with the death year in range, the
   * percentage is in 0 .. 99 from the birthday up to the day before the
   * expected death, and is at least 100 from that date on: nothing caps it.
   */
  lemma LifespanPercent(now: DateTime, birthday: DateTime, lifeExpectancy: int)
    requires Valid(now) && Valid(birthday) && SecondOfDay(birthday) == 0
    requires lifeExpectancy >= 1 && birthday.date.year + lifeExpectancy <= MaxYear
    ensures var r := Lifespan(now, birthday, lifeExpectancy);
      var death := AddYears(birthday, lifeExpectancy).value;
      && r.Ok? && r.value.max > 0
      && (r.value.percent >= 100 <==> !DateBefore(now, death))
      && (!DateBefore(now, birthday) && DateBefore(now, death) ==> 0 <= r.value.percent < 100)
  {
    var n := lifeExpectancy;
    var death := AddYears(birthday, n).value;
    var p := Lifespan(now, birthday, n).value;
    PercentReachesFull(p.current, p.max);
    OrdinalSameDate(now, death);
    if DateBefore(now, death) {
      OrdinalOrder(now, death);
    } else if DateBefore(death, now) {
      OrdinalOrder(death, now);
    }
    if !DateBefore(now, birthday) && DateBefore(now, death) {
      OrdinalSameDate(now, birthday);
      if DateBefore(birthday, now) {
        OrdinalOrder(birthday, now);
      }
      PercentRange(p.current, p.max);
    }
  }

  /**
   * From the fixed birthday with a positive life expectancy: the percentage
   * reaches 100 on the expected date of death, February 14 of the year
   * `1995 + lifeExpectancy`, and not before.
   */
  lemma LifespanPercentRange(now: DateTime, lifeExpectancy: int)
    requires Valid(now) && 1 <= lifeExpectancy <= MaxYear - BirthYear
    ensures var r := LifespanProgress(now, lifeExpectancy);
      var death := DateTime(Date(BirthYear + lifeExpectancy, 2, 14), Time(0, 0, 0));
      && r.Ok? && r.value.max > 0
      && (r.value.percent >= 100 <==> !DateBefore(now, death))
      && (!DateBefore(now, Birthday) && DateBefore(now, death) ==> 0 <= r.value.percent < 100)
  {
    LifespanPercent(now, Birthday, lifeExpectancy);
    ExpectedDeath(lifeExpectancy);
  }

  lemma BirthdayOrdinal()
    ensures Ordinal(Birthday) == 728338
  {
    DaysBeforeYearClosedForm(BirthYear);
  }

  /** The day ordinal of February 14 of `y`, for the two years of the worked example. */
  lemma Feb14Ordinal(t: DateTime, y: int)
    requires y == 2015 || y == 2075
    requires t.date == Date(y, 2, 14)
    ensures y == 2015 ==> Ordinal(t) == 735643
    ensures y == 2075 ==> Ordinal(t) == 757558
  {
    if y == 2015 {
      DaysBeforeYearClosedForm(2015);
    } else {
      DaysBeforeYearClosedForm(2075);
    }
  }

  /**
   * The worked example: born 1995-02-14 with a life expectancy of 80 years,
   * at any time on 2015-02-14 the 7305 days lived (twenty years and five
   * leap days) are exactly a quarter of the 29220-day lifespan.
   */
  lemma LifespanExample(now: DateTime)
    requires Valid(now) && now.date.year == 2015 && now.date.month == 2 && now.date.day == 14
    ensures LifespanProgress(now, 80) == Ok(Progress(7305, 29220, 25))
  {
    var death := DateTime(Date(2075, 2, 14), Time(0, 0, 0));
    ExpectedDeath(80);
    BirthdayOrdinal();
    Feb14Ordinal(now, 2015);
    Feb14Ordinal(death, 2075);
    assert Percent(7305, 29220) == 25 by {
      Arith.FloorDivUnique(730500, 29220, 25);
    }
  }
}
