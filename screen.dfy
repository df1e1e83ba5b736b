/**
 * The four bars on the screen: each draws a progress triple from one
 * explicit instant with a tick width of 5, the percentage and the count
 * shown; the lifespan bar is filled in red.
 */
module Screen {
  import opened Wrappers
  import opened Calendar
  import opened Bar
  import Arith
  import Progress

  const TickWidth := 5
  const DeathColor := Rgb(255, 0, 0)

  /** A triple through draw_progress_display with `display_count=True` and the default tick width. */
  function DrawBar(x: int, y: int, p: Progress.Progress, fgOverride: Option<Color>): (calls: seq<DrawCall>)
    ensures |calls| == 2
    ensures calls[0] == Print(x, y, TextBar(0, 20, Suffix(p.percent, true, true, p.current, p.max)), UnfilledColor)
    ensures calls[1] == Print(x + 1, y, Repeat(FilledTick, FilledTicks(p.percent, TickWidth)), FillColor(fgOverride))
  {
    Arith.FloorDivUnique(100, TickWidth, 20);
    DrawProgressDisplay(x, y, p.percent, TickWidth, true, true, p.current, p.max, fgOverride).value
  }

  /** The facts every drawn bar shares: where its two layers go, their colours and the fill's length. */
  lemma DrawBarLayers(x: int, y: int, p: Progress.Progress, fgOverride: Option<Color>)
    requires 0 <= p.percent <= 100
    ensures var calls := DrawBar(x, y, p, fgOverride);
      && |calls| == 2
      && calls[0] == Print(x, y, TextBar(0, 20, Suffix(p.percent, true, true, p.current, p.max)), UnfilledColor)
      && calls[1].x == x + 1 && calls[1].y == y && calls[1].fg == FillColor(fgOverride)
      && |calls[1].text| == FilledTicks(p.percent, TickWidth)
      && (forall i :: 0 <= i < |calls[1].text| ==> calls[1].text[i] == FilledTick)
      && (|calls[1].text| == 20 <==> p.percent == 100)
      && |calls[1].text| <= 20
      && (p.percent <= 99 ==> |calls[1].text| <= 19)
  {
    DefaultTicks(p.percent);
    TickCounts(p.percent, TickWidth);
  }

  /** With the default tick width the fill has 20 glyphs or more exactly from 100 percent on. */
  lemma FillReachesFull(percent: int)
    ensures |Repeat(FilledTick, FilledTicks(percent, TickWidth))| >= 20 <==> percent >= 100
  {
    Arith.FloorDivUnique(100, TickWidth, 20);
    BarFull(percent, TickWidth);
  }

  /** No minute of the day has passed at 00:00, so nothing is filled. */
  lemma EmptyAtMidnight()
    ensures FilledTicks(Progress.Percent(0, 1440), TickWidth) == 0
  {
    Arith.FloorDivUnique(0, 1440, 0);
    Arith.FloorDivUnique(0, TickWidth, 0);
  }

  /** draw_day_progress: minutes since midnight out of 1440; the bar is never full. */
  function DrawDayProgress(now: DateTime, x: int, y: int): (calls: seq<DrawCall>)
    requires Valid(now)
    ensures var minutes := now.time.hour * 60 + now.time.minute;
      && |calls| == 2
      && calls[0] == Print(x, y, TextBar(0, 20, Suffix(Progress.Percent(minutes, 1440), true, true, minutes, 1440)),
                           UnfilledColor)
      && calls[1] == Print(x + 1, y, Repeat(FilledTick, |calls[1].text|), FilledColor)
      && |calls[1].text| == FilledTicks(Progress.Percent(minutes, 1440), TickWidth)
      && |calls[1].text| <= 19
      && (minutes == 0 ==> calls[1].text == "")
  {
    var p := Progress.DayProgress(now);
    assert p.current == now.time.hour * 60 + now.time.minute && p.max == 1440;
    DrawBarLayers(x, y, p, None);
    EmptyAtMidnight();
    DrawBar(x, y, p, None)
  }

  /** draw_month_progress: day of the month out of its length; full exactly on the month's last day. */
  function DrawMonthProgress(now: DateTime, x: int, y: int): (calls: seq<DrawCall>)
    requires Valid(now)
    ensures var length := DaysInMonth(now.date.year, now.date.month);
      && |calls| == 2
      && calls[0] == Print(x, y, TextBar(0, 20, Suffix(Progress.Percent(now.date.day, length), true, true,
                                                        now.date.day, length)), UnfilledColor)
      && calls[1] == Print(x + 1, y, Repeat(FilledTick, |calls[1].text|), FilledColor)
      && |calls[1].text| == FilledTicks(Progress.Percent(now.date.day, length), TickWidth)
      && |calls[1].text| <= 20
      && (|calls[1].text| == 20 <==> now.date.day == length)
  {
    var p := Progress.MonthProgress(now);
    DrawBarLayers(x, y, p, None);
    DrawBar(x, y, p, None)
  }

  /** draw_year_progress: ordinal day out of the year's length; full exactly on December 31. */
  function DrawYearProgress(now: DateTime, x: int, y: int): (calls: seq<DrawCall>)
    requires Valid(now)
    ensures var day := DayOfYear(now.date.year, now.date.month, now.date.day);
      var length := DaysInYear(now.date.year);
      && |calls| == 2
      && calls[0] == Print(x, y, TextBar(0, 20, Suffix(Progress.Percent(day, length), true, true, day, length)),
                           UnfilledColor)
      && calls[1] == Print(x + 1, y, Repeat(FilledTick, |calls[1].text|), FilledColor)
      && |calls[1].text| == FilledTicks(Progress.Percent(day, length), TickWidth)
      && |calls[1].text| <= 20
      && (|calls[1].text| == 20 <==> now.date.month == 12 && now.date.day == 31)
  {
    var p := Progress.YearProgress(now);
    DrawBarLayers(x, y, p, None);
    DrawBar(x, y, p, None)
  }

  /**
   * draw_death_progress: the lifespan from the fixed birthday, in red; it
   * fails where the lifespan computation fails.
   */
  function DrawDeathProgress(now: DateTime, x: int, y: int, lifeExpectancy: int)
    : (r: Result<seq<DrawCall>, Progress.LifespanError>)
    requires Valid(now)
    ensures var life := Progress.LifespanProgress(now, lifeExpectancy);
      && (r.Err? <==> life.Err?)
      && (r.Err? ==> r.error == life.error)
      && (r.Ok? ==> |r.value| == 2)
      && (r.Ok? ==> r.value[0] == Print(x, y, TextBar(0, 20, Suffix(life.value.percent, true, true,
                                                                     life.value.current, life.value.max)),
                                        UnfilledColor))
      && (r.Ok? ==> r.value[1] == Print(x + 1, y, Repeat(FilledTick, FilledTicks(life.value.percent, TickWidth)),
                                        DeathColor))
  {
    match Progress.LifespanProgress(now, lifeExpectancy)
    case Err(e) => Err(e)
    case Ok(p) => Ok(DrawBar(x, y, p, Some(DeathColor)))
  }

  /**
   * The lifespan bar is not drawn when the death year is outside 1 .. 9999,
   * nor for a life expectancy of zero; any other value, negative ones
   * included, is drawn.
   */
  lemma DeathBarErrors(now: DateTime, x: int, y: int, lifeExpectancy: int)
    requires Valid(now)
    ensures var r := DrawDeathProgress(now, x, y, lifeExpectancy);
      && (r == Err(Progress.YearOutOfRange) <==> !(MinYear <= Progress.BirthYear + lifeExpectancy <= MaxYear))
      && (r == Err(Progress.ZeroDivision) <==> lifeExpectancy == 0)
      && (r.Ok? <==> MinYear <= Progress.BirthYear + lifeExpectancy <= MaxYear && lifeExpectancy != 0)
  {
  }

  /** A drawn lifespan bar has at least 20 filled glyphs exactly when the lifespan percentage has reached 100. */
  lemma DeathFill(now: DateTime, x: int, y: int, lifeExpectancy: int)
    requires Valid(now)
    ensures var r := DrawDeathProgress(now, x, y, lifeExpectancy);
      r.Ok? ==> (|r.value[1].text| >= 20 <==> Progress.LifespanProgress(now, lifeExpectancy).value.percent >= 100)
  {
    var life := Progress.LifespanProgress(now, lifeExpectancy);
    if life.Ok? {
      FillReachesFull(life.value.percent);
    }
  }

  /**
   * For a positive life expectancy in range the lifespan bar is full from
   * the expected date of death on, and not full from the birthday up to
   * that date.
   */
  lemma DeathBarFull(now: DateTime, x: int, y: int, lifeExpectancy: int)
    requires Valid(now) && 1 <= lifeExpectancy <= MaxYear - Progress.BirthYear
    ensures var r := DrawDeathProgress(now, x, y, lifeExpectancy);
      var death := DateTime(Date(Progress.BirthYear + lifeExpectancy, 2, 14), Time(0, 0, 0));
      && r.Ok?
      && (|r.value[1].text| >= 20 <==> !DateBefore(now, death))
      && (!DateBefore(now, Progress.Birthday) && DateBefore(now, death) ==> |r.value[1].text| < 20)
  {
    DeathFill(now, x, y, lifeExpectancy);
    Progress.LifespanPercentRange(now, lifeExpectancy);
  }

  /**
   * With `death` on the command line but no life expectancy the program
   * passes -1: the expected death is 1994-02-14, the lifespan is -365 days,
   * and after the birthday the percentage is negative and nothing is filled.
   */
  lemma DeathBarWithoutExpectancy(now: DateTime, x: int, y: int)
    requires Valid(now) && DateBefore(Progress.Birthday, now)
    ensures var life := Progress.LifespanProgress(now, -1);
      var r := DrawDeathProgress(now, x, y, -1);
      && life.Ok? && life.value.max == -365 && life.value.current > 0 && life.value.percent < 0
      && r.Ok? && r.value[1].text == ""
  {
    OrdinalOrder(Progress.Birthday, now);
    var p := Progress.LifespanProgress(now, -1).value;
    assert p.max == -365 by {
      assert YearsSpan(1994, 1) == 365;
    }
    Arith.FloorDivNegative(p.current * 100, p.max);
    Arith.FloorDivNegative(p.percent, TickWidth);
  }
}
