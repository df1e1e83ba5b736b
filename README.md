# YearProgress in Dafny

YearProgress is a small desktop program (`main.py`) that draws four
tick-mark progress bars. They show how far the current day, month and year
have advanced, and optionally a lifespan that starts on the fixed birthday
1995-02-14. Each bar comes from a `(current, max, percent)` triple with
`percent = floor(current / max * 100)`. The triple is rendered as
`[` + filled ticks + unfilled ticks + `]`, followed by ` {percent}%` and
` ({current}/{max})`. On screen the bar is printed in two layers: a white
background with every tick unfilled, then the filled ticks in green (red
for the lifespan), one column to the right.

The model is pure. It takes every instant as an explicit parameter and
proves properties of each step.

- `Wrappers`: `Option` and `Result`.
- `Arith`: Python's floor division `//`, defined for a divisor of either sign, and facts about it.
- `Calendar`: the parts of `datetime`, `calendar` and `relativedelta` that the program uses:
  - the proleptic Gregorian leap rule and the month table;
  - ordinal day numbers (`toordinal`);
  - datetime subtraction, which gives a normalised `timedelta`;
  - adding whole calendar years, which clamps the day and fails outside years 1..9999.
- `Progress`: the day, month, year and lifespan triples. It also covers the unused `days_to_end_of_year`.
- `Decimal`: `str()` on integers as the bar's suffixes print them, with a parser as its inverse.
- `Bar`:
  - `progress_display`, the text bar;
  - `draw_progress_display`, returned as a list of `Print` draw instructions;
  - one console row that those instructions are printed onto.
- `Screen`: the four `draw_*_progress` functions with the program's arguments: a tick width of 5, the count shown, and red for the lifespan.

The intended behaviour would be to reject a zero or negative life expectancy as a configuration error and to clamp every percentage to 0..100. The code does neither, and the model follows the code:

- A life expectancy of zero divides by zero. This is modelled as the error `Progress.ZeroDivision`.
- A negative life expectancy is not rejected at all. The default `-1` gives a negative lifespan and a negative percentage (`Screen.DeathBarWithoutExpectancy`).
- The percentage is not clamped. From the expected death the bar is full, and from 105 percent on (`percent >= 100 + ppt` at tick width 5) the fill overruns the bar (`Bar.ProgressDisplayOverflow`, `Bar.FillCoversBracket`).

## Model

| member | source | states |
|---|---|---|
| Calendar.DaysInYear | main.py:27-28 | the year has 366 days exactly when it is a Gregorian leap year, otherwise 365 |
| Calendar.DaysInMonth | main.py:82 | month lengths lie in 28..31, and a month has 29 days exactly when it is February of a leap year (`monthrange(y, m)[1]`) |
| Calendar.MonthsFillYear | main.py:27-28 | the twelve month lengths add up to the year's length, leap day included |
| Calendar.DaysBeforeYearClosedForm | main.py:99-101 | the days before year `y`, counted year by year, equal Python's closed form `365n + n//4 - n//100 + n//400` with `n = y - 1` |
| Calendar.Ordinal | main.py:99-101 | `toordinal()` of a date from year 1 on equals datetime's closed form `365n + n//4 - n//100 + n//400` plus the day of the year, with `n = year - 1` |
| Calendar.DayOfYearRange | main.py:15-18 | the ordinal day of a valid date is in 1..days-in-year; it is 1 only on January 1 and days-in-year only on December 31 |
| Calendar.Normalize | main.py:90 | a timedelta keeps its total duration and ends with `0 <= seconds < 86400` |
| Calendar.Sub | main.py:99-101 | datetime subtraction (also at main.py lines 18, 24 and 90) gives a timedelta with `0 <= seconds < 86400` whose total duration is the ordinal difference in days plus the difference of the times of day |
| Calendar.SubMidnight | main.py:99-101 | subtracting a midnight gives the difference of the day ordinals in `.days` and the time of day in `.seconds` |
| Calendar.SubFromMidnight | main.py:24 | subtracting a datetime from a midnight gives one day less than the ordinal difference whenever the time of day is not 00:00:00 |
| Calendar.AddYears | main.py:97 | `relativedelta(years=n)` succeeds exactly when the new year is in 1..9999; it keeps month and time, keeps the day exactly when it fits the new month, and otherwise takes the new month's length, so the day is `min(day, month length)` |
| Calendar.OrdinalOrder | main.py:99-102 | a strictly later date has a strictly larger ordinal |
| Calendar.OrdinalSameDate | main.py:99-102 | two datetimes have the same ordinal exactly when they fall on the same date |
| Calendar.YearsSpanBounds | main.py:101 | `n` consecutive years last between `365n` and `366n` days |
| Calendar.DaysBeforeYearSpan | main.py:101 | the ordinal gap between January 1 of two years is the total length of the years in between |
| Progress.PercentReachesFull | main.py:76 | for a positive `max` the percentage is at least 100 exactly when `current >= max` |
| Progress.Percent | main.py:102 | the percentage (also at main.py lines 76, 83 and 91) is the floor of `current * 100 / max`: for a positive `max`, `p * max <= current * 100 < (p + 1) * max`, with the inequalities reversed for a negative `max` |
| Progress.PercentRange | main.py:83 | for `0 <= current <= max` the percentage is in 0..100, and it is 100 exactly when `current == max` |
| Progress.DaysIntoYear | main.py:15-18 | `days_into_year` is the 1-based ordinal day, in 1..days-in-year, whatever the time of day |
| Progress.DaysToEndOfYear | main.py:21-24 | the days left counting today at exactly 00:00 and one fewer at any other time; 0 only on December 31 after midnight |
| Progress.DayProgress | main.py:87-91 | `current` is hours*60 + minutes, in 0..1439, out of 1440; the percentage is in 0..99 |
| Progress.MonthProgress | main.py:80-83 | day of the month out of its length; the percentage is in 0..100 and is 100 exactly on the last day |
| Progress.YearProgress | main.py:74-76 | ordinal day out of `days_in_year` of the current year; the percentage is in 0..100 and is 100 exactly on December 31 |
| Progress.ExpectedDeath | main.py:96-97 | the birthday `n` years on exists exactly when the year is in 1..9999, and it is February 14 of year `1995 + n` at midnight (no clamping) |
| Progress.Lifespan | main.py:95-102 | the lifespan fails with a year error exactly when the death year is out of range; for a birthday at midnight it fails with a division by zero exactly for a zero life expectancy, `current` and `max` are ordinal differences, and `max > 0` exactly for a positive life expectancy |
| Progress.YearsLived | main.py:97-101 | from a birthday on any day of January or on February 1..28 (February 29 would be clamped), the days to the same date `n` years later (or earlier) are the total length of the years lived through (negated when counting back) |
| Progress.LifespanYears | main.py:96-102 | for a birthday at midnight on any day of January or on February 1..28, the error cases hold, and `max` is the length of the years lived through, negated when counting back |
| Progress.LifespanPercent | main.py:99-102 | for a positive life expectancy in range, the percentage is at least 100 exactly from the expected death date on, and in 0..99 between the birthday and that date |
| Progress.LifespanProgress | main.py:95-102 | for the fixed birthday 1995-02-14: the error cases, `current` as days since the birthday, and `max` as the length of the years lived through, negated when counting back |
| Progress.LifespanPercentRange | main.py:95-102 | for the fixed birthday, the percentage reaches 100 on February 14 of year `1995 + n` and not before |
| Progress.BirthdayOrdinal | main.py:96 | 1995-02-14 is day 728338 of the proleptic Gregorian calendar |
| Progress.LifespanExample | main.py:95-102 | with a life expectancy of 80, any time on 2015-02-14 gives 7305 days out of 29220, which is 25 percent |
| Decimal.NatToString | main.py:44 | a natural number prints as one or more digits, with a leading 0 only for zero itself |
| Decimal.IntToString | main.py:42 | an integer prints with a leading `-` exactly when it is negative, and otherwise only digits |
| Decimal.NatToStringValue | main.py:44 | the printed digits of `n` denote `n` |
| Decimal.IntToStringRoundTrip | main.py:42-44 | parsing what is printed gives back the integer |
| Decimal.IntToStringInjective | main.py:42-44 | different integers print differently |
| Bar.Repeat | main.py:40 | `c * n` has `max(n, 0)` characters, all equal to `c` |
| Bar.ProgressDisplay | main.py:31-45 | fails exactly for a zero tick width; for `ppt > 0` and `0 <= percent <= 100` the string is `[`, then on positions `1..max_ticks` the `percent // ppt` filled glyphs followed by unfilled ones, then `]` at `max_ticks + 1`, then the suffix, `max_ticks + 2 + |suffix|` characters in all |
| Bar.DrawProgressDisplay | main.py:48-71 | fails exactly for a zero tick width; otherwise it prints the white background at `(x, y)` and then `percent // ppt` filled glyphs at `(x + 1, y)` in the override colour or green; for `ppt > 0` and `0 <= percent <= 100` the background is as long as the `progress_display` string, has unfilled glyphs on `1..max_ticks` and agrees with that string everywhere the fill does not cover, and the fill holds that string's glyphs on columns `1..filled` |
| Bar.TextBarLayout | main.py:40 | the text bar is `[`, then the filled glyphs, then the unfilled glyphs (none for a negative count), then `]`, then the suffix |
| Bar.TickCounts | main.py:37-39 | for the tick counts `Bar.MaxTicks`, `Bar.FilledTicks` and `Bar.UnfilledTicks`, with `ppt > 0` and `0 <= percent <= 100`: `0 <= filled <= max_ticks`, `unfilled >= 0`, and both counts drop their division's remainder |
| Arith.FloorDivBounds | main.py:37-38 | Python's `//`, modelled by `Arith.FloorDiv` (also at main.py lines 58-59 and, through the percentage, 76, 83, 91 and 102), is the floor of the quotient: `q * b <= a < q * b + b` for a positive divisor, reversed for a negative one |
| Bar.FillColor | main.py:71 | a given override colour is always used, black included, since a colour triple is truthy; without one the fill is green |
| Bar.DefaultTicks | main.py:37-38 | with tick width 5 there are 20 ticks, all 20 filled exactly at 100 percent, and 19 at 99 percent |
| Bar.BarFull | main.py:37-39 | when the tick width divides 100, the bar has no unfilled tick exactly when `percent >= 100` |
| Bar.TicksOverflow | main.py:37-39 | from `percent >= 100 + ppt` on, there are more filled ticks than the bar holds |
| Bar.ProgressDisplayOverflow | main.py:37-40 | above the bar's capacity, the text bar has only filled glyphs and is longer than `max_ticks + 2` |
| Bar.Suffix | main.py:41-44 | the suffix contains `%` exactly when the percentage is shown and `(` exactly when the count is shown, and the percentage comes first; with neither shown it is empty |
| Bar.PercentSuffixReadsBack | main.py:41-42 | shown alone, the percentage suffix is ` `, then the number, then `%`, and the number reads back as the percentage |
| Bar.CountSuffixReadsBack | main.py:43-44 | shown alone, the count suffix is ` (`, a number that reads back as `current`, its only `/`, a number that reads back as `max`, and `)` |
| Bar.SuffixSplit | main.py:41-44 | with both parts shown, as every bar of the program does, the suffix is the percentage part followed by the count part, so both read-backs apply |
| Bar.PrintHides | main.py:70-71 | a later print from the same column that is at least as long leaves no trace of an earlier one |
| Bar.PrintsCommute | main.py:70-71 | prints on disjoint columns give the same row in either order |
| Bar.RenderRow | main.py:70-71 | draw calls on other rows leave the row unchanged |
| Bar.RenderLast | main.py:70-71 | the calls take effect in order: the last call on the row is printed on top of the row all the earlier calls leave |
| Bar.RenderTwo | main.py:70-71 | two prints on the same row take effect one after the other |
| Bar.LayerStrings | main.py:62-68 | the background and the text bar differ only on columns `1..filled`, and there the fill string holds the text bar's glyphs |
| Bar.TwoLayers | main.py:70-71 | printing a background and then a one-column-offset fill that together spell a text shows that text, and the fill's colour lands exactly on the fill's columns |
| Bar.LayersMatchText | main.py:58-71 | for `0 <= percent <= 100`, drawing both layers on any row shows exactly the `progress_display` string from column `x`; the fill colour is on columns `x+1..x+filled` and white is everywhere else in the bar; cells outside the bar are unchanged |
| Bar.FillCoversBracket | main.py:58-71 | once the percentage is past the bar, the fill overwrites the background's closing bracket with a filled glyph |
| Screen.DrawBar | main.py:74-103 | the shared `draw_progress_display` call of the four bars (tick width 5, percentage and count shown) prints the white `[` + 20 unfilled + `]` + suffix background at `(x, y)` and `percent // 5` filled glyphs at `(x + 1, y)` in the override colour or green |
| Screen.DrawBarLayers | main.py:74-103 | with the program's arguments, both layers are placed and coloured as given; the fill has `percent // 5` glyphs, at most 20, exactly 20 at 100 percent, and at most 19 below 100 |
| Screen.FillReachesFull | main.py:52-59 | with tick width 5, the fill has at least 20 glyphs exactly from 100 percent on |
| Screen.EmptyAtMidnight | main.py:87-92 | at 00:00 the day bar has nothing filled |
| Screen.DrawDayProgress | main.py:87-92 | the day bar counts minutes since midnight out of 1440; the fill has `Percent(minutes, 1440) // 5` glyphs, at most 19, so it is never full, and none at 00:00 |
| Screen.DrawMonthProgress | main.py:80-84 | the month bar counts day of month out of month length; the fill has `Percent(day, length) // 5` glyphs and is full (20) exactly on the month's last day |
| Screen.DrawYearProgress | main.py:74-77 | the year bar counts ordinal day out of year length; the fill has `Percent(day, length) // 5` glyphs and is full exactly on December 31 |
| Screen.DrawDeathProgress | main.py:95-103 | the lifespan bar fails exactly when the lifespan computation fails, with the same error; otherwise the white background at `(x, y)` is the empty 20-tick bar with ` {percent}% ({days_in}/{total_days})`, and the red fill at `(x + 1, y)` has `percent // 5` glyphs |
| Screen.DeathBarErrors | main.py:95-103 | the lifespan bar is drawn exactly when the death year is in 1..9999 and the life expectancy is not zero; negative values are drawn |
| Screen.DeathFill | main.py:95-103 | a drawn lifespan bar has at least 20 filled glyphs exactly when the lifespan percentage is at least 100 |
| Screen.DeathBarFull | main.py:95-103 | for a positive life expectancy in range, the lifespan bar is full exactly from the expected death date on, and not full from the birthday up to that date |
| Screen.DeathBarWithoutExpectancy | main.py:95-108 | with the default life expectancy -1 and any instant after the birthday, the lifespan is -365 days, the percentage is negative and the fill is empty |

## Left out

- The tcod tileset, console, window context, frame presentation and event loop (main.py:109-134) are display glue. The console is modelled only as one row of cells that prints overwrite and clip.
- The wall clock is not read. Each draw function takes the instant as a parameter. The program reads the clock separately in each function, and twice in `draw_year_progress`, so the bars of one frame could straddle midnight. The model uses one instant throughout.
- Floating point: `math.floor(a / b * 100.0)` is modelled as the exact integer `floor(a * 100 / b)` (`Progress.Percent`). That is the intended value, and rounding of the float expression is not modelled.
- `Progress.YearProgress` takes the year's length from the current year. The source's default argument `year=datetime.now().year` is fixed when the module loads, so a program left running into a new year would use the old year.
- Command-line handling (`sys.argv`, main.py:107-108) and the `int()` conversion at main.py:97 are not modelled. The life expectancy is an integer parameter. `Screen.DeathBarWithoutExpectancy` covers the `-1` default.
- Header strings and `strftime('%b')` month names (main.py:118-126) are not modelled.
- The model's instants are whole seconds: `Calendar.DateTime` has no microseconds. For the subtractions at main.py:18, 90, 99 and 101 this changes nothing. At lines 18, 90 and 99 a midnight is subtracted from the current instant, which is later, so its microseconds only add to the result and never borrow. At line 101 both sides are midnights, whichever is later (with a negative life expectancy the birthday is).
- Progress.DaysToEndOfYear: its midnight case matches the source only at 00:00:00.000000. At 00:00:00 with a non-zero microsecond the source borrows a day and returns one fewer, while the model counts today.
- Bar.PrintRow: it is the assumed behaviour of tcod's `console.print` on one row. It overwrites the cells from column `x` on, clips at the row's ends and does not wrap. tcod's handling of negative coordinates is not modelled; the program only prints at columns 0 and 1.
- `relativedelta` is modelled only as year addition (`Calendar.AddYears`).
- `Calendar.AddYears` signals an out-of-range year as an error value instead of raising `ValueError`.
- `days_left` (main.py:100) is computed but never used, so it is not modelled.
- Progress.LifespanYears: the general birthday has to fall in January or on February 1..28 so that the day count is a whole number of year lengths; February 29 is clamped by `relativedelta`, and from March on the leap day of the final year would be counted. The fixed birthday 1995-02-14 does.
- Progress.Percent: requires a non-zero divisor. All its callers guarantee one, and the lifespan's zero divisor is reported as `Progress.ZeroDivision` before `Percent` is reached.
