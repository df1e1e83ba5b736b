/**
 * The tick-mark bar: the plain text rendering of a percentage, and the two
 * layers (a white background and a coloured fill) the screen version
 * prints, as draw instructions together with a model of one console row
 * that they are printed onto.
 */
module Bar {
  import opened Wrappers
  import Arith
  import Decimal

  const FilledTick: char := '\U{2593}'
  const UnfilledTick: char := '\U{2591}'

  datatype Color = Rgb(r: int, g: int, b: int)

  const FilledColor := Rgb(0, 255, 0)
  const UnfilledColor := Rgb(255, 255, 255)

  /** A tick width of zero makes the floor divisions raise ZeroDivisionError. */
  datatype BarError = ZeroDivision

  /** Python's `c * n`: `n` copies of `c`, and the empty string when `n <= 0`. */
  function Repeat(c: char, n: int): (s: string)
    ensures |s| == if n > 0 then n else 0
    ensures forall i :: 0 <= i < |s| ==> s[i] == c
    decreases n
  {
    if n <= 0 then "" else [c] + Repeat(c, n - 1)
  }

  /** Ticks in a full bar: `100 // percent_per_tick`. */
  function MaxTicks(ppt: int): int
    requires ppt != 0
  {
    Arith.FloorDiv(100, ppt)
  }

  /** Filled ticks: `percent // percent_per_tick`, not clamped to the bar. */
  function FilledTicks(percent: int, ppt: int): int
    requires ppt != 0
  {
    Arith.FloorDiv(percent, ppt)
  }

  function UnfilledTicks(percent: int, ppt: int): int
    requires ppt != 0
  {
    MaxTicks(ppt) - FilledTicks(percent, ppt)
  }

  /**
   * What follows the bar: ` {percent}%` when asked for, then
   * ` ({current}/{max})` when asked for. It holds a `%` exactly when the
   * percentage is shown and a `(` exactly when the count is shown, the
   * percentage first.
   */
  function Suffix(percent: int, displayPercent: bool, displayCount: bool, current: int, max: int): (s: string)
    ensures '%' in s <==> displayPercent
    ensures '(' in s <==> displayCount
    ensures forall i, j :: 0 <= i < |s| && 0 <= j < |s| && s[i] == '%' && s[j] == '(' ==> i < j
    ensures !displayPercent && !displayCount ==> s == ""
  {
    var ps := if displayPercent then " " + Decimal.IntToString(percent) + "%" else "";
    var cs := if displayCount then " (" + Decimal.IntToString(current) + "/" + Decimal.IntToString(max) + ")" else "";
    SuffixParts(ps, cs, percent, displayPercent, displayCount, current, max);
    ps + cs
  }

  /** The bracketed bar with the given numbers of filled and unfilled glyphs, then the suffix. */
  function TextBar(filled: int, unfilled: int, suffix: string): string {
    "[" + Repeat(FilledTick, filled) + Repeat(UnfilledTick, unfilled) + "]" + suffix
  }

  /** progress_display: the text bar for `percent`, or the division error for a zero tick width. */
  function ProgressDisplay(percent: int, ppt: int, displayPercent: bool, displayCount: bool,
                           current: int, max: int): (r: Result<string, BarError>)
    ensures r.Err? <==> ppt == 0
    ensures r.Ok? ==> r.value == TextBar(FilledTicks(percent, ppt), UnfilledTicks(percent, ppt),
                                         Suffix(percent, displayPercent, displayCount, current, max))
    ensures ppt > 0 && 0 <= percent <= 100 ==>
      r.Ok? &&
      var s := r.value;
      var f := FilledTicks(percent, ppt);
      var m := MaxTicks(ppt);
      && |s| == m + 2 + |Suffix(percent, displayPercent, displayCount, current, max)|
      && s[0] == '[' && s[m + 1] == ']'
      && (forall i :: 1 <= i <= m ==> s[i] == if i <= f then FilledTick else UnfilledTick)
      && s[m + 2..] == Suffix(percent, displayPercent, displayCount, current, max)
  {
    if ppt == 0 then Err(ZeroDivision)
    else
      var suffix := Suffix(percent, displayPercent, displayCount, current, max);
      TextBarLayout(FilledTicks(percent, ppt), UnfilledTicks(percent, ppt), suffix);
      BarInRange(percent, ppt);
      Ok(TextBar(FilledTicks(percent, ppt), UnfilledTicks(percent, ppt), suffix))
  }

  /** One `console.print`: `text` from column `x` of row `y`, in foreground colour `fg`. */
  datatype DrawCall = Print(x: int, y: int, text: string, fg: Color)

  /**
   * `fg_override if fg_override else FILLED_COLOR`: a colour triple is a
   * non-empty tuple and so truthy, so every override given wins, black
   * included; without one the fill is green.
   */
  function FillColor(fgOverride: Option<Color>): (c: Color)
    ensures fgOverride.Some? ==> c == fgOverride.value
    ensures fgOverride.None? ==> c == FilledColor
  {
    match fgOverride
    case Some(c) => c
    case None => FilledColor
  }

  /**
   * draw_progress_display: the background (the empty bar and its suffix,
   * in white, at `(x, y)`) and then the fill (the filled glyphs alone, at
   * `(x + 1, y)`), in the order they are printed.
   */
  function DrawProgressDisplay(x: int, y: int, percent: int, ppt: int, displayPercent: bool, displayCount: bool,
                               current: int, max: int, fgOverride: Option<Color>): (r: Result<seq<DrawCall>, BarError>)
    ensures r.Err? <==> ppt == 0
    ensures r.Ok? ==> |r.value| == 2
    ensures r.Ok? ==>
      r.value[0] == Print(x, y, TextBar(0, MaxTicks(ppt), Suffix(percent, displayPercent, displayCount, current, max)),
                          UnfilledColor)
    ensures r.Ok? ==> r.value[1] == Print(x + 1, y, Repeat(FilledTick, FilledTicks(percent, ppt)), FillColor(fgOverride))
    ensures ppt > 0 && 0 <= percent <= 100 ==>
      r.Ok? &&
      var bg := r.value[0].text;
      var fill := r.value[1].text;
      var text := ProgressDisplay(percent, ppt, displayPercent, displayCount, current, max).value;
      && |bg| == |text| && |fill| == FilledTicks(percent, ppt) && 1 + |fill| <= |text|
      && (forall i :: 1 <= i <= MaxTicks(ppt) ==> bg[i] == UnfilledTick)
      && (forall k :: 1 <= k <= |fill| ==> fill[k - 1] == text[k])
      && (forall k :: 0 <= k < |text| && !(1 <= k <= |fill|) ==> bg[k] == text[k])
  {
    if ppt == 0 then Err(ZeroDivision)
    else
      var suffix := Suffix(percent, displayPercent, displayCount, current, max);
      var background := TextBar(0, MaxTicks(ppt), suffix);
      var fill := Repeat(FilledTick, FilledTicks(percent, ppt));
      LayersInRange(percent, ppt, suffix);
      Ok([Print(x, y, background, UnfilledColor), Print(x + 1, y, fill, FillColor(fgOverride))])
  }

  /** A console cell: the glyph shown and its foreground colour. */
  datatype Cell = Cell(glyph: char, fg: Color)

  /** Printing `text` at column `x` of one row: it overwrites the cells it covers and is clipped at the row's ends. */
  function PrintRow(row: seq<Cell>, x: int, text: string, fg: Color): (r: seq<Cell>)
    ensures |r| == |row|
    ensures forall i :: 0 <= i < |row| ==> r[i] == if x <= i < x + |text| then Cell(text[i - x], fg) else row[i]
  {
    seq(|row|, i requires 0 <= i < |row| => if x <= i < x + |text| then Cell(text[i - x], fg) else row[i])
  }

  /** Row `y` of the console after the draw calls, in order; calls on other rows leave it alone. */
  function RenderRow(row: seq<Cell>, calls: seq<DrawCall>, y: int): (r: seq<Cell>)
    ensures |r| == |row|
    ensures (forall k :: 0 <= k < |calls| ==> calls[k].y != y) ==> r == row
    decreases |calls|
  {
    if |calls| == 0 then row
    else
      var c := calls[0];
      RenderRow(if c.y == y then PrintRow(row, c.x, c.text, c.fg) else row, calls[1..], y)
  }

  /** The last call is printed on top of the row that all the calls before it leave. */
  lemma {:induction false} RenderLast(row: seq<Cell>, calls: seq<DrawCall>, y: int)
    requires |calls| > 0
    ensures var last := calls[|calls| - 1];
      var before := RenderRow(row, calls[..|calls| - 1], y);
      RenderRow(row, calls, y) == if last.y == y then PrintRow(before, last.x, last.text, last.fg) else before
    decreases |calls|
  {
    var c := calls[0];
    var next := if c.y == y then PrintRow(row, c.x, c.text, c.fg) else row;
    assert RenderRow(row, calls, y) == RenderRow(next, calls[1..], y);
    if |calls| == 1 {
      assert calls[..0] == [];
    } else {
      var rest := calls[1..];
      RenderLast(next, rest, y);
      assert rest[|rest| - 1] == calls[|calls| - 1];
      assert rest[..|rest| - 1] == calls[..|calls| - 1][1..];
      assert calls[..|calls| - 1][0] == c;
      assert RenderRow(row, calls[..|calls| - 1], y) == RenderRow(next, rest[..|rest| - 1], y);
    }
  }

  /** Two calls on row `y` are printed one after the other. */
  lemma RenderTwo(row: seq<Cell>, c0: DrawCall, c1: DrawCall, y: int)
    requires c0.y == y && c1.y == y
    ensures RenderRow(row, [c0, c1], y) == PrintRow(PrintRow(row, c0.x, c0.text, c0.fg), c1.x, c1.text, c1.fg)
  {
    var once := PrintRow(row, c0.x, c0.text, c0.fg);
    assert [c0, c1][1..] == [c1];
    assert RenderRow(row, [c0, c1], y) == RenderRow(once, [c1], y);
    assert [c1][1..] == [];
    assert RenderRow(once, [c1], y) == RenderRow(PrintRow(once, c1.x, c1.text, c1.fg), [], y);
  }

  /**
   * The text bar is `[`, exactly `filled` filled glyphs, exactly `unfilled`
   * unfilled glyphs (none for a negative count), `]` and the suffix.
   */
  lemma TextBarLayout(filled: int, unfilled: int, suffix: string)
    ensures var s := TextBar(filled, unfilled, suffix);
      var f := if filled > 0 then filled else 0;
      var u := if unfilled > 0 then unfilled else 0;
      && |s| == f + u + 2 + |suffix|
      && s[0] == '['
      && (forall i :: 1 <= i <= f ==> s[i] == FilledTick)
      && (forall i :: f < i <= f + u ==> s[i] == UnfilledTick)
      && s[f + u + 1] == ']'
      && s[f + u + 2..] == suffix
  {
    var s := TextBar(filled, unfilled, suffix);
    var fs := Repeat(FilledTick, filled);
    var us := Repeat(UnfilledTick, unfilled);
    assert s == "[" + fs + us + "]" + suffix;
    forall i | 1 <= i <= |fs|
      ensures s[i] == FilledTick
    {
      assert s[i] == fs[i - 1];
    }
    forall i | |fs| < i <= |fs| + |us|
      ensures s[i] == UnfilledTick
    {
      assert s[i] == us[i - |fs| - 1];
    }
    assert s[|fs| + |us| + 2..] == suffix;
  }

  /**
   * For `ppt > 0` and `0 <= percent <= 100`, the filled ticks are between 0
   * and the bar length, so the unfilled count is not negative; both counts
   * drop the remainder of their division.
   */
  lemma TickCounts(percent: int, ppt: int)
    requires ppt > 0 && 0 <= percent <= 100
    ensures 0 <= FilledTicks(percent, ppt) <= MaxTicks(ppt)
    ensures UnfilledTicks(percent, ppt) >= 0
    ensures FilledTicks(percent, ppt) + UnfilledTicks(percent, ppt) == MaxTicks(ppt)
    ensures MaxTicks(ppt) * ppt <= 100 < (MaxTicks(ppt) + 1) * ppt
    ensures FilledTicks(percent, ppt) * ppt <= percent < (FilledTicks(percent, ppt) + 1) * ppt
  {
    var m := MaxTicks(ppt);
    var f := FilledTicks(percent, ppt);
    Arith.FloorDivBounds(100, ppt);
    Arith.FloorDivBounds(percent, ppt);
    assert f * ppt < (m + 1) * ppt;
    Arith.MulCancelLt(f, m + 1, ppt);
  }

  /** TickCounts where it applies: for a positive tick width and a percentage in 0 .. 100. */
  lemma BarInRange(percent: int, ppt: int)
    requires ppt != 0
    ensures ppt > 0 && 0 <= percent <= 100 ==>
      0 <= FilledTicks(percent, ppt) <= MaxTicks(ppt) && UnfilledTicks(percent, ppt) >= 0
  {
    if ppt > 0 && 0 <= percent <= 100 {
      TickCounts(percent, ppt);
    }
  }

  /**
   * For a positive tick width and a percentage in 0 .. 100: the background
   * holds unfilled glyphs on `1 .. max_ticks`, and it and the fill together
   * spell the text bar (LayerStrings).
   */
  lemma LayersInRange(percent: int, ppt: int, suffix: string)
    requires ppt != 0
    ensures ppt > 0 && 0 <= percent <= 100 ==>
      var m := MaxTicks(ppt);
      var f := FilledTicks(percent, ppt);
      var bg := TextBar(0, m, suffix);
      var text := TextBar(f, UnfilledTicks(percent, ppt), suffix);
      var fill := Repeat(FilledTick, f);
      && 0 <= f <= m
      && |bg| == |text| && 1 + |fill| <= |text|
      && (forall i :: 1 <= i <= m ==> bg[i] == UnfilledTick)
      && (forall k :: 1 <= k <= |fill| ==> fill[k - 1] == text[k])
      && (forall k :: 0 <= k < |text| && !(1 <= k <= |fill|) ==> bg[k] == text[k])
  {
    if ppt > 0 && 0 <= percent <= 100 {
      TickCounts(percent, ppt);
      TextBarLayout(0, MaxTicks(ppt), suffix);
      LayerStrings(MaxTicks(ppt), FilledTicks(percent, ppt), suffix);
    }
  }

  /** The tick width the program uses: 20 ticks, full only at 100 percent. */
  lemma DefaultTicks(percent: int)
    requires 0 <= percent <= 100
    ensures MaxTicks(5) == 20
    ensures FilledTicks(percent, 5) == 20 <==> percent == 100
    ensures percent == 99 ==> FilledTicks(percent, 5) == 19
  {
    Arith.FloorDivUnique(100, 5, 20);
    TickCounts(percent, 5);
    if percent == 99 {
      Arith.FloorDivUnique(99, 5, 19);
    }
  }

  /**
   * When the tick width divides 100, the bar is full (no unfilled tick
   * left) exactly when the percentage has reached 100.
   */
  lemma BarFull(percent: int, ppt: int)
    requires ppt > 0 && MaxTicks(ppt) * ppt == 100
    ensures FilledTicks(percent, ppt) >= MaxTicks(ppt) <==> percent >= 100
    ensures UnfilledTicks(percent, ppt) <= 0 <==> percent >= 100
  {
    var m := MaxTicks(ppt);
    var f := FilledTicks(percent, ppt);
    Arith.FloorDivBounds(percent, ppt);
  }

  /**
   * Above the bar (`percent >= 100 + ppt`) nothing clamps: every tick is
   * filled and there are more of them than the bar holds.
   */
  lemma ProgressDisplayOverflow(percent: int, ppt: int, displayPercent: bool, displayCount: bool, current: int, max: int)
    requires ppt > 0 && percent >= 100 + ppt
    ensures FilledTicks(percent, ppt) > MaxTicks(ppt) && UnfilledTicks(percent, ppt) < 0
    ensures var s := ProgressDisplay(percent, ppt, displayPercent, displayCount, current, max).value;
      var f := FilledTicks(percent, ppt);
      && |s| == f + 2 + |Suffix(percent, displayPercent, displayCount, current, max)|
      && (forall i :: 1 <= i <= f ==> s[i] == FilledTick)
      && s[f + 1] == ']'
  {
    TicksOverflow(percent, ppt);
    TextBarLayout(FilledTicks(percent, ppt), UnfilledTicks(percent, ppt),
                  Suffix(percent, displayPercent, displayCount, current, max));
  }

  lemma TicksOverflow(percent: int, ppt: int)
    requires ppt > 0 && percent >= 100 + ppt
    ensures FilledTicks(percent, ppt) > MaxTicks(ppt) >= 0
  {
    var m := MaxTicks(ppt);
    var f := FilledTicks(percent, ppt);
    Arith.FloorDivBounds(100, ppt);
    Arith.FloorDivBounds(percent, ppt);
    Arith.MulCancelLt(0, m + 1, ppt);
    assert m * ppt < f * ppt;
    Arith.MulCancelLt(m, f, ppt);
  }

  /** Written numbers hold none of the suffix's markers `%`, `(` and `/`. */
  lemma NumberHasNoMarks(i: int)
    ensures '%' !in Decimal.IntToString(i) && '(' !in Decimal.IntToString(i) && '/' !in Decimal.IntToString(i)
  {
  }

  /** The two parts of the suffix: neither number holds a marker, so each marker comes from its own part. */
  lemma SuffixParts(ps: string, cs: string, percent: int, displayPercent: bool, displayCount: bool, current: int, max: int)
    requires ps == if displayPercent then " " + Decimal.IntToString(percent) + "%" else ""
    requires cs == if displayCount then " (" + Decimal.IntToString(current) + "/" + Decimal.IntToString(max) + ")" else ""
    ensures var s := ps + cs;
      && ('%' in s <==> displayPercent)
      && ('(' in s <==> displayCount)
      && (forall i, j :: 0 <= i < |s| && 0 <= j < |s| && s[i] == '%' && s[j] == '(' ==> i < j)
  {
    var s := ps + cs;
    NumberHasNoMarks(percent);
    NumberHasNoMarks(current);
    NumberHasNoMarks(max);
    assert '%' !in cs && '(' !in ps;
    if displayPercent {
      assert ps[|ps| - 1] == '%';
    }
    if displayCount {
      assert cs[1] == '(';
    }
    forall i, j | 0 <= i < |s| && 0 <= j < |s| && s[i] == '%' && s[j] == '('
      ensures i < j
    {
      assert i < |ps| <= j;
    }
  }

  /** Shown alone, the percentage suffix reads back as the percentage given. */
  lemma PercentSuffixReadsBack(percent: int, current: int, max: int)
    ensures var s := Suffix(percent, true, false, current, max);
      s[0] == ' ' && s[|s| - 1] == '%' && Decimal.ParseInt(s[1..|s| - 1]) == Some(percent)
  {
    var s := Suffix(percent, true, false, current, max);
    assert s == " " + Decimal.IntToString(percent) + "%";
    assert s[1..|s| - 1] == Decimal.IntToString(percent);
    Decimal.IntToStringRoundTrip(percent);
  }

  /** The program's suffix, percentage and count both shown, is the percentage part followed by the count part. */
  lemma SuffixSplit(percent: int, current: int, max: int)
    ensures Suffix(percent, true, true, current, max)
            == Suffix(percent, true, false, current, max) + Suffix(percent, false, true, current, max)
  {
  }

  /**
   * `s` is ` (`, a number that reads back as `current`, the only `/` of
   * `s`, a number that reads back as `max`, and `)`.
   */
  predicate ReadsAsCount(s: string, current: int, max: int) {
    && |s| >= 6 && s[..2] == " (" && s[|s| - 1] == ')'
    && (forall i, j :: 0 <= i < |s| && 0 <= j < |s| && s[i] == '/' && s[j] == '/' ==> i == j)
    && exists k :: 2 < k < |s| - 2 && s[k] == '/'
                   && Decimal.ParseInt(s[2..k]) == Some(current) && Decimal.ParseInt(s[k + 1..|s| - 1]) == Some(max)
  }

  /**
   * Shown alone, the count suffix is ` (`, a number that reads back as
   * `current`, the only `/`, a number that reads back as `max`, and `)`.
   */
  lemma CountSuffixReadsBack(percent: int, current: int, max: int)
    ensures ReadsAsCount(Suffix(percent, false, true, current, max), current, max)
  {
    var c, m := Decimal.IntToString(current), Decimal.IntToString(max);
    var s := Suffix(percent, false, true, current, max);
    assert s == " (" + c + "/" + m + ")";
    NumberHasNoMarks(current);
    NumberHasNoMarks(max);
    Decimal.IntToStringRoundTrip(current);
    Decimal.IntToStringRoundTrip(max);
    Parenthesised(s, c, m, current, max);
  }

  /**
   * `s` is ` (c/m)` with no `/` in `c` or `m`: the only `/` sits between
   * the two, so `c` and `m` are read back from either side of it.
   */
  lemma Parenthesised(s: string, c: string, m: string, current: int, max: int)
    requires s == " (" + c + "/" + m + ")" && |c| >= 1 && |m| >= 1
    requires '/' !in c && '/' !in m
    requires Decimal.ParseInt(c) == Some(current) && Decimal.ParseInt(m) == Some(max)
    ensures ReadsAsCount(s, current, max)
  {
    var k := 2 + |c|;
    assert s[2..k] == c;
    assert s[k + 1..|s| - 1] == m;
    forall i | 0 <= i < |s| && s[i] == '/'
      ensures i == k
    {
    }
  }

  /** A later print from the same column that is at least as long hides an earlier one completely. */
  lemma PrintHides(row: seq<Cell>, x: int, a: string, b: string, fa: Color, fb: Color)
    requires |a| <= |b|
    ensures PrintRow(PrintRow(row, x, a, fa), x, b, fb) == PrintRow(row, x, b, fb)
  {
  }

  /** Prints on disjoint columns can be done in either order. */
  lemma PrintsCommute(row: seq<Cell>, x1: int, t1: string, f1: Color, x2: int, t2: string, f2: Color)
    requires x1 + |t1| <= x2 || x2 + |t2| <= x1
    ensures PrintRow(PrintRow(row, x1, t1, f1), x2, t2, f2) == PrintRow(PrintRow(row, x2, t2, f2), x1, t1, f1)
  {
  }

  /**
   * The background and the text bar agree except on the columns `1 ..
   * filled`, where the fill holds the text bar's glyphs.
   */
  lemma LayerStrings(m: int, f: int, suffix: string)
    requires 0 <= f <= m
    ensures var bg := TextBar(0, m, suffix);
      var text := TextBar(f, m - f, suffix);
      var fill := Repeat(FilledTick, f);
      && |bg| == |text| && 1 + |fill| <= |text|
      && (forall k :: 1 <= k <= |fill| ==> fill[k - 1] == text[k])
      && (forall k :: 0 <= k < |text| && !(1 <= k <= |fill|) ==> bg[k] == text[k])
  {
    var fill := Repeat(FilledTick, f);
    var tail := Repeat(UnfilledTick, m - f) + "]" + suffix;
    var bg := TextBar(0, m, suffix);
    var text := TextBar(f, m - f, suffix);
    RepeatSplit(UnfilledTick, f, m - f);
    assert bg == ("[" + Repeat(UnfilledTick, f)) + tail;
    assert text == ("[" + fill) + tail;
    forall k | 0 <= k < |text| && !(1 <= k <= |fill|)
      ensures bg[k] == text[k]
    {
      if k > f {
        assert bg[k] == tail[k - f - 1];
      }
    }
  }

  /** `c * (a + b)` is `c * a` followed by `c * b`. */
  lemma RepeatSplit(c: char, a: int, b: int)
    requires a >= 0 && b >= 0
    ensures Repeat(c, a + b) == Repeat(c, a) + Repeat(c, b)
  {
    var r, s := Repeat(c, a + b), Repeat(c, a) + Repeat(c, b);
    assert |r| == |s|;
    forall i | 0 <= i < |r|
      ensures r[i] == s[i]
    {
      if i >= a {
        assert s[i] == Repeat(c, b)[i - a];
      }
    }
  }

  /**
   * Printing `bg` at column `x` and then `fill` at `x + 1` shows `text`
   * when the two layers together spell it, with the fill's colour exactly
   * on the fill's columns.
   */
  lemma TwoLayers(row: seq<Cell>, x: int, bg: string, fill: string, text: string, bgColor: Color, fillColor: Color)
    requires |bg| == |text| && 1 + |fill| <= |text|
    requires forall k :: 1 <= k <= |fill| ==> fill[k - 1] == text[k]
    requires forall k :: 0 <= k < |text| && !(1 <= k <= |fill|) ==> bg[k] == text[k]
    ensures var shown := PrintRow(PrintRow(row, x, bg, bgColor), x + 1, fill, fillColor);
      forall i :: 0 <= i < |row| ==>
        shown[i] == if x <= i < x + |text| then Cell(text[i - x], if x + 1 <= i <= x + |fill| then fillColor else bgColor)
                    else row[i]
  {
    var once := PrintRow(row, x, bg, bgColor);
    var shown := PrintRow(once, x + 1, fill, fillColor);
    forall i | 0 <= i < |row|
      ensures shown[i] == if x <= i < x + |text| then Cell(text[i - x], if x + 1 <= i <= x + |fill| then fillColor else bgColor)
                          else row[i]
    {
      if x + 1 <= i < x + 1 + |fill| {
        assert fill[i - (x + 1)] == text[(i - x - 1) + 1];
      }
    }
  }

  /**
   * For `0 <= percent <= 100`, printing the background and then the fill
   * onto any row shows exactly the text bar from column `x` on: the fill
   * glyphs, in the fill colour, land on columns `x + 1 .. x + filled`, and
   * every other cell of the bar is white; cells outside it are untouched.
   */
  lemma LayersMatchText(row: seq<Cell>, x: int, y: int, percent: int, ppt: int, displayPercent: bool,
                        displayCount: bool, current: int, max: int, fgOverride: Option<Color>)
    requires ppt > 0 && 0 <= percent <= 100
    ensures var calls := DrawProgressDisplay(x, y, percent, ppt, displayPercent, displayCount, current, max, fgOverride).value;
      var text := ProgressDisplay(percent, ppt, displayPercent, displayCount, current, max).value;
      var shown := RenderRow(row, calls, y);
      forall i :: 0 <= i < |row| ==>
        shown[i] == if x <= i < x + |text| then
                      Cell(text[i - x], if x + 1 <= i <= x + FilledTicks(percent, ppt) then FillColor(fgOverride) else UnfilledColor)
                    else row[i]
  {
    var calls := DrawProgressDisplay(x, y, percent, ppt, displayPercent, displayCount, current, max, fgOverride).value;
    RenderTwo(row, calls[0], calls[1], y);
    assert calls == [calls[0], calls[1]];
    TwoLayers(row, x, calls[0].text, calls[1].text, ProgressDisplay(percent, ppt, displayPercent, displayCount, current, max).value,
              UnfilledColor, FillColor(fgOverride));
  }

  /** A cell the last call on the row covers shows that call's glyph and colour. */
  lemma LastCallOnTop(row: seq<Cell>, calls: seq<DrawCall>, y: int, i: int)
    requires |calls| > 0 && calls[|calls| - 1].y == y && 0 <= i < |row|
    requires calls[|calls| - 1].x <= i < calls[|calls| - 1].x + |calls[|calls| - 1].text|
    ensures var last := calls[|calls| - 1];
      RenderRow(row, calls, y)[i] == Cell(last.text[i - last.x], last.fg)
  {
    var last := calls[|calls| - 1];
    var before := RenderRow(row, calls[..|calls| - 1], y);
    RenderLast(row, calls, y);
    var shown := PrintRow(before, last.x, last.text, last.fg);
    assert RenderRow(row, calls, y) == shown;
    assert shown[i] == Cell(last.text[i - last.x], last.fg);
  }

  /**
   * Once the percentage is past the bar (`percent >= 100 + ppt`) the fill
   * runs over the background's closing bracket: that cell shows a filled
   * glyph in the fill colour.
   */
  lemma FillCoversBracket(row: seq<Cell>, x: int, y: int, percent: int, ppt: int, displayPercent: bool,
                          displayCount: bool, current: int, max: int, fgOverride: Option<Color>)
    requires ppt > 0 && percent >= 100 + ppt
    requires 0 <= x + MaxTicks(ppt) + 1 < |row|
    ensures var calls := DrawProgressDisplay(x, y, percent, ppt, displayPercent, displayCount, current, max, fgOverride).value;
      RenderRow(row, calls, y)[x + MaxTicks(ppt) + 1] == Cell(FilledTick, FillColor(fgOverride))
  {
    var calls := DrawProgressDisplay(x, y, percent, ppt, displayPercent, displayCount, current, max, fgOverride).value;
    var m := MaxTicks(ppt);
    TicksOverflow(percent, ppt);
    LastCallOnTop(row, calls, y, x + m + 1);
  }
}
