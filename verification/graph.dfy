/**
 The console row the controller prints after each tick: a bar of `width` cells
 with a label (the value, its unit and an optional arrow) placed at the value's
 position between `min` and `max`, framed by `|` characters.
 */
module Graph {
  import opened Numeric
  import opened PyText

  /** The arrow after the label: right for 1, left for -1, none otherwise. */
  function Arrow(direction: int): string
  {
    if direction == 1 then "-> " else if direction == -1 then "<- " else ""
  }

  /** `" %d%s %s" % (value, unit, arrow)`. */
  function Label(value: int, unit: string, direction: int): (l: string)
    ensures |l| >= 3 && l[0] == ' ' && l[|l| - 1] == ' '
  {
    " " + IntToString(value) + unit + " " + Arrow(direction)
  }

  /** The cell where the label starts: `int(a * value + b)` with `a = width / (max - min)`
      and `b = -width * min / (max - min)`, i.e. `width * (value - min) / (max - min)`
      evaluated exactly and truncated toward zero. */
  function Position(value: int, min: int, max: int, width: int): int
    requires max != min
  {
    TruncDiv(width * value - width * min, max - min)
  }

  /** The row before the closing `|`: the opening bar, `x` dots, the label, and enough dots
      to fill `width` cells (none when the label already reaches past them). */
  function Body(tag: string, x: int, width: int): string
  {
    "|" + Repeat('.', x) + tag + Repeat('.', width - x - |tag|)
  }

  /** `getLineGraph`: empty for a non-positive width or an empty range; otherwise the body,
      closed by `|` when the body is at most `width + 1` characters long. */
  function LineGraph(value: int, min: int, max: int, width: int, unit: string, direction: int): (r: string)
    ensures r == "" <==> width <= 0 || max == min
    ensures r != "" ==> r[0] == '|'
  {
    if width <= 0 then ""
    else if max - min == 0 then ""
    else Row(Label(value, unit, direction), Position(value, min, max, width), width)
  }

  /** The body, closed by `|` when it is at most `width + 1` characters long. */
  function Row(tag: string, x: int, width: int): string
  {
    var body := Body(tag, x, width);
    if |body| <= width + 1 then body + "|" else body
  }

  /** The body ends in a dot or in the label's trailing blank, never in a bar, and places
      the label right after the opening bar and the leading dots. */
  lemma BodyShape(tag: string, x: int, width: int)
    requires |tag| > 0 && tag[|tag| - 1] == ' '
    ensures var b := Body(tag, x, width);
            && |b| == 1 + Max(x, 0) + |tag| + Max(width - x - |tag|, 0)
            && b[0] == '|' && b[|b| - 1] != '|'
            && (forall k :: 1 <= k <= Max(x, 0) ==> b[k] == '.')
            && b[1 + Max(x, 0)..1 + Max(x, 0) + |tag|] == tag
  {
    var b := Body(tag, x, width);
    var lead := "|" + Repeat('.', x);
    assert b == lead + tag + Repeat('.', width - x - |tag|);
    assert b[|lead|..|lead| + |tag|] == tag;
  }

  /** The row gets its closing bar exactly when the label starts inside the bar and fits in
      it: `0 <= x` and `x + |tag| <= width`. */
  lemma ClosedExactlyWhenLabelFits(tag: string, x: int, width: int)
    requires |tag| > 0 && width > 0
    ensures |Body(tag, x, width)| <= width + 1 <==> 0 <= x && x + |tag| <= width
  {
  }

  /** Which rows end with a closing bar, how long a closed row is, and where the label
      stands. */
  lemma RowShape(tag: string, x: int, width: int)
    requires |tag| > 0 && tag[|tag| - 1] == ' ' && width > 0
    ensures var r := Row(tag, x, width);
            && r[0] == '|'
            && (r[|r| - 1] == '|' <==> 0 <= x && x + |tag| <= width)
            && (0 <= x && x + |tag| <= width ==> |r| == width + 2)
            && r[1 + Max(x, 0)..1 + Max(x, 0) + |tag|] == tag
  {
    var b := Body(tag, x, width);
    var r := Row(tag, x, width);
    BodyShape(tag, x, width);
    ClosedExactlyWhenLabelFits(tag, x, width);
    var lo := 1 + Max(x, 0);
    if |b| <= width + 1 {
      assert r == b + "|";
      assert r[lo..lo + |tag|] == b[lo..lo + |tag|];
    } else {
      assert r == b;
    }
  }

  /** The same for the printed graph, at the value's position. */
  lemma LineGraphShape(value: int, min: int, max: int, width: int, unit: string, direction: int)
    requires width > 0 && max != min
    ensures var r := LineGraph(value, min, max, width, unit, direction);
            var tag := Label(value, unit, direction);
            var x := Position(value, min, max, width);
            && (r[|r| - 1] == '|' <==> 0 <= x && x + |tag| <= width)
            && (0 <= x && x + |tag| <= width ==> |r| == width + 2)
            && r[1 + Max(x, 0)..1 + Max(x, 0) + |tag|] == tag
  {
    RowShape(Label(value, unit, direction), Position(value, min, max, width), width);
  }

  /** A value inside `[min, max]` (with `min < max`) is placed on one of the cells
      `0 .. width`. */
  lemma PositionWithinBar(value: int, min: int, max: int, width: int)
    requires min < max && min <= value <= max && width > 0
    ensures 0 <= Position(value, min, max, width) <= width
  {
    var d := max - min;
    assert width * value - width * min == (value - min) * width;
    MulMonotone(0, value - min, width);
    MulMonotone(value - min, d, width);
    assert 0 * d <= width * value - width * min <= width * d;
    TruncDivBetween(width * value - width * min, d, 0, width);
  }

  /** The row the controller prints, `getLineGraph(target, 0, 100, 50, "%", direction)`: for a
      target in `[0, 100]` the label starts at cell `target / 2`, truncated. */
  lemma ControllerRowPosition(target: int)
    requires 0 <= target <= 100
    ensures Position(target, 0, 100, 50) == target / 2
  {
    var q := target / 2;
    assert 50 * target - 50 * 0 == q * 100 + 50 * (target % 2);
    TruncDivUnique(50 * target - 50 * 0, 100, q);
  }

  /** That row places the target's label right after the opening bar and `target / 2`
      dots. */
  lemma ControllerRow(target: int, direction: int)
    requires 0 <= target <= 100
    ensures var r := LineGraph(target, 0, 100, 50, "%", direction);
            var tag := Label(target, "%", direction);
            && r[0] == '|'
            && r[1 + target / 2..1 + target / 2 + |tag|] == tag
  {
    ControllerRowPosition(target);
    LineGraphShape(target, 0, 100, 50, "%", direction);
  }
}
