/**
 The stand-alone fixed-curve script: a hard-coded three-piece fan curve (off below
 40 ºC, a steep ramp to 60 % at 60 ºC, then speed equal to temperature up to 100).
 */
module FixedCurve {
  import opened Numeric
  import opened Curve

  /** `getFan`: the fan speed in percent for a temperature in ºC. */
  function GetFan(temperature: int): (speed: int)
    ensures 0 <= speed <= 100
  {
    if temperature < 40 then 0
    else if temperature < 60 then temperature * 3 - 120
    else Min(temperature, 100)
  }

  /** The three pieces: off below 40 ºC, `3t - 120` from 40 up to 60, and `min(t, 100)`
      from 60 on, with the anchors the comments give (0 % at 40 ºC, 60 % at 60 ºC). */
  lemma GetFanPieces(t: int)
    ensures t < 40 ==> GetFan(t) == 0
    ensures 40 <= t < 60 ==> GetFan(t) == 3 * t - 120
    ensures 60 <= t ==> GetFan(t) == Min(t, 100)
    ensures 100 <= t ==> GetFan(t) == 100
    ensures GetFan(40) == 0 && GetFan(60) == 60 && GetFan(100) == 100
  {
  }

  /** A hotter card never gets a slower fan, across both seams included. */
  lemma GetFanMonotone(t1: int, t2: int)
    requires t1 <= t2
    ensures GetFan(t1) <= GetFan(t2)
  {
  }

  /** The same curve written as points for the curve controller: (40, 0), (60, 60),
      (100, 100). */
  predicate IsFixedCurve(points: seq<Point>)
  {
    |points| == 3 && points[0] == Point(40, 0) && points[1] == Point(60, 60) && points[2] == Point(100, 100)
  }

  /** The fixed script and the curve controller agree: `getFan` is exactly the evaluation of
      the curve through (40, 0), (60, 60) and (100, 100), at every temperature. */
  lemma GetFanIsCurve(m: CurveModel, t: int)
    requires m.Valid() && IsFixedCurve(m.points)
    ensures GetFan(t) == Evaluate(m, t)
  {
    assert NonDecreasing(m.points);
    if t < 40 {
      EvaluateBelowFirst(m, t);
    } else if t < 60 {
      EvaluateOnSegment(m, t, 0);
      assert 0 * 20 + 60 * (t - 40) == (3 * t - 120) * 20;
      TruncDivExact(3 * t - 120, 20);
    } else if t < 100 {
      EvaluateOnSegment(m, t, 1);
      assert 60 * 40 + 40 * (t - 60) == t * 40;
      TruncDivExact(t, 40);
    } else {
      EvaluateBeyondLast(m, t);
    }
  }
}
