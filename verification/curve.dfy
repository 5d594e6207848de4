/**
 The fan curve: a list of (temperature, speed) points, the per-segment line
 coefficients cached from it once, and the evaluation that maps a temperature to
 a fan speed (flat outside the curve, linear with truncation inside it).
 Python computes the coefficients as floats; here each segment keeps the exact
 rational line `speed(t) = (slopeNum * t + interceptNum) / den`.
 */
module Curve {
  import opened Optional
  import opened Numeric

  /** One configured point: temperature in ºC, fan speed in percent. */
  datatype Point = Point(temp: int, speed: int)

  /** The cached parameters of one segment: the `None` marker of two points that share a
      temperature, or the line `a = slopeNum / den`, `b = interceptNum / den`. */
  datatype Coeff = Vertical | Line(slopeNum: int, interceptNum: int, den: int)

  /** `den * (a * t + b)` for a line segment. */
  function Scaled(c: Coeff, t: int): int
    requires c.Line?
  {
    c.slopeNum * t + c.interceptNum
  }

  /** The line `c` passes through point `p`. */
  predicate OnLine(c: Coeff, p: Point)
    requires c.Line?
  {
    Scaled(c, p.temp) == p.speed * c.den
  }

  /** The coefficients of the segment from `p` to `q`: the line through both points, whose
      denominator is the temperature step, or the marker when the step is zero. */
  function SegmentCoeff(p: Point, q: Point): (c: Coeff)
    ensures c.Vertical? <==> p.temp == q.temp
    ensures c.Line? ==> c.den == q.temp - p.temp && OnLine(c, p) && OnLine(c, q)
  {
    if p.temp == q.temp then Vertical
    else Line(q.speed - p.speed, q.temp * p.speed - p.temp * q.speed, q.temp - p.temp)
  }

  /** The coefficient table: one entry per adjacent pair of points, the marker exactly
      where the pair shares a temperature, otherwise a line over the pair's temperature
      step (that the line meets both points is `CoefficientLine`). */
  function BuildCoefficients(points: seq<Point>): (cs: seq<Coeff>)
    ensures |cs| == if |points| == 0 then 0 else |points| - 1
    ensures forall i {:trigger cs[i]} :: 0 <= i < |cs| ==> (cs[i].Vertical? <==> points[i].temp == points[i + 1].temp)
    ensures forall i {:trigger cs[i]} :: 0 <= i < |cs| && cs[i].Line? ==> cs[i].den == points[i + 1].temp - points[i].temp
  {
    CoefficientsFrom(points, 0)
  }

  /** The table entries for the segments starting at index `i` onwards. */
  function CoefficientsFrom(points: seq<Point>, i: nat): (cs: seq<Coeff>)
    ensures |cs| == if i + 1 >= |points| then 0 else |points| - 1 - i
    ensures forall j :: 0 <= j < |cs| ==> (cs[j].Vertical? <==> points[i + j].temp == points[i + j + 1].temp)
    ensures forall j :: 0 <= j < |cs| && cs[j].Line? ==> cs[j].den == points[i + j + 1].temp - points[i + j].temp
    decreases |points| - i
  {
    if i + 1 >= |points| then []
    else [SegmentCoeff(points[i], points[i + 1])] + CoefficientsFrom(points, i + 1)
  }

  /** Entry `j` of the table from `i` is the segment from point `i + j` to the next. */
  lemma {:induction false} CoefficientFromAt(points: seq<Point>, i: nat, j: nat)
    requires i + j + 1 < |points|
    ensures CoefficientsFrom(points, i)[j] == SegmentCoeff(points[i + j], points[i + j + 1])
    decreases j
  {
    if j > 0 {
      CoefficientFromAt(points, i + 1, j - 1);
    }
  }

  /** Entry `i` of the table is the segment from point `i` to point `i + 1`. */
  lemma CoefficientAt(points: seq<Point>, i: nat)
    requires i + 1 < |points|
    ensures BuildCoefficients(points)[i] == SegmentCoeff(points[i], points[i + 1])
  {
    CoefficientFromAt(points, 0, i);
  }

  /** A line entry of the table is the line through both points of its pair:
      `a = (s1 - s0) / (t1 - t0)` and `b = (t1 * s0 - t0 * s1) / (t1 - t0)`. */
  lemma CoefficientLine(points: seq<Point>, i: nat)
    requires i + 1 < |points| && points[i].temp != points[i + 1].temp
    ensures var c := BuildCoefficients(points)[i];
            && c.Line? && c.den == points[i + 1].temp - points[i].temp
            && OnLine(c, points[i]) && OnLine(c, points[i + 1])
  {
    CoefficientAt(points, i);
  }

  /** The caching loop as the program runs it: appends one entry per adjacent pair. */
  method ComputeCoefficients(points: seq<Point>) returns (cs: seq<Coeff>)
    ensures cs == BuildCoefficients(points)
  {
    var n := if |points| == 0 then 0 else |points| - 1;
    cs := [];
    var i := 0;
    while i < n
      invariant 0 <= i <= n
      invariant |cs| == i
      invariant cs == BuildCoefficients(points)[..i]
    {
      CoefficientAt(points, i);
      cs := cs + [SegmentCoeff(points[i], points[i + 1])];
      i := i + 1;
    }
  }

  /** The immutable curve: its points and the coefficients cached from them. */
  datatype CurveModel = CurveModel(points: seq<Point>, coeffs: seq<Coeff>)
  {
    /** A usable curve has at least one point and the coefficients built from its points. */
    predicate Valid()
    {
      |points| > 0 && coeffs == BuildCoefficients(points)
    }
  }

  /** Build the curve; an empty point list is refused, as the program exits on it. */
  function Build(points: seq<Point>): (r: Option<CurveModel>)
    ensures r.None? <==> |points| == 0
    ensures r.Some? ==> r.value.Valid() && r.value.points == points
  {
    if |points| == 0 then None else Some(CurveModel(points, BuildCoefficients(points)))
  }

  /** Points are listed in non-decreasing temperature order (duplicates allowed). */
  predicate NonDecreasing(points: seq<Point>)
  {
    forall i, j :: 0 <= i <= j < |points| ==> points[i].temp <= points[j].temp
  }

  /** Points are listed in strictly increasing temperature order. */
  predicate StrictlyIncreasing(points: seq<Point>)
  {
    forall i, j :: 0 <= i < j < |points| ==> points[i].temp < points[j].temp
  }

  /** Every configured speed lies in `[lo, hi]`. */
  predicate SpeedsWithin(points: seq<Point>, lo: int, hi: int)
  {
    forall i :: 0 <= i < |points| ==> lo <= points[i].speed <= hi
  }

  /** Starting from index `i`, the index of the first point hotter than `t` (or `|points|`
      when there is none). */
  function FirstHotterFrom(points: seq<Point>, t: int, i: nat): (n: nat)
    requires i <= |points|
    ensures i <= n <= |points|
    ensures forall j :: i <= j < n ==> points[j].temp <= t
    ensures n < |points| ==> t < points[n].temp
    decreases |points| - i
  {
    if i == |points| || t < points[i].temp then i
    else FirstHotterFrom(points, t, i + 1)
  }

  /** The index the scan settles on: the last point of the run of points, from the start,
      whose temperature is at most `t` (-1 when the first point is already hotter). */
  function LeftPoint(points: seq<Point>, t: int): (k: int)
    ensures -1 <= k < |points|
    ensures forall j :: 0 <= j <= k ==> points[j].temp <= t
    ensures k + 1 < |points| ==> t < points[k + 1].temp
  {
    FirstHotterFrom(points, t, 0) - 1
  }

  /** The three facts of `LeftPoint`'s contract single out its result. */
  lemma LeftPointUnique(points: seq<Point>, t: int, k: int)
    requires -1 <= k < |points|
    requires forall j :: 0 <= j <= k ==> points[j].temp <= t
    requires k + 1 < |points| ==> t < points[k + 1].temp
    ensures LeftPoint(points, t) == k
  {
  }

  /** The scan as the program writes it: walk forward while the point is not hotter than
      `t`, and stop at the first point that is. */
  method ScanLeftPoint(points: seq<Point>, t: int) returns (leftPoint: int)
    ensures leftPoint == LeftPoint(points, t)
  {
    leftPoint := -1;
    var i := 0;
    while i < |points|
      invariant 0 <= i <= |points|
      invariant leftPoint == i - 1
      invariant forall j :: 0 <= j < i ==> points[j].temp <= t
    {
      if t >= points[i].temp {
        leftPoint := i;
      } else {
        break;
      }
      i := i + 1;
    }
    LeftPointUnique(points, t, leftPoint);
  }

  /** Which return statement of the evaluation is taken. */
  datatype Branch = BelowCurve | BeyondCurve | Interpolate(seg: nat) | VerticalStep(seg: nat)

  function Locate(m: CurveModel, t: int): (b: Branch)
    requires m.Valid()
    ensures (b.Interpolate? || b.VerticalStep?) ==> b.seg + 1 < |m.points|
  {
    var k := LeftPoint(m.points, t);
    if k < 0 then BelowCurve
    else if k >= |m.points| - 1 then BeyondCurve
    else if m.coeffs[k].Line? then Interpolate(k)
    else VerticalStep(k)
  }

  /** The fan speed the curve asks for at temperature `t`. */
  function Evaluate(m: CurveModel, t: int): int
    requires m.Valid()
  {
    match Locate(m, t)
    case BelowCurve => m.points[0].speed
    case BeyondCurve => m.points[|m.points| - 1].speed
    case Interpolate(k) => TruncDiv(Scaled(m.coeffs[k], t), m.coeffs[k].den)
    case VerticalStep(k) => m.points[k + 1].speed
  }

  /** The vertical-line return is dead code for every curve, sorted or not: the scan only
      stops before the last point at a point strictly hotter than `t`, and the point it
      stopped after is not hotter than `t`, so the two never share a temperature. */
  lemma VerticalStepUnreachable(m: CurveModel, t: int)
    requires m.Valid()
    ensures !Locate(m, t).VerticalStep?
  {
  }

  /** When the evaluation interpolates on segment `k`, `t` lies in `[t_k, t_{k+1})` and the
      result lies between the segment's two endpoint speeds. */
  lemma InterpolationBetweenEndpoints(m: CurveModel, t: int)
    requires m.Valid() && Locate(m, t).Interpolate?
    ensures var k := Locate(m, t).seg;
            && m.points[k].temp <= t < m.points[k + 1].temp
            && Min(m.points[k].speed, m.points[k + 1].speed) <= Evaluate(m, t)
            && Evaluate(m, t) <= Max(m.points[k].speed, m.points[k + 1].speed)
  {
    var k := Locate(m, t).seg;
    var p, q, c := m.points[k], m.points[k + 1], m.coeffs[k];
    assert p.temp <= t < q.temp;
    CoefficientLine(m.points, k);
    LineThroughEndpoints(c, p, q, t);
    TruncDivBetween(Scaled(c, t), c.den, Min(p.speed, q.speed), Max(p.speed, q.speed));
  }

  /** A line through `p` and `q`, written from the left point: `den * speed(t)` is
      `s_p * den + (s_q - s_p) * (t - t_p)`. */
  lemma ScaledFromLeft(c: Coeff, p: Point, q: Point, t: int)
    requires c.Line? && c.den == q.temp - p.temp > 0 && OnLine(c, p) && OnLine(c, q)
    ensures Scaled(c, t) == p.speed * c.den + (q.speed - p.speed) * (t - p.temp)
  {
    var d := c.den;
    assert c.slopeNum * d == q.speed * d - p.speed * d;
    assert (q.speed - p.speed) * d == q.speed * d - p.speed * d;
    MulCancel(c.slopeNum, q.speed - p.speed, d);
  }

  /** On `[t_p, t_q]` a line through `p` and `q` stays between their two speeds
      (scaled by the denominator). */
  lemma LineThroughEndpoints(c: Coeff, p: Point, q: Point, t: int)
    requires c.Line? && c.den == q.temp - p.temp > 0 && OnLine(c, p) && OnLine(c, q)
    requires p.temp <= t <= q.temp
    ensures Min(p.speed, q.speed) * c.den <= Scaled(c, t) <= Max(p.speed, q.speed) * c.den
  {
    ScaledFromLeft(c, p, q, t);
    BetweenEndpoints(p.speed, q.speed, c.den, t - p.temp);
  }

  /** `s0 * d + (s1 - s0) * u` for `0 <= u <= d` lies between `s0 * d` and `s1 * d`. */
  lemma BetweenEndpoints(s0: int, s1: int, d: int, u: int)
    requires 0 <= u <= d
    ensures Min(s0, s1) * d <= s0 * d + (s1 - s0) * u <= Max(s0, s1) * d
  {
    if s0 <= s1 {
      MulMonotone(0, u, s1 - s0);
      MulMonotone(u, d, s1 - s0);
      assert s1 * d == s0 * d + (s1 - s0) * d;
    } else {
      MulMonotone(0, u, s0 - s1);
      MulMonotone(u, d, s0 - s1);
      assert s1 * d == s0 * d - (s0 - s1) * d;
      assert (s1 - s0) * u == -((s0 - s1) * u);
    }
  }

  /** Whatever the temperature, the curve never asks for a speed outside the range of its
      configured speeds. */
  lemma EvaluateWithinSpeeds(m: CurveModel, t: int, lo: int, hi: int)
    requires m.Valid() && SpeedsWithin(m.points, lo, hi)
    ensures lo <= Evaluate(m, t) <= hi
  {
    VerticalStepUnreachable(m, t);
    if Locate(m, t).Interpolate? {
      InterpolationBetweenEndpoints(m, t);
    }
  }

  /** Below the first point the curve is flat at the first point's speed. */
  lemma EvaluateBelowFirst(m: CurveModel, t: int)
    requires m.Valid() && t < m.points[0].temp
    ensures Evaluate(m, t) == m.points[0].speed
  {
  }

  /** For a sorted curve, at or beyond the last point the curve is flat at the last speed. */
  lemma EvaluateBeyondLast(m: CurveModel, t: int)
    requires m.Valid() && NonDecreasing(m.points)
    requires m.points[|m.points| - 1].temp <= t
    ensures Evaluate(m, t) == m.points[|m.points| - 1].speed
  {
    var n := |m.points|;
    LeftPointUnique(m.points, t, n - 1);
  }

  /** For a sorted curve, a temperature in `[t_k, t_{k+1})` with `t_k < t_{k+1}` is
      interpolated on segment `k`. */
  lemma LocateInSegment(m: CurveModel, t: int, k: nat)
    requires m.Valid() && NonDecreasing(m.points)
    requires k + 1 < |m.points| && m.points[k].temp <= t < m.points[k + 1].temp
    ensures Locate(m, t) == Interpolate(k)
  {
    LeftPointUnique(m.points, t, k);
  }

  /** For a sorted curve, evaluating at a configured temperature gives the speed of the
      LAST point with that temperature: exactly the point's speed when the temperature is
      not repeated, and the later point's speed at a duplicated temperature. */
  lemma EvaluateAtLastPointOfTemperature(m: CurveModel, k: nat)
    requires m.Valid() && NonDecreasing(m.points) && k < |m.points|
    requires k + 1 == |m.points| || m.points[k].temp < m.points[k + 1].temp
    ensures Evaluate(m, m.points[k].temp) == m.points[k].speed
  {
    var t := m.points[k].temp;
    LeftPointUnique(m.points, t, k);
    if k + 1 < |m.points| {
      CoefficientLine(m.points, k);
      TruncDivExact(m.points[k].speed, m.coeffs[k].den);
    }
  }

  /** For strictly increasing temperatures, every configured point is met exactly. */
  lemma EvaluateAtConfiguredPoint(m: CurveModel, k: nat)
    requires m.Valid() && StrictlyIncreasing(m.points) && k < |m.points|
    ensures Evaluate(m, m.points[k].temp) == m.points[k].speed
  {
    EvaluateAtLastPointOfTemperature(m, k);
  }

  /** For a sorted curve with two points at one temperature (and the next point hotter),
      the curve takes the later point's speed there: a hard step. */
  lemma EvaluateAtDuplicate(m: CurveModel, k: nat)
    requires m.Valid() && NonDecreasing(m.points) && k + 1 < |m.points|
    requires m.points[k].temp == m.points[k + 1].temp
    requires k + 2 == |m.points| || m.points[k + 1].temp < m.points[k + 2].temp
    ensures Evaluate(m, m.points[k].temp) == m.points[k + 1].speed
  {
    EvaluateAtLastPointOfTemperature(m, k + 1);
  }

  /** For a sorted curve, strictly inside a segment the speed lies between the segment's
      endpoint speeds. */
  lemma EvaluateInsideSegment(m: CurveModel, t: int, k: nat)
    requires m.Valid() && NonDecreasing(m.points)
    requires k + 1 < |m.points| && m.points[k].temp < t < m.points[k + 1].temp
    ensures Min(m.points[k].speed, m.points[k + 1].speed) <= Evaluate(m, t)
    ensures Evaluate(m, t) <= Max(m.points[k].speed, m.points[k + 1].speed)
  {
    LocateInSegment(m, t, k);
    InterpolationBetweenEndpoints(m, t);
  }

  /** Reference definition of linear interpolation, independent of the cached table:
      start from the left point's speed and add the rise over `t - t_p`, truncated. */
  function LinearAt(p: Point, q: Point, t: int): int
    requires p.temp < q.temp
  {
    TruncDiv(p.speed * (q.temp - p.temp) + (q.speed - p.speed) * (t - p.temp), q.temp - p.temp)
  }

  /** Evaluating through the cached `a * t + b` agrees with interpolating from the left
      point, on every segment the scan selects. */
  lemma EvaluateMatchesInterpolation(m: CurveModel, t: int)
    requires m.Valid() && Locate(m, t).Interpolate?
    ensures var k := Locate(m, t).seg;
            && m.points[k].temp < m.points[k + 1].temp
            && Evaluate(m, t) == LinearAt(m.points[k], m.points[k + 1], t)
  {
    var k := Locate(m, t).seg;
    CoefficientLine(m.points, k);
    ScaledFromLeft(m.coeffs[k], m.points[k], m.points[k + 1], t);
  }

  /** For a sorted curve, a temperature in `[t_k, t_{k+1})` gets the interpolated speed of
      segment `k`. */
  lemma EvaluateOnSegment(m: CurveModel, t: int, k: nat)
    requires m.Valid() && NonDecreasing(m.points)
    requires k + 1 < |m.points| && m.points[k].temp <= t < m.points[k + 1].temp
    ensures Evaluate(m, t) == LinearAt(m.points[k], m.points[k + 1], t)
  {
    LocateInSegment(m, t, k);
    EvaluateMatchesInterpolation(m, t);
  }

  /** The curve the program ships with: (0, 0), (40, 0), (50, 40), (60, 75), (100, 100),
      stated point by point. */
  predicate IsDefaultCurve(points: seq<Point>)
  {
    && |points| == 5
    && points[0] == Point(0, 0) && points[1] == Point(40, 0) && points[2] == Point(50, 40)
    && points[3] == Point(60, 75) && points[4] == Point(100, 100)
  }

  lemma DefaultPointsSorted(points: seq<Point>)
    requires IsDefaultCurve(points)
    ensures StrictlyIncreasing(points) && NonDecreasing(points)
  {
  }

  /** The shipped curve's documented values: flat extrapolation on both sides. */
  lemma DefaultCurveFlatEnds(m: CurveModel)
    requires m.Valid() && IsDefaultCurve(m.points)
    ensures Evaluate(m, -10) == 0
    ensures Evaluate(m, 100) == 100
    ensures Evaluate(m, 150) == 100
  {
    DefaultPointsSorted(m.points);
    EvaluateBelowFirst(m, -10);
    EvaluateBeyondLast(m, 100);
    EvaluateBeyondLast(m, 150);
  }

  /** On the shipped curve, each segment is evaluated by interpolating its two points. */
  lemma DefaultCurveOnSegment(m: CurveModel, t: int, k: nat)
    requires m.Valid() && IsDefaultCurve(m.points)
    requires k < 4 && m.points[k].temp <= t < m.points[k + 1].temp
    ensures Evaluate(m, t) == LinearAt(m.points[k], m.points[k + 1], t)
  {
    DefaultPointsSorted(m.points);
    EvaluateOnSegment(m, t, k);
  }

  /** Interpolated values on the shipped curve's four segments; the last two show the
      truncation of `57.5` and `87.5`. */
  lemma DefaultSegmentSamples()
    ensures LinearAt(Point(0, 0), Point(40, 0), 30) == 0
    ensures LinearAt(Point(40, 0), Point(50, 40), 45) == 20
    ensures LinearAt(Point(50, 40), Point(60, 75), 55) == 57
    ensures LinearAt(Point(60, 75), Point(100, 100), 80) == 87
  {
    TruncDivExact(0, 40);
    TruncDivExact(20, 10);
  }
}
