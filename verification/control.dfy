/**
 The control loop of the curve controller: one tick reads the core temperature,
 asks the curve for a speed, boosts it when the temperature jumped, and commands
 the fan only when the target changed. The state carried between ticks is the
 previous temperature and the last commanded target.
 */
module Control {
  import opened Optional
  import opened Numeric
  import opened Curve
  import opened Graph

  /** Doping: a fast temperature rise adds a fixed boost to the curve's speed. */
  const DopingEnabled: bool := true
  /** The rise, in ºC since the previous tick, that triggers doping. */
  const DopingThreshold: int := 10
  /** The boost, in percentage points. */
  const DopingSpeed: int := 10
  /** The fan speed ceiling, in percent. */
  const MaxSpeed: int := 100
  /** Width, in cells, of the bar printed after each tick. */
  const GraphWidth: int := 50

  /** What the loop remembers between ticks. */
  datatype LoopState = LoopState(previousCoreTemp: int, targetFanSpeedOld: int)

  /** Before the first tick the previous temperature is 0 and the last commanded target is
      the fan's current speed as read from the card. */
  function InitialState(currentSpeed: int): LoopState
  {
    LoopState(0, currentSpeed)
  }

  /** The result of one tick: the target, the speed written to the card (if any), the
      direction shown by the arrow, the printed bar, and the state for the next tick. */
  datatype TickOutcome = TickOutcome(target: int, write: Option<int>, direction: int, row: string, next: LoopState)

  /** Whether this tick boosts the curve's speed. */
  predicate Doped(previousCoreTemp: int, coreTemp: int)
  {
    DopingEnabled && coreTemp >= previousCoreTemp + DopingThreshold
  }

  /** `min(speed + dopingSpeed, 100)`. */
  function Boost(speed: int): (r: int)
    ensures r <= MaxSpeed
    ensures r == MaxSpeed || r == speed + DopingSpeed
    ensures speed <= MaxSpeed - DopingSpeed ==> r == speed + DopingSpeed
    ensures speed <= MaxSpeed ==> speed <= r
  {
    Min(speed + DopingSpeed, MaxSpeed)
  }

  /** One pass of the loop body at core temperature `coreTemp`. */
  function Tick(m: CurveModel, s: LoopState, coreTemp: int): (o: TickOutcome)
    requires m.Valid()
    ensures o.next.previousCoreTemp == coreTemp
    ensures o.write.Some? <==> o.target != s.targetFanSpeedOld
    ensures o.write.Some? ==> o.write.value == o.target
    ensures o.next.targetFanSpeedOld == o.target
    ensures o.direction == Sign(o.target - s.targetFanSpeedOld)
    ensures o.row == LineGraph(o.target, 0, MaxSpeed, GraphWidth, "%", o.direction)
  {
    var curveSpeed := Evaluate(m, coreTemp);
    var target := if Doped(s.previousCoreTemp, coreTemp) then Boost(curveSpeed) else curveSpeed;
    var changed := target != s.targetFanSpeedOld;
    var direction := if !changed then 0 else if target > s.targetFanSpeedOld then 1 else -1;
    var row := LineGraph(target, 0, MaxSpeed, GraphWidth, "%", direction);
    var old' := if changed then target else s.targetFanSpeedOld;
    TickOutcome(target, if changed then Some(target) else None, direction, row, LoopState(coreTemp, old'))
  }

  /** The target is the curve's speed, boosted exactly on a rise of at least the threshold. */
  lemma TickTarget(m: CurveModel, s: LoopState, coreTemp: int)
    requires m.Valid()
    ensures coreTemp >= s.previousCoreTemp + DopingThreshold ==>
              Tick(m, s, coreTemp).target == Min(Evaluate(m, coreTemp) + DopingSpeed, MaxSpeed)
    ensures coreTemp < s.previousCoreTemp + DopingThreshold ==>
              Tick(m, s, coreTemp).target == Evaluate(m, coreTemp)
  {
  }

  /** On the first tick the rise is measured from 0 ºC, so any reading of at least the
      threshold is boosted. */
  lemma FirstTickDoping(m: CurveModel, currentSpeed: int, coreTemp: int)
    requires m.Valid()
    ensures Tick(m, InitialState(currentSpeed), coreTemp).target ==
              if coreTemp >= DopingThreshold then Boost(Evaluate(m, coreTemp)) else Evaluate(m, coreTemp)
  {
  }

  /** With every configured speed in `[0, 100]`, every target is in `[0, 100]`: doping
      never pushes it past the ceiling. */
  lemma TickTargetInRange(m: CurveModel, s: LoopState, coreTemp: int)
    requires m.Valid() && SpeedsWithin(m.points, 0, MaxSpeed)
    ensures 0 <= Tick(m, s, coreTemp).target <= MaxSpeed
  {
    EvaluateWithinSpeeds(m, coreTemp, 0, MaxSpeed);
  }

  /** A tick whose target equals the last commanded one writes nothing and shows no arrow. */
  lemma SteadyTickIsSilent(m: CurveModel, s: LoopState, coreTemp: int)
    requires m.Valid() && Tick(m, s, coreTemp).target == s.targetFanSpeedOld
    ensures Tick(m, s, coreTemp).write == None && Tick(m, s, coreTemp).direction == 0
    ensures Tick(m, s, coreTemp).next.targetFanSpeedOld == s.targetFanSpeedOld
  {
  }

  /** For a target in `[0, 100]` the printed bar carries the target's label starting at
      cell `target / 2`, after the opening bar and `target / 2` dots. */
  lemma TickRowShape(m: CurveModel, s: LoopState, coreTemp: int)
    requires m.Valid()
    requires 0 <= Tick(m, s, coreTemp).target <= MaxSpeed
    ensures var o := Tick(m, s, coreTemp);
            var tag := Label(o.target, "%", o.direction);
            && o.row[0] == '|'
            && o.row[1 + o.target / 2..1 + o.target / 2 + |tag|] == tag
  {
    var o := Tick(m, s, coreTemp);
    ControllerRow(o.target, o.direction);
  }

  /** The ticks of a run over successive temperature readings. */
  function Run(m: CurveModel, s: LoopState, temps: seq<int>): (outs: seq<TickOutcome>)
    requires m.Valid()
    ensures |outs| == |temps|
    decreases |temps|
  {
    if |temps| == 0 then []
    else
      var o := Tick(m, s, temps[0]);
      [o] + Run(m, o.next, temps[1..])
  }

  /** Each tick of a run starts from the state the tick before it left, the first from
      the run's initial state. */
  lemma {:induction false} RunThreadsState(m: CurveModel, s: LoopState, temps: seq<int>)
    requires m.Valid()
    ensures var outs := Run(m, s, temps);
            && (|temps| > 0 ==> outs[0] == Tick(m, s, temps[0]))
            && (forall i :: 0 < i < |temps| ==> outs[i] == Tick(m, outs[i - 1].next, temps[i]))
    decreases |temps|
  {
    if |temps| > 0 {
      var o := Tick(m, s, temps[0]);
      var rest := Run(m, o.next, temps[1..]);
      RunThreadsState(m, o.next, temps[1..]);
      assert Run(m, s, temps) == [o] + rest;
      forall i | 1 < i < |temps|
        ensures ([o] + rest)[i] == Tick(m, ([o] + rest)[i - 1].next, temps[i])
      {
        assert ([o] + rest)[i] == rest[i - 1] && ([o] + rest)[i - 1] == rest[i - 2];
        assert temps[1..][i - 1] == temps[i];
      }
    }
  }

  /** The state after a run. */
  function FinalState(m: CurveModel, s: LoopState, temps: seq<int>): LoopState
    requires m.Valid()
  {
    if |temps| == 0 then s else Run(m, s, temps)[|temps| - 1].next
  }

  /** The speeds written to the card, in order. */
  function Writes(outs: seq<TickOutcome>): seq<int>
    decreases |outs|
  {
    if |outs| == 0 then []
    else (if outs[0].write.Some? then [outs[0].write.value] else []) + Writes(outs[1..])
  }

  /** The writes of a run are the first tick's write, if any, then the writes of the rest. */
  lemma WritesOfRun(m: CurveModel, s: LoopState, temps: seq<int>)
    requires m.Valid() && |temps| > 0
    ensures var o := Tick(m, s, temps[0]);
            Writes(Run(m, s, temps)) == (if o.write.Some? then [o.write.value] else []) + Writes(Run(m, o.next, temps[1..]))
  {
    var o := Tick(m, s, temps[0]);
    assert Run(m, s, temps) == [o] + Run(m, o.next, temps[1..]);
    assert Run(m, s, temps)[1..] == Run(m, o.next, temps[1..]);
  }

  /** What a tick promises about its outcome, given the target commanded before it: it
      writes exactly when the target changed, writes the target, and remembers it. */
  predicate Follows(o: TickOutcome, previousTarget: int)
  {
    && (o.write.Some? <==> o.target != previousTarget)
    && (o.write.Some? ==> o.write.value == o.target)
    && o.next.targetFanSpeedOld == o.target
  }

  /** Every outcome follows the target remembered by the one before it, the first the
      target `start`. */
  predicate Chained(outs: seq<TickOutcome>, start: int)
    decreases |outs|
  {
    |outs| > 0 ==> Follows(outs[0], start) && Chained(outs[1..], outs[0].next.targetFanSpeedOld)
  }

  /** Every run keeps the chain, starting from the target the loop state remembers. */
  lemma {:induction false} RunChained(m: CurveModel, s: LoopState, temps: seq<int>)
    requires m.Valid()
    ensures Chained(Run(m, s, temps), s.targetFanSpeedOld)
    decreases |temps|
  {
    if |temps| > 0 {
      var o := Tick(m, s, temps[0]);
      var rest := Run(m, o.next, temps[1..]);
      RunChained(m, o.next, temps[1..]);
      assert Run(m, s, temps) == [o] + rest;
      assert ([o] + rest)[1..] == rest;
    }
  }

  /** On a chain no write repeats the target remembered before it. */
  lemma {:induction false} ChainedWritesChange(outs: seq<TickOutcome>, start: int)
    requires Chained(outs, start)
    ensures var w := Writes(outs);
            && (|w| > 0 ==> w[0] != start)
            && (forall i :: 0 <= i < |w| - 1 ==> w[i] != w[i + 1])
    decreases |outs|
  {
    if |outs| > 0 {
      ChainedWritesChange(outs[1..], outs[0].next.targetFanSpeedOld);
    }
  }

  /** On a chain the target remembered at the end is the last write, or `start`. */
  lemma {:induction false} ChainedLastWrite(outs: seq<TickOutcome>, start: int)
    requires Chained(outs, start) && |outs| > 0
    ensures var w := Writes(outs);
            outs[|outs| - 1].next.targetFanSpeedOld == if |w| == 0 then start else w[|w| - 1]
    decreases |outs|
  {
    if |outs| > 1 {
      ChainedLastWrite(outs[1..], outs[0].next.targetFanSpeedOld);
      assert outs[1..][|outs| - 2] == outs[|outs| - 1];
    }
  }

  /** On a chain whose every target is `v`, only the first outcome can write. */
  lemma {:induction false} ChainedSteady(outs: seq<TickOutcome>, start: int, v: int)
    requires Chained(outs, start)
    requires forall i :: 0 <= i < |outs| ==> outs[i].target == v
    ensures Writes(outs) == if |outs| == 0 || v == start then [] else [v]
    decreases |outs|
  {
    if |outs| > 0 {
      forall i | 0 <= i < |outs[1..]|
        ensures outs[1..][i].target == v
      {
        assert outs[1..][i] == outs[i + 1];
      }
      ChainedSteady(outs[1..], outs[0].next.targetFanSpeedOld, v);
    }
  }

  /** No write repeats the speed commanded just before it: the first differs from the
      speed the card reported at start-up, and each later one from its predecessor. */
  lemma WritesNeverRepeat(m: CurveModel, s: LoopState, temps: seq<int>)
    requires m.Valid()
    ensures var w := Writes(Run(m, s, temps));
            && (|w| > 0 ==> w[0] != s.targetFanSpeedOld)
            && (forall i :: 0 <= i < |w| - 1 ==> w[i] != w[i + 1])
  {
    RunChained(m, s, temps);
    ChainedWritesChange(Run(m, s, temps), s.targetFanSpeedOld);
  }

  /** While the target stays at one value `v` the fan is written once, with `v`, on the
      first tick, and not at all when `v` is already the commanded speed. */
  lemma SteadyTargetWritesOnce(m: CurveModel, s: LoopState, temps: seq<int>, v: int)
    requires m.Valid()
    requires forall i :: 0 <= i < |temps| ==> Run(m, s, temps)[i].target == v
    ensures Writes(Run(m, s, temps)) == if |temps| == 0 || v == s.targetFanSpeedOld then [] else [v]
  {
    RunChained(m, s, temps);
    ChainedSteady(Run(m, s, temps), s.targetFanSpeedOld, v);
  }

  /** After a run, the remembered target is the last speed written, or the start-up speed
      when nothing was written. */
  lemma FinalTargetIsLastWrite(m: CurveModel, s: LoopState, temps: seq<int>)
    requires m.Valid()
    ensures var w := Writes(Run(m, s, temps));
            FinalState(m, s, temps).targetFanSpeedOld == if |w| == 0 then s.targetFanSpeedOld else w[|w| - 1]
  {
    if |temps| > 0 {
      RunChained(m, s, temps);
      ChainedLastWrite(Run(m, s, temps), s.targetFanSpeedOld);
    }
  }
}
