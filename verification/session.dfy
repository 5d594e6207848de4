/**
 A whole run of the curve controller, from the first query to the cleanup in
 `finally`. Every answer of the vendor tool is an input (`None` where the call
 raised), and the run yields the commands attempted, in order, and the way it ended. A
 command whose call raised (the enable request on the `EnableRaised` path) is still
 listed, although it may never have reached the card.
 Whatever the exit path, auto mode is restored exactly when manual control was
 not already on at start-up.
 */
module Session {
  import opened Optional
  import opened Curve
  import opened Control

  /** The commands the controller sends to the card. */
  datatype Command = EnableManual | SetTarget(speed: int) | RestoreAuto

  /** How `main` (or the query before it) ended. `Interrupted` stands for the signal that
      ends the otherwise endless loop once the recorded readings run out. */
  datatype Exit =
    | InitialQueryRaised
    | EmptyCurve
    | EnableRaised
    | EnableRefused
    | SpeedQueryRaised
    | ReadRaised
    | Interrupted

  /** The results of one loop iteration's two queries: the core temperature and the fan's
      RPM. */
  datatype Reading = Reading(coreTemp: Option<int>, rpm: Option<int>)

  /** Everything the run depends on, in the order the program asks for it: the configured
      points, the control state queried before `main`, the value the reply to the enable
      request reports, the fan's current speed, and the readings of the loop. A query
      result is what `getAttribute` returns (`Replies.QueryValue` of the tool's reply),
      `None` where the tool or `int()` raised; the enable result is what
      `enableFanControl` parses (`Replies.AssignedValue` of the reply), `None` where the
      tool raised. */
  datatype Environment = Environment(
    points: seq<Point>,
    initialState: Option<int>,
    enableAssigned: Option<int>,
    currentSpeed: Option<int>,
    readings: seq<Reading>)

  datatype Outcome = Outcome(commands: seq<Command>, exit: Exit)

  /** The loop of `main`: each reading yields at most one speed write; a reply that cannot
      be read ends the loop with an exception, and running out of readings stands for the
      interrupt. */
  function Loop(m: CurveModel, s: LoopState, readings: seq<Reading>): (o: Outcome)
    requires m.Valid()
    ensures o.exit == ReadRaised || o.exit == Interrupted
    ensures forall i :: 0 <= i < |o.commands| ==> o.commands[i].SetTarget?
    decreases |readings|
  {
    if |readings| == 0 then Outcome([], Interrupted)
    else match readings[0].coreTemp
      case None => Outcome([], ReadRaised)
      case Some(coreTemp) =>
        var t := Tick(m, s, coreTemp);
        if readings[0].rpm.None? then Outcome([], ReadRaised)
        else
          var rest := Loop(m, t.next, readings[1..]);
          var here := if t.write.Some? then [SetTarget(t.write.value)] else [];
          Outcome(here + rest.commands, rest.exit)
  }

  /** `main`: refuse an empty curve, enable manual control and check the reply, cache the
      coefficients, read the current speed, then loop. */
  function Main(env: Environment): (o: Outcome)
    ensures o.exit != InitialQueryRaised
    ensures o.commands == [] <==> |env.points| == 0
    ensures o.commands != [] ==> o.commands[0] == EnableManual
    ensures forall i :: 0 < i < |o.commands| ==> o.commands[i].SetTarget?
    ensures |o.commands| > 1 ==> env.enableAssigned == Some(1)
  {
    match Build(env.points)
    case None => Outcome([], EmptyCurve)
    case Some(m) =>
      match env.enableAssigned
      case None => Outcome([EnableManual], EnableRaised)
      case Some(reported) =>
        if reported != 1 then Outcome([EnableManual], EnableRefused)
        else match env.currentSpeed
          case None => Outcome([EnableManual], SpeedQueryRaised)
          case Some(speed) =>
            var l := Loop(m, InitialState(speed), env.readings);
            Outcome([EnableManual] + l.commands, l.exit)
  }

  /** Whether manual control was already on at start-up. The flag starts `False` and keeps
      that value when the query raises. */
  function EnabledAtStart(env: Environment): bool
  {
    env.initialState == Some(1)
  }

  /** The script: the initial query and `main` inside `try`, the restore in `finally`. It
      ends at the initial query exactly when that query raised, and its last command is the
      restore unless manual control was on at start-up, in which case no restore is sent. */
  function Script(env: Environment): (o: Outcome)
    ensures o.exit == InitialQueryRaised <==> env.initialState.None?
    ensures !EnabledAtStart(env) ==> |o.commands| > 0 && o.commands[|o.commands| - 1] == RestoreAuto
    ensures EnabledAtStart(env) ==> RestoreAuto !in o.commands
  {
    var body := if env.initialState.None? then Outcome([], InitialQueryRaised) else Main(env);
    if EnabledAtStart(env) then body else Outcome(body.commands + [RestoreAuto], body.exit)
  }

  /** On every exit path auto mode is restored exactly when manual control was not on at
      start-up, and the restore is the last command sent. */
  lemma RestoreExactlyWhenNotEnabledAtStart(env: Environment)
    ensures var cs := Script(env).commands;
            (RestoreAuto in cs <==> !EnabledAtStart(env))
            && (forall i :: 0 <= i < |cs| && cs[i] == RestoreAuto ==> i == |cs| - 1)
  {
    var body := if env.initialState.None? then Outcome([], InitialQueryRaised) else Main(env);
    if !EnabledAtStart(env) {
      assert Script(env).commands == body.commands + [RestoreAuto];
      assert Script(env).commands[|body.commands|] == RestoreAuto;
    }
  }

  /** When the initial query raises, nothing was enabled, yet the cleanup still switches
      the card to auto mode. */
  lemma InitialQueryRaisedRestores(env: Environment)
    requires env.initialState.None?
    ensures Script(env) == Outcome([RestoreAuto], InitialQueryRaised)
  {
  }

  /** Speed writes happen only after manual control was requested and confirmed, and the
      first command of any run that writes is the enable request. */
  lemma WritesOnlyAfterConfirmedEnable(env: Environment, i: nat)
    requires i < |Script(env).commands| && Script(env).commands[i].SetTarget?
    ensures Script(env).commands[0] == EnableManual && i > 0
    ensures env.enableAssigned == Some(1)
    ensures |env.points| > 0 && env.initialState.Some?
  {
    var cs := Script(env).commands;
    var body := if env.initialState.None? then [] else Main(env).commands;
    if !EnabledAtStart(env) {
      assert cs == body + [RestoreAuto];
      assert cs[|body|] == RestoreAuto;
    }
    assert i < |body| && cs[i] == body[i];
  }

  /** The commands of a loop whose every reply can be read are the speed writes of the
      corresponding run of ticks. */
  lemma {:induction false} LoopWritesAreRunWrites(m: CurveModel, s: LoopState, readings: seq<Reading>, temps: seq<int>)
    requires m.Valid() && |temps| == |readings|
    requires forall i :: 0 <= i < |readings| ==> readings[i].coreTemp == Some(temps[i])
    requires forall i :: 0 <= i < |readings| ==> readings[i].rpm.Some?
    ensures Loop(m, s, readings) == Outcome(SetTargets(Writes(Run(m, s, temps))), Interrupted)
    decreases |readings|
  {
    if |readings| > 0 {
      var t := Tick(m, s, temps[0]);
      var rest := Loop(m, t.next, readings[1..]);
      var head := if t.write.Some? then [t.write.value] else [];
      assert Loop(m, s, readings) == Outcome(SetTargets(head) + rest.commands, rest.exit);
      forall i | 0 <= i < |readings[1..]|
        ensures readings[1..][i].coreTemp == Some(temps[1..][i]) && readings[1..][i].rpm.Some?
      {
        assert readings[1..][i] == readings[i + 1];
      }
      LoopWritesAreRunWrites(m, t.next, readings[1..], temps[1..]);
      WritesOfRun(m, s, temps);
      SetTargetsAppend(head, Writes(Run(m, t.next, temps[1..])));
    }
  }

  /** The write commands for a list of speeds. */
  function SetTargets(speeds: seq<int>): (cs: seq<Command>)
    ensures |cs| == |speeds|
    ensures forall i :: 0 <= i < |speeds| ==> cs[i] == SetTarget(speeds[i])
  {
    seq(|speeds|, i requires 0 <= i < |speeds| => SetTarget(speeds[i]))
  }

  lemma SetTargetsAppend(a: seq<int>, b: seq<int>)
    ensures SetTargets(a + b) == SetTargets(a) + SetTargets(b)
  {
  }

  /** A session whose every reply can be read enables manual control, then writes exactly
      the speeds the ticks command, none repeating the one before it, until interrupted. */
  lemma ReadableSession(env: Environment, speed: int, temps: seq<int>)
    requires |env.points| > 0
    requires env.enableAssigned == Some(1)
    requires env.currentSpeed == Some(speed)
    requires |temps| == |env.readings|
    requires forall i :: 0 <= i < |env.readings| ==> env.readings[i].coreTemp == Some(temps[i])
    requires forall i :: 0 <= i < |env.readings| ==> env.readings[i].rpm.Some?
    ensures var m := Build(env.points).value;
            var w := Writes(Run(m, InitialState(speed), temps));
            && Main(env) == Outcome([EnableManual] + SetTargets(w), Interrupted)
            && (|w| > 0 ==> w[0] != speed)
            && (forall i :: 0 <= i < |w| - 1 ==> w[i] != w[i + 1])
  {
    var m := Build(env.points).value;
    LoopWritesAreRunWrites(m, InitialState(speed), env.readings, temps);
    WritesNeverRepeat(m, InitialState(speed), temps);
  }
}
