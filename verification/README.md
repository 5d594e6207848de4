# nfancurve in Dafny

A model of `nfancurve`, a small Python controller for the fan of an NVIDIA card. The
controller reads the GPU core temperature through `nvidia-settings`, maps it to a fan
speed through a user-defined curve of `(temperature ºC, speed %)` points, and boosts
the speed when the temperature jumps ("doping"). It commands the fan only when the target
changed, prints a one-line bar graph per tick, and on exit switches the card back to
automatic fan control unless manual control was already on at start-up. A second
script, `temperature.py`, sends the same temperature query but cuts the number after the
last `:` before the attribute description, and sets the fan on every tick from a
hard-coded three-piece curve. It never skips a repeated write and never
restores automatic control.

The model is pure: every answer of the vendor tool is an input, and every command is an
output.

| module | file | what it holds |
|---|---|---|
| `Optional` | `optional.dfy` | `Option`, the stand-in for a call that raised |
| `Numeric` | `numeric.dfy` | `TruncDiv`: Python's `int()` of an exact quotient, which truncates toward zero |
| `PyText` | `pytext.dfy` | `str.find`, `str.rfind`, slicing with clamping and negative bounds, `"." * n`, `"%d"`, `int(str)` |
| `Curve` | `curve.dfy` | the coefficient table, the scan for the left point, the evaluation, and the shipped curve |
| `Graph` | `graph.dfy` | `getLineGraph` |
| `Control` | `control.dfy` | one tick of the loop, doping, write suppression, and runs of ticks |
| `Replies` | `replies.dfy` | the parsers that cut an integer out of the tool's replies |
| `Session` | `session.dfy` | `main` plus the `try`/`finally` restore rule, as a function of the tool's answers |
| `FixedCurve` | `fixed_curve.dfy` | `getFan` from `temperature.py` |

Python evaluates the curve and the graph position with floats and then applies `int()`.
The model uses exact rational arithmetic instead. Each segment of the coefficient table
keeps the line `(slopeNum * t + interceptNum) / den`, with `den = t1 - t0`, and `TruncDiv`
truncates the exact quotient toward zero.

Observations the proofs make precise:

- **The vertical branch is dead code.** The vertical-line return of `getTargetFanSpeed`
  (nvidiafancurve.py:43-44) is unreachable for every curve, sorted or not. The scan stops
  before the last point only at a point strictly hotter than `t`, and the point it stopped
  after is not hotter, so the two never share a temperature (`Curve.VerticalStepUnreachable`).
  On a sorted curve, a configured temperature yields the speed of the last point with
  that temperature (`Curve.EvaluateAtLastPointOfTemperature`, `Curve.EvaluateAtDuplicate`),
  by the interpolation branch, or by the flat extrapolation when those points end the
  curve. On an unsorted curve the scan may stop elsewhere: for (0, 0), (50, 40), (50, 60),
  (20, 10) at 50 ºC it stops at the last point and returns 10.
- **Doping uses `>=`.** Doping triggers when the temperature rose by at least the
  threshold, because the code compares with `>=` (nvidiafancurve.py:161). Only the
  boosted speed is capped at 100.
- **Speeds are never clamped.** The configured speeds are not clamped to `[0, 100]`. The
  range of the result is stated relative to the configured speeds
  (`Curve.EvaluateWithinSpeeds`, `Control.TickTargetInRange`).
- **Auto mode is restored even when nothing was enabled.** When the initial query of the
  control state raises, the flag keeps its initial `False`, so the `finally` block still
  restores auto mode.
- **The enable step checks the reply.** The controller exits when the reply does not
  report the value 1. An empty curve is refused before anything is sent.

## Model

| member | source | states |
|---|---|---|
| Numeric.TruncDiv | nvidiafancurve.py:41 | `int()` of the exact quotient `n / d`: the magnitude `abs(n) / abs(d)` rounded down, negated when the signs differ; its bounds are stated by `Numeric.TruncDivBounds` |
| Numeric.TruncDivBounds | nvidiafancurve.py:41 | `int()` of an exact quotient: the result times the divisor lies within one divisor of the numerator, on the zero side, in all four sign cases |
| PyText.Find | nvidiafancurve.py:60-61 | `str.find` from a start index: -1, or an occurrence at or after the start with none between the start and it |
| PyText.RFind | temperature.py:22 | `str.rfind`: -1, or an occurrence with none after it |
| PyText.ParseInt | nvidiafancurve.py:62 | `int()` of a text: surrounding whitespace, an optional sign and ASCII digits give a number; anything else raises (`None`) |
| PyText.SliceIndex | nvidiafancurve.py:62 | a slice bound as Python reads it: negative bounds count from the end, and the result is clamped to `[0, len]`; a bound already in `[0, len]` is kept |
| PyText.Slice | nvidiafancurve.py:60-62 | `s[i:j]`: the contract covers in-range bounds only, where it is `s[i..j]`, and a length of at most `len(s)`; the `-1` end is covered by `Replies.SliceToFoundDot` |
| PyText.SliceFrom | nvidiafancurve.py:74 | `s[i:]`, a slice to the end |
| PyText.SliceTo | temperature.py:22 | `s[:j]`, a slice from the start |
| PyText.Repeat | nvidiafancurve.py:123-125 | `"." * n`: `max(n, 0)` copies of the character |
| PyText.IntToString | nvidiafancurve.py:116 | `"%d" % n`: non-empty, a leading `-` exactly for a negative number, and otherwise decimal digits |
| PyText.FindAt | nvidiafancurve.py:60-61 | `find` from a start index returns an occurrence when no earlier occurrence exists from that index on |
| PyText.RFindAt | temperature.py:22 | `rfind` returns an occurrence when no later occurrence exists |
| PyText.DigitsRoundTrip | nvidiafancurve.py:62 | the decimal digits of a natural number read back as that number |
| PyText.ParseIntRoundTrip | nvidiafancurve.py:62 | `int()` of what `"%d"` prints, negative numbers included, gives the number back |
| PyText.ParseIntRejectsBlank | nvidiafancurve.py:62 | `int()` raises on an empty or all-whitespace slice |
| Curve.SegmentCoeff | nvidiafancurve.py:147-154 | a segment's entry is the `None` marker exactly when its two points share a temperature; otherwise its denominator is the temperature step and its line meets both points |
| Curve.BuildCoefficients | nvidiafancurve.py:142-154 | the table has `len(curve) - 1` entries (none for a single point); entry `i` is the marker exactly when points `i` and `i + 1` share a temperature; a line entry's denominator is their temperature step |
| Curve.CoefficientAt | nvidiafancurve.py:142-154 | entry `i` of the table is the coefficient of the pair `(i, i + 1)` |
| Curve.CoefficientLine | nvidiafancurve.py:153-154 | a line entry passes through both points of its pair: `a = (s1 - s0) / (t1 - t0)`, `b = (t1 * s0 - t0 * s1) / (t1 - t0)` |
| Curve.ComputeCoefficients | nvidiafancurve.py:142-154 | the caching loop, one append per adjacent pair, produces exactly the table |
| Curve.Build | nvidiafancurve.py:131-134 | the curve is refused exactly when it has no points; otherwise the model keeps the points and the table built from them |
| Curve.LeftPoint | nvidiafancurve.py:25-31 | the scan's result `k` is in `[-1, len)`; every point up to `k` is not hotter than `t`, and point `k + 1`, if any, is hotter |
| Curve.LeftPointUnique | nvidiafancurve.py:25-31 | those three facts determine the scan's result uniquely |
| Curve.ScanLeftPoint | nvidiafancurve.py:26-31 | the loop as written, with its `break`, computes that index |
| Curve.Locate | nvidiafancurve.py:26-44 | which return of `getTargetFanSpeed` is taken: below the curve, beyond it, interpolation on a segment, or the vertical step; a selected segment always has a right-hand point |
| Curve.Evaluate | nvidiafancurve.py:18-44 | `getTargetFanSpeed`: the first speed below the curve, the last speed beyond it, and otherwise the cached line of the selected segment truncated toward zero |
| Curve.VerticalStepUnreachable | nvidiafancurve.py:26-44 | for every curve the scan never selects a segment whose points share a temperature, so the vertical-line return is never taken |
| Curve.EvaluateBelowFirst | nvidiafancurve.py:33-35 | below the first point's temperature the speed is the first point's speed |
| Curve.EvaluateBeyondLast | nvidiafancurve.py:36-37 | on a sorted curve, at or beyond the last point's temperature the speed is the last point's speed |
| Curve.InterpolationBetweenEndpoints | nvidiafancurve.py:40-41 | when the evaluation interpolates on segment `k`, `t_k <= t < t_{k+1}` holds and the speed lies between the two endpoint speeds |
| Curve.EvaluateWithinSpeeds | nvidiafancurve.py:18-44 | at every temperature the speed lies within any range that holds all configured speeds |
| Curve.LocateInSegment | nvidiafancurve.py:26-41 | on a sorted curve, `t_k <= t < t_{k+1}` selects the interpolation on segment `k` |
| Curve.EvaluateAtLastPointOfTemperature | nvidiafancurve.py:26-41 | on a sorted curve, evaluating at a configured temperature gives the speed of the last point with that temperature |
| Curve.EvaluateAtConfiguredPoint | nvidiafancurve.py:40-41 | on a strictly increasing curve, every configured point is met exactly |
| Curve.EvaluateAtDuplicate | nvidiafancurve.py:26-31 | on a sorted curve, at a temperature shared by two points and no third, the later point's speed is returned |
| Curve.EvaluateInsideSegment | nvidiafancurve.py:40-41 | on a sorted curve, strictly inside a segment the speed lies between the segment's endpoint speeds |
| Curve.ScaledFromLeft | nvidiafancurve.py:153-154 | the cached `a * t + b`, scaled by the denominator, equals the left speed plus the rise over `t - t_0` |
| Curve.LineThroughEndpoints | nvidiafancurve.py:153-154 | on `[t_0, t_1]` the cached line stays between the two endpoint speeds |
| Curve.EvaluateMatchesInterpolation | nvidiafancurve.py:40-41 | evaluating through the cached table equals the truncated linear interpolation from the left point (`LinearAt`), a definition independent of the table |
| Curve.EvaluateOnSegment | nvidiafancurve.py:26-41 | on a sorted curve, every `t` in `[t_k, t_{k+1})` gets `LinearAt` of segment `k` |
| Curve.DefaultPointsSorted | nvidiafancurve.py:8 | the shipped curve is strictly increasing in temperature |
| Curve.DefaultCurveFlatEnds | nvidiafancurve.py:8 | on the shipped curve, -10 ºC gives 0 %, and both 100 ºC and 150 ºC give 100 % |
| Curve.DefaultCurveOnSegment | nvidiafancurve.py:8 | on the shipped curve, every temperature inside a segment gets that segment's interpolation |
| Curve.DefaultSegmentSamples | nvidiafancurve.py:8 | the interpolation on the shipped curve's segments gives 30 → 0, 45 → 20, 55 → 57 and 80 → 87; the last two are truncated from 57.5 and 87.5 |
| Graph.Label | nvidiafancurve.py:116 | the label starts and ends with a blank and is at least three characters long |
| Graph.LineGraph | nvidiafancurve.py:108-129 | the row is empty exactly when `width <= 0` or `max == min`; otherwise it starts with `\|` |
| Graph.Arrow | nvidiafancurve.py:116 | `"-> "` for direction 1, `"<- "` for -1, and empty otherwise |
| Graph.Position | nvidiafancurve.py:118-120 | the label's cell: `width * (value - min) / (max - min)`, computed exactly and truncated toward zero |
| Graph.Row | nvidiafancurve.py:122-128 | the bar, the `x` dots, the label, the filling dots, and the closing bar only when the row is at most `width + 1` characters long |
| Graph.Body | nvidiafancurve.py:122-125 | the opening bar, `x` dots, the label, and `width - x - len(label)` dots (none when that is not positive); its shape is stated by `Graph.BodyShape` |
| Graph.BodyShape | nvidiafancurve.py:122-125 | the body is `1 + max(x, 0) + len(label) + max(width - x - len(label), 0)` characters long; it starts with `\|`, never ends with `\|`, has dots before the label, and has the label right after them |
| Graph.ClosedExactlyWhenLabelFits | nvidiafancurve.py:126 | the body is at most `width + 1` characters long exactly when `0 <= x` and `x + len(label) <= width` |
| Graph.RowShape | nvidiafancurve.py:122-128 | the row ends with `\|` exactly when the label fits; a closed row is `width + 2` characters long; the label sits at `1 + max(x, 0)` |
| Graph.LineGraphShape | nvidiafancurve.py:108-128 | the same facts for `getLineGraph` at the value's position |
| Graph.PositionWithinBar | nvidiafancurve.py:118-120 | a value in `[min, max]` is placed on a cell in `[0, width]` |
| Graph.ControllerRowPosition | nvidiafancurve.py:175 | for the controller's graph (0 to 100 over 50 cells), a target in `[0, 100]` is placed at cell `target / 2` |
| Graph.ControllerRow | nvidiafancurve.py:175 | that row starts with `\|` and carries the target's label right after `target / 2` dots |
| Control.Boost | nvidiafancurve.py:162 | the boosted speed never exceeds 100; it is the speed plus 10 or 100, and exactly the speed plus 10 when the speed is at most 90 |
| Control.InitialState | nvidiafancurve.py:156-157 | before the first tick the previous temperature is 0 and the remembered target is the fan's current speed |
| Control.Doped | nvidiafancurve.py:161 | doping applies exactly when it is enabled and the temperature rose by at least 10 ºC |
| Control.Tick | nvidiafancurve.py:159-175 | a tick remembers the temperature; it writes exactly when the target differs from the last commanded speed, and writes the target; afterwards the remembered target is the new target; the arrow is the sign of the change; the printed row is the graph of the target |
| Control.TickTarget | nvidiafancurve.py:160-162 | the target is the curve's speed, boosted to `min(speed + 10, 100)` exactly when the temperature rose by at least 10 ºC |
| Control.FirstTickDoping | nvidiafancurve.py:156-162 | the first tick measures the rise from 0 ºC |
| Control.TickTargetInRange | nvidiafancurve.py:160-162 | with configured speeds in `[0, 100]`, every target, boosted or not, is in `[0, 100]` |
| Control.SteadyTickIsSilent | nvidiafancurve.py:166-173 | a tick whose target equals the last commanded speed writes nothing, shows no arrow, and keeps the remembered target |
| Control.TickRowShape | nvidiafancurve.py:175 | a tick's row starts with `\|` and shows the target's label at cell `target / 2` |
| Control.Run | nvidiafancurve.py:158-177 | a run produces one tick outcome per reading; that each tick starts from the state the one before it left is stated by `Control.RunThreadsState` |
| Control.RunThreadsState | nvidiafancurve.py:156-173 | the first tick of a run starts from the initial state, and each later tick from the state the tick before it left |
| Control.FinalState | nvidiafancurve.py:156-173 | the state a run leaves: the initial state for no reading, else the state after the last tick |
| Control.Writes | nvidiafancurve.py:167-173 | the speeds a run writes to the card, in order |
| Control.RunChained | nvidiafancurve.py:166-173 | every outcome of a run writes exactly when its target differs from the target remembered before it, writes the target, and remembers it |
| Control.ChainedWritesChange | nvidiafancurve.py:166-173 | on such a chain of outcomes the first write differs from the starting target and no write equals the one before it |
| Control.ChainedLastWrite | nvidiafancurve.py:166-173 | on such a chain the target remembered at the end is the last write, or the starting target when nothing was written |
| Control.ChainedSteady | nvidiafancurve.py:166-173 | on such a chain whose targets are all `v`, the writes are `[v]`, or nothing when the chain is empty or `v` is the starting target |
| Control.WritesNeverRepeat | nvidiafancurve.py:157-173 | no write repeats the speed commanded before it: the first differs from the speed read at start-up, and each later one differs from its predecessor |
| Control.SteadyTargetWritesOnce | nvidiafancurve.py:166-173 | while the target stays at `v`, the fan is written at most once, with `v`, and not at all when `v` is already the commanded speed |
| Control.FinalTargetIsLastWrite | nvidiafancurve.py:157-173 | after a run, the remembered target is the last speed written, or the start-up speed when nothing was written |
| Replies.FirstDotFrom | nvidiafancurve.py:61 | `find(".", start)` is non-negative exactly when a `.` stands at or after `start`, and then it is the first one |
| Replies.SliceToFoundDot | nvidiafancurve.py:60-62 | `output[start:output.find(".", start)]` is the text up to the next `.`; with no `.` left, it is the rest of the reply without its last character, because `-1` counts from the end |
| Replies.SliceToDotFrom | nvidiafancurve.py:73-74 | `output[start:output[start:].find(".") + start]` is the text up to the next `.`; with no `.` left, it is empty |
| Replies.DotFrom | nvidiafancurve.py:74 | `output[start:].find(".") + start`: the first `.` at or after `start`, or `start - 1` when there is none |
| Replies.QueryText | nvidiafancurve.py:60-62 | the text `getAttribute` reads starts four characters after the first occurrence of the target and runs up to the next `.`; with no `.` after it, it drops the reply's last character |
| Replies.QueryValue | nvidiafancurve.py:55-63 | `getAttribute`: `int()` of that text, `None` where it raises |
| Replies.AssignedText | nvidiafancurve.py:72-74 | the text `enableFanControl` reads starts 15 characters after the first `assigned value` and runs up to the next `.`; with no `.` after it, it is empty |
| Replies.OrZero | nvidiafancurve.py:75-80 | the parsed value, or the 0 kept when `int()` raised |
| Replies.AssignedValue | nvidiafancurve.py:75-80 | the reported value, 0 where `int()` raises, and so 0 for a reply without a `.` after the value |
| Replies.EnableConfirmed | nvidiafancurve.py:82-87 | enabling succeeds exactly when the reported value is 1 |
| Replies.CoreTempText | temperature.py:21-23 | the text cut before the `'GPUCoreTemp' is an integer attribute` line, by `Replies.TextBeforeMarker` |
| Replies.TextBeforeMarker | temperature.py:21-23 | the text read starts two characters after the last `:` before the first marker and runs up to the next `.`; with no `.` after it, it is empty |
| Replies.CoreTempValue | temperature.py:21-24 | the temperature, `None` where `int()` raises, and so `None` for a reply without a `.` after it |
| Replies.ParseIntRejectsWord | nvidiafancurve.py:76-80 | `int()` raises on a lower-case word |
| Replies.QueryTextAt | nvidiafancurve.py:60-62 | in a reply whose first occurrence of the target is followed, four characters later, by a `.`-free text and a `.`, the slice read is that text |
| Replies.QueryValueRoundTrip | nvidiafancurve.py:60-62 | `getAttribute` reads back the number a well-formed reply reports |
| Replies.AssignedTextAt | nvidiafancurve.py:72-74 | in an assignment reply, the slice read starts 15 characters after the first `assigned value` and stops at the next `.` |
| Replies.EnableConfirmedRoundTrip | nvidiafancurve.py:72-83 | `enableFanControl` reads back the reported value, and succeeds exactly when that value is 1 |
| Replies.EnableRefusedWord | nvidiafancurve.py:75-87 | a reply with a word where the value belongs makes `int()` raise, so the value stays 0 and enabling fails |
| Replies.TextBeforeMarkerAt | temperature.py:21-23 | the slice read starts two characters after the last `:` before the first marker and stops at the next `.` |
| Replies.CoreTempRoundTrip | temperature.py:21-24 | the fixed-curve script reads back the temperature a well-formed reply reports |
| Session.Loop | nvidiafancurve.py:158-177 | the loop sends only speed writes and ends only through an exception or the interrupt |
| Session.Main | nvidiafancurve.py:131-158 | `main` never ends by the initial query; it sends nothing exactly when the curve is empty; its first command is the enable request and every later one is a speed write; it writes only after the enable reply reported 1 |
| Session.EnabledAtStart | nvidiafancurve.py:180-182 | the start-up flag: true exactly when the initial query returned 1, false when it returned anything else or raised |
| Session.Script | nvidiafancurve.py:179-189 | the `try`/`finally` around the initial query and `main`: the run ends at the initial query exactly when it raised; the restore is the last command unless manual control was on at start-up, and then no restore is sent |
| Session.RestoreExactlyWhenNotEnabledAtStart | nvidiafancurve.py:180-188 | on every exit path auto mode is restored exactly when the control state at start-up was not 1, and the restore is the last command |
| Session.InitialQueryRaisedRestores | nvidiafancurve.py:180-186 | when the initial query raises, nothing is enabled, yet auto mode is still restored |
| Session.WritesOnlyAfterConfirmedEnable | nvidiafancurve.py:131-173 | a speed write implies a non-empty curve, a successful initial query, and a confirmed enable that was sent first |
| Session.LoopWritesAreRunWrites | nvidiafancurve.py:158-173 | when every reply can be read, the loop's commands are exactly the writes of the corresponding run of ticks |
| Session.ReadableSession | nvidiafancurve.py:156-173 | a session whose replies can all be read enables control, then writes exactly the ticks' speeds; none repeats the one before it |
| FixedCurve.GetFan | temperature.py:6-12 | the fixed curve's speed is always in `[0, 100]` |
| FixedCurve.GetFanPieces | temperature.py:7-12 | 0 below 40 ºC; `3t - 120` from 40 ºC up to 60 ºC; `min(t, 100)` from 60 ºC on; 100 from 100 ºC on; the anchors 0 % at 40 ºC and 60 % at 60 ºC |
| FixedCurve.GetFanMonotone | temperature.py:6-12 | a hotter card never gets a slower fan, across both seams included |
| FixedCurve.GetFanIsCurve | temperature.py:6-12 | `getFan` equals the controller's evaluation of the curve through (40, 0), (60, 60) and (100, 100), at every temperature |

## Left out

- The `nvidia-settings` calls (nvidiafancurve.py:56-58, 66-68, 94-95; temperature.py:16-20, 28-30) are foreign I/O. Their answers are inputs: a query result is `Replies.QueryValue` of the reply, or `None` where the tool or `int()` raised. Commands are outputs.
- `Session.Main` takes the value that `enableFanControl` parsed from the enable reply (`Replies.AssignedValue`), not the reply text. The parsing itself is modelled and proved in `Replies`.
- `sleep`, `print` and the endless `while True`: runs are finite sequences of readings, and running out of readings stands for the interrupt that ends the program. The printed `info` text and the RPM value only feed `print`; an RPM query that raises is modelled as ending the loop.
- Floating point: Python computes `a`, `b` and the graph position in floats. The model computes them exactly, so at an exact integer boundary a float result could differ from the model's by one.
- The `sys.exit` codes are process plumbing. The `sys.exit(0)` in `finally` overrides the earlier `sys.exit(1)`.
- A speed write that raises (`subprocess.call` at nvidiafancurve.py:66-68 raising `OSError` when the tool cannot be started, or an interrupt arriving during the write) is not modelled: `Session.Loop` always emits the write and has no exit for it. The restore rule does not depend on it, since it reads only the start-up flag.
- The commands of a session are the commands attempted: when the enable request raises because `nvidia-settings` could not be started (nvidiafancurve.py:94-95), `EnableManual` is still listed although nothing reached the card.
- A failure of the restore call itself (`disableFanControl` raising inside `finally`) is not modelled. The model treats the restore as a command that is always sent.
- `int()` also accepts underscores between digits and non-ASCII decimal digits. `PyText.ParseInt` accepts ASCII digits only. The tool prints neither.
- `PyText.Find` takes a non-negative start only. That is all the program passes, because a missing target still yields a start of at least 3.
- `temperature.py`'s loop and its unchecked enable call (:16-31) are I/O around `getFan` and the temperature parser. Only those two are modelled.
- `Curve.DefaultSegmentSamples`: the sample values of the shipped curve are stated on the reference interpolation `LinearAt`. `Curve.DefaultCurveOnSegment` equates the evaluation with `LinearAt` on each segment, and the two together give the evaluation's values. The two are not combined into one lemma about `Evaluate`.
- Adaptive sampling intervals, several GPUs or fans, and clamping the configured speeds are not part of the program, so they are not modelled.
