# raspberry-shake: hysteresis controller and movement test

A Dafny model of the core of `shaker.py`, an appliance monitor that watches
an accelerometer and announces when a machine starts and stops running.

Two pieces of logic are modelled:

- **The movement test** of the vibration sampler (`VibrationLooper.run`).
  A three-axis reading counts as movement when some axis is strictly above
  `t` or strictly below `-t`, where `t = 1 + sensitivity`. This is module
  `Movement` in `movement.dfy`.
- **The hysteresis controller**, which is the body of the once-per-second loop in
  `Shaker.__init__`. The state is the mode (`Cold`/`Hot`, the source's
  `activated`), `countUp` and `countDown`. Each tick takes one input: whether
  the meter's rate is strictly above the fixed threshold 1. The tick yields
  the next state, the callback fired (if any), and the values written to the
  red and green lights. `Hysteresis.Step` in `hysteresis.dfy` is one tick.
  `Traces` in `traces.dfy` runs it over finite input sequences and proves
  the trace properties by induction. `Controller` in `controller.dfy` has
  the loop itself as a method over a sequence of rates.

The controller's configuration (`Hysteresis.Config`) holds the requested
threshold, warmup and cooldown. The sensitivity only reaches the sampler
(shaker.py:78-81), so it is a parameter of the movement test.

`wrappers.dfy` holds the `Option` type used for "no callback" and "light
not written on this tick".

Where the documented behaviour and the code differ, the model follows the
code:

- The warmup finishes on the (warmup+1)-th consecutive active tick, not the
  warmup-th. With warmup 3, rates 2, 2, 2 fire nothing and a fourth 2 fires
  the hot callback (`Controller.WarmupThreeExample`). Cooldown works the
  same way.
- The tick that enters Hot leaves `countUp` at its limit, and the tick that
  enters Cold leaves `countDown` at its limit. The next tick, on either side
  of the threshold, clears them.
- The `threshold` constructor argument is accepted (and printed in debug
  mode) but never stored or used. The loop always compares with the
  constant 1.
- Negative warmup or cooldown values are not rejected. A negative limit
  behaves like 0, because the counters start at 0 and never go below it
  (`Hysteresis.Dwell`).

## Model

| member | source | states |
|---|---|---|
| Movement.AnyBeyond | shaker.py:41 | the `any(...)` scan over the axis list is true iff some value has magnitude strictly above the threshold |
| Movement.BeyondIsMagnitude | shaker.py:41 | the per-axis test `v > t or v < -t` is the same as `abs(v) > t`, for every sign of `t` |
| Movement.Marks | shaker.py:31-41 | a sample marks the meter iff some axis has magnitude strictly above 1 + sensitivity |
| Movement.AnyBeyondPermutation | shaker.py:41 | any permutation of the axis values gives the same verdict |
| Movement.MarksAxisOrderIrrelevant | shaker.py:41 | listing x, y, z in any of the six orders gives the same verdict |
| Movement.MarksNegationInvariant | shaker.py:41 | negating any one axis does not change the verdict |
| Movement.NoMarkOnBoundary | shaker.py:41 | a sample whose every axis has magnitude exactly equal to the threshold does not mark |
| Movement.MarksMonotone | shaker.py:31-41 | raising the sensitivity never turns a non-marking sample into a marking one |
| Movement.MarkCount | shaker.py:36-42 | the sampler loop records at most one mark per reading |
| Movement.MarkCountMonotone | shaker.py:35-43 | over any reading sequence, a higher sensitivity records no more marks than a lower one |
| Movement.DefaultSensitivityExample | shaker.py:31-41 | with sensitivity 0.1 the threshold is 1.1, so 1.05 g does not mark, 1.2 g does, and a resting 1 g reading does not |
| Hysteresis.Step | shaker.py:108-144 | a callback fires exactly when the mode flips, and it is the callback of the mode being left; a flip needs the counter at its limit and a tick on the right side; after every tick one counter is zero; the bounds are preserved; a reversal tick clears the count; every light value is 0 or 100; a transition tick writes no light; counting ticks blink the light with the counter's parity; steady ticks light only the current mode's light; the transition tick keeps the count that completed the dwell and clears the other counter |
| Hysteresis.ThresholdFixedAtOne | shaker.py:101-108 | the threshold passed to the constructor never affects a tick; a rate of exactly 1 is handled as below |
| Hysteresis.Tick | shaker.py:101-108 | the hot callback only fires on a rate strictly above 1 and the cold one only on a rate of at most 1; a rate of exactly 1 never fires hot and wipes any warmup in progress |
| Traces.InitBounded | shaker.py:86-88 | the controller starts Cold with both counters 0, a state within bounds |
| Traces.Run | shaker.py:103-146 | every state reached from a bounded state has countUp <= max(warmup, 0), countDown <= max(cooldown, 0), and at least one counter zero; after at least one tick one counter is zero from any start |
| Traces.CallbacksAlternate | shaker.py:110-138 | the callbacks of any run alternate, starting with the one that leaves the start mode; the final mode is the start mode flipped once per callback |
| Traces.CallbacksFromInit | shaker.py:86-138 | from the initial state the callbacks are hot, cold, hot, ..., with hot first |
| Traces.WarmupProgress | shaker.py:110-114 | while warming up, each active tick adds one to countUp, fires nothing, and sets red to 100 * (countUp % 2) |
| Traces.CooldownProgress | shaker.py:129-133 | while cooling down, each inactive tick adds one to countDown, fires nothing, and sets green to 100 * (countDown % 2) |
| Traces.ExactActivation | shaker.py:110-119 | from Cold with countUp 0, the hot callback fires on exactly the (max(warmup, 0)+1)-th consecutive active tick and on no earlier tick |
| Traces.ExactDeactivation | shaker.py:129-138 | from Hot with countDown 0, the cold callback fires on exactly the (max(cooldown, 0)+1)-th consecutive inactive tick and on no earlier tick |
| Traces.HotReversalRestarts | shaker.py:120-125 | one active tick while Hot clears both counters, so cooldown restarts from zero |
| Traces.ColdReversalRestarts | shaker.py:139-144 | one inactive tick while Cold returns to the initial state, so everything after it is a fresh start |
| Traces.CountersTrackCurrentRun | shaker.py:108-144 | from the initial state, while Cold the last countUp ticks were all active, and while Hot the last countDown ticks were all inactive |
| Traces.HotOnlyAfterWarmup | shaker.py:110-119 | whenever the hot callback fires, that tick and the max(warmup, 0) ticks before it were all active |
| Traces.ColdOnlyAfterCooldown | shaker.py:129-138 | whenever the cold callback fires, that tick and the max(cooldown, 0) ticks before it were all inactive |
| Controller.RunRatesMatchesRun | shaker.py:103-146 | running the loop one `Tick` per rate reaches the same state as the tick model fed "rate strictly above 1" per tick |
| Controller.Control | shaker.py:103-146 | the loop over a sequence of rates ends in the state reached by one `Tick` per rate, which is the state the tick model reaches and returns the callbacks it fires, in order; the counters stay bounded and the callbacks alternate, hot first |
| Controller.WarmupThreeExample | shaker.py:108-119 | with warmup 3, rates 2, 2, 2 fire nothing and 2, 2, 2, 2 fire hot once; after 2, 2, 0 the count restarts |

## Left out

- The activity meter (the `yunomi` `Meter`, its `mark` and its one-minute decayed rate) is an external library with floating-point smoothing. The controller takes the rate of each tick as an input, and the sampler's output is the number of marks it would record.
- Threads, the `stopping` flags, `stop`, `__del__` and the `time.sleep` pacing of both loops are concurrency and timing concerns. The model is one tick at a time and one reading at a time, over finite sequences.
- The accelerometer driver (`LIS3DH`) and the light driver (`LedControl`) are hardware I/O. Readings are `real` inputs. Light writes are output values of a tick.
- Hysteresis.Step: the order of the two light writes within one steady tick (green before red while Hot, red before green while Cold) is not modelled; only the values written on the tick are.
- Callbacks are modelled as the event a tick reports. An exception raised inside a callback, which would end the loop, is not modelled.
- The LED pin numbers and the `debug` flag and its diagnostic prints have no effect on the logic.
- Movement.Threshold: `1 + sensitivity` is real addition, with no floating-point rounding.
- `Appliance.py` is argument parsing and an HTTP notification. It has no logic of the controller's own.
