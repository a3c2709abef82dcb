/** The supervisory tick of `Shaker` in shaker.py: once per second the
    controller compares the meter's rate with the threshold, advances the
    warmup/cooldown counters, writes the indicator lights and, on the tick
    where the mode flips, fires the hot or cold callback. `Step` is the
    body of that loop as a pure function of the state and of whether this
    tick's rate was above the threshold. */
module Hysteresis {

  import opened Wrappers

  /** `activated` in the source: Cold is False, Hot is True. */
  datatype Mode = Cold | Hot

  datatype State = State(mode: Mode, countUp: nat, countDown: nat)

  /** Which of the two callbacks a tick invokes. */
  datatype Callback = HotCallback | ColdCallback

  /** What one tick produces: the next state, the callback it fires (if
      any), and the values it writes to the red (cold) and green (hot)
      lights, None when a light is not written on this tick. */
  datatype Output = Output(next: State, callback: Option<Callback>, red: Option<nat>, green: Option<nat>)

  /** The constructor parameters that bear on the control loop. `threshold`
      is accepted (and printed in debug mode) but never stored or used: the
      loop compares against the constant `RateThreshold`. Warmup and
      cooldown are plain integers, as in the source, and may be negative.
      The sensitivity only reaches the sampler, so it is a parameter of the
      movement test instead. */
  datatype Config = Config(threshold: real, warmup: int, cooldown: int)

  /** The rate above which a tick counts as active, whatever threshold was
      passed to the constructor. */
  const RateThreshold: real := 1.0

  /** Full intensity of an indicator light. */
  const Full: nat := 100

  /** The state the controller starts in. */
  function Init(): State
  {
    State(Cold, 0, 0)
  }

  /** The number of counting ticks a limit really demands: a counter starts
      at zero and never goes negative, so a negative limit acts like 0. */
  function Dwell(limit: int): nat
  {
    if limit < 0 then 0 else limit
  }

  /** The callback that leaving a mode fires. */
  function Leaving(m: Mode): Callback
  {
    if m == Cold then HotCallback else ColdCallback
  }

  function Flip(m: Mode): Mode
  {
    if m == Cold then Hot else Cold
  }

  /** Counters stay within their limits and are never both nonzero. */
  predicate Bounded(c: Config, s: State)
  {
    && s.countUp <= Dwell(c.warmup)
    && s.countDown <= Dwell(c.cooldown)
    && (s.countUp == 0 || s.countDown == 0)
  }

  /** A light value is either off or full. */
  predicate LightValue(v: Option<nat>)
  {
    v.None? || v.value == 0 || v.value == Full
  }

  /** One control tick. */
  function Step(c: Config, s: State, above: bool): (o: Output)
    // the callback fires exactly on the tick the mode flips, and it is the
    // callback for the mode being left
    ensures o.callback.Some? <==> o.next.mode != s.mode
    ensures o.callback.Some? ==> o.callback.value == Leaving(s.mode) && o.next.mode == Flip(s.mode)
    // the mode only flips once the counter on the right side has reached
    // its limit, on a tick on that same side of the threshold
    ensures o.next.mode != s.mode <==>
      if s.mode == Cold then above && s.countUp >= c.warmup else !above && s.countDown >= c.cooldown
    // the transition tick keeps the count that completed the dwell and
    // clears the other counter; the next tick clears both
    ensures o.callback.Some? ==>
      o.next == (if s.mode == Cold then State(Hot, s.countUp, 0) else State(Cold, 0, s.countDown))
    // whatever the state before, one of the counters is zero after the tick
    ensures o.next.countUp == 0 || o.next.countDown == 0
    ensures Bounded(c, s) ==> Bounded(c, o.next)
    // a tick on the wrong side of the threshold wipes the count in progress
    ensures s.mode == Cold && !above ==> o.next == Init()
    ensures s.mode == Hot && above ==> o.next == State(Hot, 0, 0)
    // a counting tick advances its counter by one and clears the other
    ensures s.mode == Cold && above && o.next.mode == Cold ==> o.next == State(Cold, s.countUp + 1, 0)
    ensures s.mode == Hot && !above && o.next.mode == Hot ==> o.next == State(Hot, 0, s.countDown + 1)
    // every light written is off or full, and a transition writes none
    ensures LightValue(o.red) && LightValue(o.green)
    ensures o.callback.Some? ==> o.red.None? && o.green.None?
    // blinking while counting: the light of the current mode shows the
    // parity of the counter
    ensures s.mode == Cold && above && o.callback.None? ==>
      o.red == Some(Full * (o.next.countUp % 2)) && o.green.None?
    ensures s.mode == Hot && !above && o.callback.None? ==>
      o.green == Some(Full * (o.next.countDown % 2)) && o.red.None?
    // steady state: only the light of the current mode is lit
    ensures s.mode == Hot && above ==> o.green == Some(Full) && o.red == Some(0)
    ensures s.mode == Cold && !above ==> o.red == Some(Full) && o.green == Some(0)
  {
    if above then
      match s.mode
      case Cold =>
        if s.countUp < c.warmup then
          var up := s.countUp + 1;
          Output(State(Cold, up, 0), None, Some(Full * (up % 2)), None)
        else
          Output(State(Hot, s.countUp, 0), Some(HotCallback), None, None)
      case Hot =>
        Output(State(Hot, 0, 0), None, Some(0), Some(Full))
    else
      match s.mode
      case Hot =>
        if s.countDown < c.cooldown then
          var down := s.countDown + 1;
          Output(State(Hot, 0, down), None, None, Some(Full * (down % 2)))
        else
          Output(State(Cold, 0, s.countDown), Some(ColdCallback), None, None)
      case Cold =>
        Output(State(Cold, 0, 0), None, Some(Full), Some(0))
  }

  /** One tick driven by the meter's rate: strictly above the fixed
      threshold of 1 counts as active. */
  function Tick(c: Config, s: State, rate: real): (o: Output)
    // going hot needs a rate strictly above 1, going cold a rate of at most 1
    ensures o.callback == Some(HotCallback) ==> rate > 1.0
    ensures o.callback == Some(ColdCallback) ==> rate <= 1.0
    // a rate of exactly 1 is inactive: it never fires the hot callback and
    // wipes any warmup in progress
    ensures rate == 1.0 ==> o.callback != Some(HotCallback)
    ensures rate == 1.0 && s.mode == Cold ==> o.next == Init()
  {
    Step(c, s, rate > RateThreshold)
  }

  /** The threshold passed to the constructor has no effect on any tick,
      and a rate exactly at 1 is handled as below the threshold. */
  lemma ThresholdFixedAtOne(c: Config, s: State, rate: real, requested: real)
    ensures Tick(c.(threshold := requested), s, rate) == Tick(c, s, rate)
    ensures Tick(c, s, 1.0) == Step(c, s, false)
    ensures rate > 1.0 ==> Tick(c, s, rate) == Step(c, s, true)
    ensures rate <= 1.0 ==> Tick(c, s, rate) == Step(c, s, false)
  {
  }
}
