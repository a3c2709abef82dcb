/** The control loop of `Shaker.__init__` driven by the meter's rates, one
    rate per one-second tick. The rates are an input: the meter that
    produces them is not part of this model. */
module Controller {

  import opened Wrappers
  import opened Hysteresis
  import opened Traces

  /** Whether each tick's rate is strictly above the fixed threshold. */
  function Aboves(rates: seq<real>): seq<bool>
  {
    seq(|rates|, i requires 0 <= i < |rates| => rates[i] > RateThreshold)
  }

  /** The state after the loop has run one `Tick` per rate. */
  function RunRates(c: Config, s: State, rates: seq<real>): State
    decreases |rates|
  {
    if |rates| == 0 then s else RunRates(c, Tick(c, s, rates[0]).next, rates[1..])
  }

  /** Driving the loop with rates is the same as driving the tick model
      with "rate strictly above 1" for each tick: the rates matter only
      through that comparison. */
  lemma {:induction false} RunRatesMatchesRun(c: Config, s: State, rates: seq<real>)
    ensures RunRates(c, s, rates) == Run(c, s, Aboves(rates))
    decreases |rates|
  {
    if |rates| > 0 {
      assert Aboves(rates)[0] == (rates[0] > RateThreshold);
      assert Aboves(rates)[1..] == Aboves(rates[1..]);
      RunRatesMatchesRun(c, Tick(c, s, rates[0]).next, rates[1..]);
    }
  }

  /** Extending a run by one tick appends that tick's output to the trace. */
  lemma TraceSnoc(c: Config, s: State, ins: seq<bool>, x: bool)
    ensures Run(c, s, ins + [x]) == Step(c, Run(c, s, ins), x).next
    ensures Trace(c, s, ins + [x]) == Trace(c, s, ins) + [Step(c, Run(c, s, ins), x)]
  {
    RunAppend(c, s, ins, [x]);
  }

  /** Runs the controller over the given rates, starting from the initial
      state, and returns the final state and the callbacks invoked in
      order. The result agrees with the tick-by-tick model, the final
      state keeps its counters bounded, and the callbacks alternate hot,
      cold, hot, ... */
  method Control(c: Config, rates: seq<real>) returns (s: State, fired: seq<Callback>)
    ensures s == RunRates(c, Init(), rates)
    ensures s == Run(c, Init(), Aboves(rates))
    ensures fired == Callbacks(Trace(c, Init(), Aboves(rates)))
    ensures Bounded(c, s)
    ensures AlternatesFrom(fired, Cold)
    ensures s.mode == (if |fired| % 2 == 0 then Cold else Hot)
  {
    s := Init();
    fired := [];
    var i := 0;
    while i < |rates|
      invariant 0 <= i <= |rates|
      invariant s == Run(c, Init(), Aboves(rates[..i]))
      invariant fired == Callbacks(Trace(c, Init(), Aboves(rates[..i])))
      invariant Bounded(c, s)
    {
      var o := Tick(c, s, rates[i]);
      if o.callback.Some? {
        fired := fired + [o.callback.value];
      }
      s := o.next;
      ghost var before := Aboves(rates[..i]);
      assert Aboves(rates[..i + 1]) == before + [rates[i] > RateThreshold];
      TraceSnoc(c, Init(), before, rates[i] > RateThreshold);
      CallbacksAppend(Trace(c, Init(), before), [o]);
      assert Callbacks([o]) == (if o.callback.Some? then [o.callback.value] else []);
      i := i + 1;
    }
    assert rates[..i] == rates;
    CallbacksAlternate(c, Init(), Aboves(rates));
    RunRatesMatchesRun(c, Init(), rates);
  }

  /** A stretch of ticks none of which fires contributes no callback. */
  lemma {:induction false} CallbacksOfQuietTrace(t: seq<Output>)
    requires forall i :: 0 <= i < |t| ==> t[i].callback.None?
    ensures Callbacks(t) == []
    decreases |t|
  {
    if |t| > 0 {
      CallbacksOfQuietTrace(t[1..]);
    }
  }

  /** With warmup 3, the hot callback fires on the fourth consecutive
      active tick: three rates of 2 fire nothing, a fourth fires it. A
      rate of 0 in the middle of a run restarts the count, so
      2, 2, 0, 2, 2, 2 fires nothing and one more 2 fires it. */
  lemma WarmupThreeExample(threshold: real, cooldown: int)
    ensures var c := Config(threshold, 3, cooldown);
      && Callbacks(Trace(c, Init(), Aboves([2.0, 2.0, 2.0]))) == []
      && Callbacks(Trace(c, Init(), Aboves([2.0, 2.0, 2.0, 2.0]))) == [HotCallback]
      && Callbacks(Trace(c, Init(), Aboves([2.0, 2.0, 0.0, 2.0, 2.0, 2.0]))) == []
      && Callbacks(Trace(c, Init(), Aboves([2.0, 2.0, 0.0, 2.0, 2.0, 2.0, 2.0]))) == [HotCallback]
  {
    var c := Config(threshold, 3, cooldown);
    var t3 := [true, true, true];
    var t4 := [true, true, true, true];
    assert Aboves([2.0, 2.0, 2.0]) == t3;
    assert Aboves([2.0, 2.0, 2.0, 2.0]) == t4;
    assert Aboves([2.0, 2.0, 0.0, 2.0, 2.0, 2.0]) == [true, true] + ([false] + t3);
    assert Aboves([2.0, 2.0, 0.0, 2.0, 2.0, 2.0, 2.0]) == [true, true] + ([false] + t4);

    // three active ticks only count up
    assert Repeat(true, 3) == t3;
    WarmupProgress(c, Init(), 3);
    CallbacksOfQuietTrace(Trace(c, Init(), t3));

    // the fourth fires the hot callback
    ExactActivation(c, 0);
    assert Repeat(true, 4) == t4 && t4 == t3 + [true];
    RunAppend(c, Init(), t3, [true]);
    CallbacksAppend(Trace(c, Init(), t3), Trace(c, Run(c, Init(), t3), [true]));

    // two active ticks, then the reversal tick back to the initial state
    assert Repeat(true, 2) == [true, true];
    WarmupProgress(c, Init(), 2);
    CallbacksOfQuietTrace(Trace(c, Init(), [true, true]));
    var s2 := Run(c, Init(), [true, true]);
    assert Trace(c, s2, [false]) == [Step(c, s2, false)];

    forall rest: seq<bool> | rest == t3 || rest == t4
      ensures Callbacks(Trace(c, Init(), [true, true] + ([false] + rest)))
           == Callbacks(Trace(c, Init(), rest))
    {
      RunAppend(c, Init(), [true, true], [false] + rest);
      RunAppend(c, s2, [false], rest);
      ColdReversalRestarts(c, s2, rest);
      CallbacksAppend(Trace(c, Init(), [true, true]), Trace(c, s2, [false] + rest));
      CallbacksAppend(Trace(c, s2, [false]), Trace(c, Init(), rest));
    }
  }
}
