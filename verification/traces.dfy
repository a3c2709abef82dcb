/** The control loop run over a finite sequence of ticks. Each input says
    whether that tick's rate was above the threshold; `Run` is the state
    after the ticks, `Trace` the output of every tick and `Callbacks` the
    callbacks invoked, in order. */
module Traces {

  import opened Wrappers
  import opened Hysteresis

  /** The state after running the ticks `ins` from `s`. The counters stay
      within the warmup and cooldown limits (a negative limit acting as 0)
      and never both nonzero, and after at least one tick one of them is
      zero whatever the starting state. */
  function Run(c: Config, s: State, ins: seq<bool>): (r: State)
    ensures Bounded(c, s) ==> Bounded(c, r)
    ensures |ins| > 0 ==> r.countUp == 0 || r.countDown == 0
    decreases |ins|
  {
    if |ins| == 0 then s else Run(c, Step(c, s, ins[0]).next, ins[1..])
  }

  /** The output of every tick, in order. */
  function Trace(c: Config, s: State, ins: seq<bool>): (t: seq<Output>)
    ensures |t| == |ins|
    decreases |ins|
  {
    if |ins| == 0 then [] else [Step(c, s, ins[0])] + Trace(c, Step(c, s, ins[0]).next, ins[1..])
  }

  /** The callbacks fired by a sequence of tick outputs, in order. */
  function Callbacks(t: seq<Output>): seq<Callback>
  {
    if |t| == 0 then []
    else (if t[0].callback.Some? then [t[0].callback.value] else []) + Callbacks(t[1..])
  }

  /** A run of `k` identical ticks. */
  function Repeat(above: bool, k: nat): seq<bool>
  {
    seq(k, i => above)
  }

  /** Callbacks that alternate, starting with the one that leaves `m`. */
  predicate AlternatesFrom(cbs: seq<Callback>, m: Mode)
    decreases |cbs|
  {
    |cbs| == 0 || (cbs[0] == Leaving(m) && AlternatesFrom(cbs[1..], Flip(m)))
  }

  /** Running two stretches of ticks is running the second from where the
      first left off. */
  lemma {:induction false} RunAppend(c: Config, s: State, a: seq<bool>, b: seq<bool>)
    ensures Run(c, s, a + b) == Run(c, Run(c, s, a), b)
    ensures Trace(c, s, a + b) == Trace(c, s, a) + Trace(c, Run(c, s, a), b)
    decreases |a|
  {
    if |a| > 0 {
      assert (a + b)[0] == a[0];
      assert (a + b)[1..] == a[1..] + b;
      RunAppend(c, Step(c, s, a[0]).next, a[1..], b);
    } else {
      assert a + b == b;
    }
  }

  lemma {:induction false} CallbacksAppend(t: seq<Output>, u: seq<Output>)
    ensures Callbacks(t + u) == Callbacks(t) + Callbacks(u)
    decreases |t|
  {
    if |t| > 0 {
      assert (t + u)[0] == t[0];
      assert (t + u)[1..] == t[1..] + u;
      CallbacksAppend(t[1..], u);
    } else {
      assert t + u == u;
    }
  }

  /** Tick `i` of a trace is `Step` applied to the state reached after the
      first `i` ticks. */
  lemma {:induction false} TraceAt(c: Config, s: State, ins: seq<bool>, i: nat)
    requires i < |ins|
    ensures Trace(c, s, ins)[i] == Step(c, Run(c, s, ins[..i]), ins[i])
    decreases i
  {
    if i > 0 {
      TraceAt(c, Step(c, s, ins[0]).next, ins[1..], i - 1);
      assert ins[1..][..i - 1] == ins[1..i];
      assert ins[..i][0] == ins[0] && ins[..i][1..] == ins[1..i];
    }
  }

  lemma InitBounded(c: Config)
    ensures Init() == State(Cold, 0, 0)
    ensures Bounded(c, Init())
  {
  }

  /** The callbacks of any run alternate, starting with the one that leaves
      the starting mode, and the run ends in the starting mode flipped once
      per callback. */
  lemma {:induction false} CallbacksAlternate(c: Config, s: State, ins: seq<bool>)
    ensures AlternatesFrom(Callbacks(Trace(c, s, ins)), s.mode)
    ensures Run(c, s, ins).mode == (if |Callbacks(Trace(c, s, ins))| % 2 == 0 then s.mode else Flip(s.mode))
    decreases |ins|
  {
    if |ins| > 0 {
      var o := Step(c, s, ins[0]);
      var t := Trace(c, s, ins);
      CallbacksAlternate(c, o.next, ins[1..]);
      assert t[0] == o && t[1..] == Trace(c, o.next, ins[1..]);
      var cbs := Callbacks(t);
      if o.callback.Some? {
        assert cbs == [o.callback.value] + Callbacks(t[1..]);
        assert cbs[1..] == Callbacks(t[1..]);
      } else {
        assert cbs == Callbacks(t[1..]);
      }
    }
  }

  /** From the initial state the callbacks go hot, cold, hot, ...: the hot
      callback comes first and the two never repeat back to back. */
  lemma CallbacksFromInit(c: Config, ins: seq<bool>)
    ensures AlternatesFrom(Callbacks(Trace(c, Init(), ins)), Cold)
    ensures forall i :: 0 <= i < |Callbacks(Trace(c, Init(), ins))| ==>
      Callbacks(Trace(c, Init(), ins))[i] == (if i % 2 == 0 then HotCallback else ColdCallback)
  {
    CallbacksAlternate(c, Init(), ins);
    AlternatesIndexed(Callbacks(Trace(c, Init(), ins)), Cold);
  }

  lemma {:induction false} AlternatesIndexed(cbs: seq<Callback>, m: Mode)
    requires AlternatesFrom(cbs, m)
    ensures forall i :: 0 <= i < |cbs| ==> cbs[i] == (if i % 2 == 0 then Leaving(m) else Leaving(Flip(m)))
    decreases |cbs|
  {
    if |cbs| > 0 {
      AlternatesIndexed(cbs[1..], Flip(m));
      forall i | 0 < i < |cbs|
        ensures cbs[i] == (if i % 2 == 0 then Leaving(m) else Leaving(Flip(m)))
      {
        assert cbs[i] == cbs[1..][i - 1];
      }
    }
  }

  /** While counting up from Cold, each above-threshold tick adds one to
      the counter, fires nothing and blinks the red light with the parity
      of the counter. */
  lemma {:induction false} WarmupProgress(c: Config, s: State, k: nat)
    requires s.mode == Cold && s.countUp + k <= Dwell(c.warmup)
    ensures Run(c, s, Repeat(true, k)) == (if k == 0 then s else State(Cold, s.countUp + k, 0))
    ensures forall i :: 0 <= i < k ==>
      Trace(c, s, Repeat(true, k))[i] == Output(State(Cold, s.countUp + i + 1, 0), None, Some(Full * ((s.countUp + i + 1) % 2)), None)
    decreases k
  {
    if k > 0 {
      var o := Step(c, s, true);
      assert o.next == State(Cold, s.countUp + 1, 0);
      assert Repeat(true, k)[0] == true && Repeat(true, k)[1..] == Repeat(true, k - 1);
      WarmupProgress(c, o.next, k - 1);
      var t := Trace(c, s, Repeat(true, k));
      forall i | 0 < i < k
        ensures t[i] == Output(State(Cold, s.countUp + i + 1, 0), None, Some(Full * ((s.countUp + i + 1) % 2)), None)
      {
        assert t[i] == Trace(c, o.next, Repeat(true, k - 1))[i - 1];
      }
    }
  }

  /** While counting down from Hot, each tick at or below the threshold
      adds one to the counter, fires nothing and blinks the green light. */
  lemma {:induction false} CooldownProgress(c: Config, s: State, k: nat)
    requires s.mode == Hot && s.countDown + k <= Dwell(c.cooldown)
    ensures Run(c, s, Repeat(false, k)) == (if k == 0 then s else State(Hot, 0, s.countDown + k))
    ensures forall i :: 0 <= i < k ==>
      Trace(c, s, Repeat(false, k))[i] == Output(State(Hot, 0, s.countDown + i + 1), None, None, Some(Full * ((s.countDown + i + 1) % 2)))
    decreases k
  {
    if k > 0 {
      var o := Step(c, s, false);
      assert o.next == State(Hot, 0, s.countDown + 1);
      assert Repeat(false, k)[0] == false && Repeat(false, k)[1..] == Repeat(false, k - 1);
      CooldownProgress(c, o.next, k - 1);
      var t := Trace(c, s, Repeat(false, k));
      forall i | 0 < i < k
        ensures t[i] == Output(State(Hot, 0, s.countDown + i + 1), None, None, Some(Full * ((s.countDown + i + 1) % 2)))
      {
        assert t[i] == Trace(c, o.next, Repeat(false, k - 1))[i - 1];
      }
    }
  }

  /** From Cold with no warmup credit, the hot callback fires on exactly
      the (warmup+1)-th consecutive above-threshold tick and on no earlier
      tick; the transition tick leaves the warmup counter at its limit. */
  lemma ExactActivation(c: Config, countDown: nat)
    ensures var n := Dwell(c.warmup);
      var t := Trace(c, State(Cold, 0, countDown), Repeat(true, n + 1));
      && (forall i :: 0 <= i <= n ==> t[i].callback == (if i == n then Some(HotCallback) else None))
      && Run(c, State(Cold, 0, countDown), Repeat(true, n + 1)) == State(Hot, n, 0)
  {
    var n := Dwell(c.warmup);
    var s := State(Cold, 0, countDown);
    var ins := Repeat(true, n + 1);
    assert ins == Repeat(true, n) + [true];
    WarmupProgress(c, s, n);
    RunAppend(c, s, Repeat(true, n), [true]);
    var mid := Run(c, s, Repeat(true, n));
    assert mid.mode == Cold && mid.countUp == n;
  }

  /** From Hot with no cooldown credit, the cold callback fires on exactly
      the (cooldown+1)-th consecutive tick at or below the threshold and on
      no earlier tick. */
  lemma ExactDeactivation(c: Config, countUp: nat)
    ensures var n := Dwell(c.cooldown);
      var t := Trace(c, State(Hot, countUp, 0), Repeat(false, n + 1));
      && (forall i :: 0 <= i <= n ==> t[i].callback == (if i == n then Some(ColdCallback) else None))
      && Run(c, State(Hot, countUp, 0), Repeat(false, n + 1)) == State(Cold, 0, n)
  {
    var n := Dwell(c.cooldown);
    var s := State(Hot, countUp, 0);
    var ins := Repeat(false, n + 1);
    assert ins == Repeat(false, n) + [false];
    CooldownProgress(c, s, n);
    RunAppend(c, s, Repeat(false, n), [false]);
    var mid := Run(c, s, Repeat(false, n));
    assert mid.mode == Hot && mid.countDown == n;
  }

  /** No partial credit survives a reversal: one tick at or below the
      threshold while Cold returns the controller to its initial state, so
      everything after it is exactly a fresh start. */
  lemma ColdReversalRestarts(c: Config, s: State, rest: seq<bool>)
    requires s.mode == Cold
    ensures Run(c, s, [false]) == Init()
    ensures Trace(c, s, [false] + rest)[1..] == Trace(c, Init(), rest)
    ensures Run(c, s, [false] + rest) == Run(c, Init(), rest)
  {
    RunAppend(c, s, [false], rest);
  }

  /** Symmetrically, one above-threshold tick while Hot clears both
      counters, so cooldown restarts from zero. */
  lemma HotReversalRestarts(c: Config, s: State, rest: seq<bool>)
    requires s.mode == Hot
    ensures Run(c, s, [true]) == State(Hot, 0, 0)
    ensures Trace(c, s, [true] + rest)[1..] == Trace(c, State(Hot, 0, 0), rest)
    ensures Run(c, s, [true] + rest) == Run(c, State(Hot, 0, 0), rest)
  {
    RunAppend(c, s, [true], rest);
  }

  /** The last `k` ticks of `ins` were all `b`. */
  predicate EndsWithRun(ins: seq<bool>, k: nat, b: bool)
  {
    k <= |ins| && forall j :: |ins| - k <= j < |ins| ==> ins[j] == b
  }

  /** Running from the initial state, the counter of the current mode
      counts ticks of one unbroken run: while Cold the last `countUp`
      ticks were all above the threshold, while Hot the last `countDown`
      ticks were all at or below it. */
  lemma {:induction false} CountersTrackCurrentRun(c: Config, ins: seq<bool>)
    ensures var s := Run(c, Init(), ins);
      && (s.mode == Cold ==> EndsWithRun(ins, s.countUp, true))
      && (s.mode == Hot ==> EndsWithRun(ins, s.countDown, false))
    decreases |ins|
  {
    if |ins| > 0 {
      var pre := ins[..|ins| - 1];
      var x := ins[|ins| - 1];
      assert ins == pre + [x];
      CountersTrackCurrentRun(c, pre);
      RunAppend(c, Init(), pre, [x]);
      assert Run(c, Init(), ins) == Step(c, Run(c, Init(), pre), x).next;
    }
  }

  /** The hot callback never fires before the warmup has fully elapsed:
      when it fires on tick `i` of a run from the initial state, that tick
      and the `warmup` ticks before it were all above the threshold. */
  lemma HotOnlyAfterWarmup(c: Config, ins: seq<bool>, i: nat)
    requires i < |ins|
    requires Trace(c, Init(), ins)[i].callback == Some(HotCallback)
    ensures Dwell(c.warmup) <= i
    ensures forall j :: i - Dwell(c.warmup) <= j <= i ==> ins[j]
  {
    TraceAt(c, Init(), ins, i);
    var s := Run(c, Init(), ins[..i]);
    InitBounded(c);
    CountersTrackCurrentRun(c, ins[..i]);
    assert s.mode == Cold && ins[i] && s.countUp == Dwell(c.warmup);
    forall j | i - Dwell(c.warmup) <= j < i
      ensures ins[j]
    {
      assert ins[j] == ins[..i][j];
    }
  }

  /** The cold callback never fires before the cooldown has fully elapsed:
      when it fires on tick `i`, that tick and the `cooldown` ticks before
      it were all at or below the threshold. */
  lemma ColdOnlyAfterCooldown(c: Config, ins: seq<bool>, i: nat)
    requires i < |ins|
    requires Trace(c, Init(), ins)[i].callback == Some(ColdCallback)
    ensures Dwell(c.cooldown) <= i
    ensures forall j :: i - Dwell(c.cooldown) <= j <= i ==> !ins[j]
  {
    TraceAt(c, Init(), ins, i);
    var s := Run(c, Init(), ins[..i]);
    InitBounded(c);
    CountersTrackCurrentRun(c, ins[..i]);
    assert s.mode == Hot && !ins[i] && s.countDown == Dwell(c.cooldown);
    forall j | i - Dwell(c.cooldown) <= j < i
      ensures !ins[j]
    {
      assert ins[j] == ins[..i][j];
    }
  }
}
