/** What over-temperature, sensor loss and slowing down can never do, over whole runs with
    arbitrary clocks, sensors and reinitialisations. */
module Safety {
  import opened Floats
  import opened ControlLoop
  import Adapter
  import Clamp
  import Panic
  import Stages

  // ---- the latch: entering -------------------------------------------------------------

  // The last event before `k` that ran the over-temperature check.
  function LastCheck(run: seq<Event>, ss: seq<State>, k: nat): Option<nat>
    requires |ss| == |run| + 1 && k <= |run|
  {
    if k == 0 then None
    else if Checked(run, ss, k - 1) then Some(k - 1)
    else LastCheck(run, ss, k - 1)
  }

  predicate Above(c: Config, ss: seq<State>, i: nat)
    requires i + 1 < |ss|
  {
    ss[i + 1].raw > c.tuning.panicTemp
  }

  lemma StepLatch(c: Config, s: State, e: Event, s': State)
    requires s' == Step(c, s, e)
    ensures e.Tick? && !Blind(s, e.x) ==>
              s'.latch == Panic.Next(s.latch, s'.raw, c.tuning.panicTemp, c.tuning.panicHold, e.x.now)
    ensures !(e.Tick? && !Blind(s, e.x)) ==> s'.latch == s.latch
  {
  }

  // The counter is positive exactly when the previous check was above the threshold.
  lemma {:induction false} CounterMeaning(c: Config, run: seq<Event>, ss: seq<State>, k: nat)
    requires Trace(c, run, ss) && k <= |run| && ss[0].latch == Panic.FRESH
    ensures var last := LastCheck(run, ss, k);
            && (last.Some? ==> last.value < k)
            && (ss[k].latch.above > 0 <==> last.Some? && Above(c, ss, last.value))
            && (ss[k].latch.latched <==> ss[k].latch.enteredAt.Some?)
  {
    if k > 0 {
      CounterMeaning(c, run, ss, k - 1);
      assert StepAt(c, run, ss, k - 1);
      StepLatch(c, ss[k - 1], run[k - 1], ss[k]);
    }
  }

  // The latch is entered exactly on a check above the threshold directly after another one.
  lemma EntersIff(c: Config, run: seq<Event>, ss: seq<State>, k: nat)
    requires Trace(c, run, ss) && k < |run| && ss[0].latch == Panic.FRESH
    requires !ss[k].latch.latched
    ensures var last := LastCheck(run, ss, k);
            (last.Some? ==> last.value < k)
            && (ss[k + 1].latch.latched <==>
                Checked(run, ss, k) && Above(c, ss, k) && last.Some? && Above(c, ss, last.value))
  {
    CounterMeaning(c, run, ss, k);
    assert StepAt(c, run, ss, k);
    StepLatch(c, ss[k], run[k], ss[k + 1]);
  }

  // It is left exactly on a check at or below the threshold once the hold time is over.
  lemma ReleasesIff(c: Config, run: seq<Event>, ss: seq<State>, k: nat)
    requires Trace(c, run, ss) && k < |run| && ss[0].latch == Panic.FRESH
    requires ss[k].latch.latched
    ensures ss[k].latch.enteredAt.Some?
    ensures !ss[k + 1].latch.latched <==>
            Checked(run, ss, k) && !Above(c, ss, k)
            && (c.tuning.panicHold == 0
                || run[k].x.now >= ss[k].latch.enteredAt.value + c.tuning.panicHold * 1_000_000_000)
  {
    CounterMeaning(c, run, ss, k);
    if run[k].Tick? {
      Panic.ElapsedIff(run[k].x.now, ss[k].latch.enteredAt.value, c.tuning.panicHold);
    }
    assert StepAt(c, run, ss, k);
    StepLatch(c, ss[k], run[k], ss[k + 1]);
  }

  // ---- the latch: holding --------------------------------------------------------------

  ghost predicate MonotoneClock(run: seq<Event>) {
    forall i, j :: 0 <= i <= j < |run| && run[i].Tick? && run[j].Tick? ==> run[i].x.now <= run[j].x.now
  }

  // The maximum, as the pipeline hands it out: raw when blind, rounded otherwise.
  function Maximum(c: Config, s: State, x: Sample): real {
    if Blind(s, x) then c.fan.maxRpm else RoundU32(c.fan.maxRpm) as real
  }

  ghost predicate Ordered(c: Config) { Clamp.Ordered(c.fan.minRpm, c.fan.maxRpm, c.fan.safeMin) }

  // A blind tick returns the maximum; a latched one does exactly if the safe floor does not outrank it.
  lemma LatchedOutput(c: Config, s: State, x: Sample)
    requires Blind(s, x) || Ticked(c, s, x).latch.latched
    ensures Output(c, s, x) == Maximum(c, s, x) <==> Blind(s, x) || Ordered(c)
  {
    var low := Clamp.EffectiveMin(c.fan.minRpm, c.fan.safeMin);
    if low <= c.fan.maxRpm {
      RoundMonotone(low, c.fan.maxRpm);
    } else {
      RoundMonotone(c.fan.maxRpm, low);
    }
  }

  // From the tick that enters the latch until `panicHold` seconds later, every tick returns the
  // maximum, whatever the sensors, the curve or a reinit do in between, exactly under that condition.
  lemma {:induction false} HoldsMax(c: Config, run: seq<Event>, ss: seq<State>, i: nat, k: nat)
    requires Trace(c, run, ss) && MonotoneClock(run) && i <= k < |run|
    requires run[i].Tick? && !ss[i].latch.latched && ss[i + 1].latch.latched
    requires run[k].Tick? && run[k].x.now < run[i].x.now + c.tuning.panicHold * 1_000_000_000
    ensures OutputAt(c, run, ss, k) == Maximum(c, ss[k], run[k].x) <==> Blind(ss[k], run[k].x) || Ordered(c)
  {
    Panic.ElapsedIff(run[k].x.now, run[i].x.now, c.tuning.panicHold);
    StaysLatched(c, run, ss, i, k, run[k].x.now);
    assert StepAt(c, run, ss, k);
    LatchedOutput(c, ss[k], run[k].x);
  }

  lemma {:induction false} StaysLatched(c: Config, run: seq<Event>, ss: seq<State>, i: nat, k: nat, end: nat)
    requires Trace(c, run, ss) && i <= k < |run| && run[i].Tick?
    requires !ss[i].latch.latched && ss[i + 1].latch.latched
    requires Panic.ElapsedSecs(end, run[i].x.now) < c.tuning.panicHold
    requires forall j :: i <= j <= k && run[j].Tick? ==> run[j].x.now <= end
    ensures ss[k + 1].latch.latched && ss[k + 1].latch.enteredAt == Some(run[i].x.now)
  {
    assert StepAt(c, run, ss, k);
    StepLatch(c, ss[k], run[k], ss[k + 1]);
    if i < k {
      StaysLatched(c, run, ss, i, k - 1, end);
      if run[k].Tick? {
        ElapsedMonotone(run[k].x.now, end, run[i].x.now);
      }
    }
  }

  lemma ElapsedMonotone(a: nat, b: nat, entered: nat)
    requires a <= b
    ensures Panic.ElapsedSecs(a, entered) <= Panic.ElapsedSecs(b, entered)
  {
  }

  // ---- losing every sensor -------------------------------------------------------------

  // Consecutive all-dropout ticks up to event `k`; reinits in between do not interrupt them.
  function DropRun(run: seq<Event>, k: nat): nat
    requires k <= |run|
  {
    if k == 0 then 0
    else match run[k - 1]
         case Reinit(_, _) => DropRun(run, k - 1)
         case Tick(x) => if AllDropped(x) then DropRun(run, k - 1) + 1 else 0
  }

  lemma StepAge(c: Config, s: State, e: Event, s': State)
    requires s' == Step(c, s, e)
    ensures s'.age == match e { case Reinit(_, _) => s.age case Tick(x) => Age(s, x) }
  {
  }

  lemma {:induction false} AgeCounts(c: Config, run: seq<Event>, ss: seq<State>, k: nat)
    requires Trace(c, run, ss) && k <= |run| && ss[0].age == 0
    ensures ss[k].age == if DropRun(run, k) < U32_MAX then DropRun(run, k) else U32_MAX
  {
    if k > 0 {
      AgeCounts(c, run, ss, k - 1);
      assert StepAt(c, run, ss, k - 1);
      StepAge(c, ss[k - 1], run[k - 1], ss[k]);
    }
  }

  // The pipeline is skipped, and the raw maximum returned, exactly from the 61st consecutive
  // all-dropout tick on.
  lemma BlindIff(c: Config, run: seq<Event>, ss: seq<State>, k: nat)
    requires Trace(c, run, ss) && k < |run| && ss[0].age == 0 && run[k].Tick?
    ensures Blind(ss[k], run[k].x) <==> DropRun(run, k + 1) > 60
    ensures DropRun(run, k + 1) > 60 ==> OutputAt(c, run, ss, k) == c.fan.maxRpm
  {
    AgeCounts(c, run, ss, k);
  }

  // ---- bounded slowing down ------------------------------------------------------------

  // What the ramp may take off over events i..k: ramp * min(dt, 1) for each tick.
  function Budget(c: Config, run: seq<Event>, i: nat, k: nat): real
    requires i <= k <= |run|
  {
    if i == k then 0.0
    else Budget(c, run, i, k - 1) + if run[k - 1].Tick? then Allowance(c, run[k - 1].x) else 0.0
  }

  function Allowance(c: Config, x: Sample): real {
    c.tuning.ramp * Min(x.dt, 1.0)
  }

  lemma StepSpeed(c: Config, s: State, x: Sample, s': State)
    requires c.tuning.ramp >= 0.0 && x.dt >= 0.0 && s' == Ticked(c, s, x)
    ensures Allowance(c, x) >= 0.0 && s'.slewed >= s.slewed - Allowance(c, x)
  {
    if !Blind(s, x) {
      Stages.LimitBounds(s.slewed, NextHyst(c, s, x).holdRpm, c.tuning.ramp, x.dt);
    }
    MulMonotone(c.tuning.ramp, 0.0, Min(x.dt, 1.0));
  }

  lemma {:induction false} SpeedFallsSlowly(c: Config, run: seq<Event>, ss: seq<State>, i: nat, k: nat)
    requires Trace(c, run, ss) && i <= k <= |run| && c.tuning.ramp >= 0.0
    requires forall j :: i <= j < k ==> run[j].Tick? && run[j].x.dt >= 0.0
    ensures Budget(c, run, i, k) >= 0.0
    ensures ss[k].slewed >= ss[i].slewed - Budget(c, run, i, k)
  {
    if i < k {
      SpeedFallsSlowly(c, run, ss, i, k - 1);
      assert StepAt(c, run, ss, k - 1);
      StepSpeed(c, ss[k - 1], run[k - 1].x, ss[k]);
    }
  }

  // Tick `i` returned the limited speed: neither blind nor latched.
  predicate Passthrough(run: seq<Event>, ss: seq<State>, i: nat)
    requires |ss| == |run| + 1 && i < |run|
  {
    Checked(run, ss, i) && !ss[i + 1].latch.latched
  }

  lemma PassthroughOutput(c: Config, s: State, x: Sample, s': State)
    requires s' == Ticked(c, s, x) && !Blind(s, x) && !s'.latch.latched
    ensures Output(c, s, x)
            == Clamp.New(Finite(s'.slewed), c.fan.minRpm, c.fan.maxRpm, c.fan.safeMin) as real
  {
  }

  // What a tick hands out is the limited speed to the nearest RPM if floor and maximum allow it, else the
  // one of the two that it passes.
  lemma PassesThrough(c: Config, run: seq<Event>, ss: seq<State>, k: nat)
    requires Trace(c, run, ss) && k < |run| && Passthrough(run, ss, k)
    ensures var low := Clamp.EffectiveMin(c.fan.minRpm, c.fan.safeMin);
            var speed := ss[k + 1].slewed;
            exists n: nat ::
              && OutputAt(c, run, ss, k) == n as real && ss[k + 1].finalTarget == Some(n)
              && Clamp.Nearest(if speed < low then low else if speed > c.fan.maxRpm then c.fan.maxRpm else speed, n)
  {
    assert StepAt(c, run, ss, k);
    var n := Clamp.New(Finite(ss[k + 1].slewed), c.fan.minRpm, c.fan.maxRpm, c.fan.safeMin);
    Clamp.ComesOut(Finite(ss[k + 1].slewed), c.fan.minRpm, c.fan.maxRpm, c.fan.safeMin);
    assert ss[k + 1].finalTarget == Some(n);
  }

  // Between two passthrough ticks with no reinit between them, the emitted target falls by
  // less than the ramp's budget plus one RPM of rounding, even across a panic or a blackout.
  lemma FallsSlowly(c: Config, run: seq<Event>, ss: seq<State>, i: nat, k: nat)
    requires Trace(c, run, ss) && i < k < |run| && c.tuning.ramp >= 0.0
    requires forall j :: i < j <= k ==> run[j].Tick? && run[j].x.dt >= 0.0
    requires Ordered(c)
    requires Passthrough(run, ss, i) && Passthrough(run, ss, k)
    ensures OutputAt(c, run, ss, k)
            > OutputAt(c, run, ss, i) - Budget(c, run, i + 1, k + 1) - 1.0
  {
    SpeedFallsSlowly(c, run, ss, i + 1, k + 1);
    assert StepAt(c, run, ss, i) && StepAt(c, run, ss, k);
    PassthroughOutput(c, ss[i], run[i].x, ss[i + 1]);
    PassthroughOutput(c, ss[k], run[k].x, ss[k + 1]);
    Clamp.ClampDrop(ss[i + 1].slewed, ss[k + 1].slewed, Budget(c, run, i + 1, k + 1),
                    c.fan.minRpm, c.fan.maxRpm, c.fan.safeMin);
  }

  // So the adapter cannot go from above its upper threshold to engaging within less ramp
  // time than it takes to cross 5% of the range.
  lemma EngagingTakesTime(c: Config, run: seq<Event>, ss: seq<State>, i: nat, k: nat)
    requires Trace(c, run, ss) && i < k < |run| && c.tuning.ramp >= 0.0
    requires forall j :: i < j <= k ==> run[j].Tick? && run[j].x.dt >= 0.0
    requires Ordered(c)
    requires Passthrough(run, ss, i) && Passthrough(run, ss, k)
    requires Adapter.Next(Adapter.ForcedMinimum, OutputAt(c, run, ss, i), c.fan.minRpm, c.fan.maxRpm)
             == Adapter.Auto
    requires Adapter.Next(Adapter.Auto, OutputAt(c, run, ss, k), c.fan.minRpm, c.fan.maxRpm)
             == Adapter.ForcedMinimum
    ensures Budget(c, run, i + 1, k + 1) + 1.0 > 0.05 * (c.fan.maxRpm - c.fan.minRpm)
  {
    FallsSlowly(c, run, ss, i, k);
  }
}
