/** src/control/loop.rs: the composed pipeline, one fan, and what holds over every run of it.
    The clock, the tick length, the sensors and the bumpless reinitialisations are free inputs. */
module ControlLoop {
  import opened Floats
  import Adapter
  import Clamp
  import Curve
  import Fusion
  import Hysteresis
  import Panic
  import Stages

  datatype Fan = Fan(minRpm: real, maxRpm: real, safeMin: Option<Float>)

  datatype Tuning = Tuning(
    mode: Fusion.FusionMode,
    curve: seq<Curve.Breakpoint>,
    alpha: real,
    up: real,
    down: real,
    ramp: real,
    panicTemp: real,
    panicHold: nat)

  datatype Config = Config(fan: Fan, tuning: Tuning)

  datatype Sample = Sample(values: seq<Float>, dropouts: seq<bool>, dt: real, now: nat)

  datatype State = State(
    raw: real,
    smoothed: real,
    hyst: Hysteresis.Hyst,
    slewed: real,
    finalTarget: Option<nat>,
    latch: Panic.Latch,
    lastGood: real,
    age: nat)

  // ---- specification on values ---------------------------------------------------------

  function Initial(actualRpm: real, temp: real): State {
    State(temp, temp, Hysteresis.Fresh(actualRpm, temp), actualRpm, None, Panic.FRESH, temp, 0)
  }

  predicate AllDropped(x: Sample) {
    false !in x.dropouts
  }

  lemma AllDroppedIff(x: Sample)
    ensures AllDropped(x) <==> forall i :: 0 <= i < |x.dropouts| ==> x.dropouts[i]
  {
    if i :| 0 <= i < |x.dropouts| && !x.dropouts[i] {
      assert x.dropouts[i] in x.dropouts;
    }
  }

  function Age(s: State, x: Sample): nat {
    if !AllDropped(x) then 0 else if s.age < U32_MAX then s.age + 1 else s.age
  }

  // More than 60 ticks without a live sensor: the pipeline is skipped.
  predicate Blind(s: State, x: Sample) {
    AllDropped(x) && Age(s, x) > 60
  }

  function Raw(c: Config, s: State, x: Sample): real {
    Fusion.Fuse(x.values, x.dropouts, c.tuning.mode, s.lastGood)
  }

  function Smoothed(c: Config, s: State, x: Sample): real {
    Stages.Smooth(s.smoothed, Raw(c, s, x), c.tuning.alpha)
  }

  function NextHyst(c: Config, s: State, x: Sample): Hysteresis.Hyst {
    var temp := Smoothed(c, s, x);
    Hysteresis.Next(s.hyst, Curve.CurveAt(c.tuning.curve, temp), temp, c.tuning.up, c.tuning.down)
  }

  function NextLatch(c: Config, s: State, x: Sample): Panic.Latch {
    Panic.Next(s.latch, Raw(c, s, x), c.tuning.panicTemp, c.tuning.panicHold, x.now)
  }

  function Slewed(c: Config, s: State, x: Sample): real {
    Stages.Limit(s.slewed, NextHyst(c, s, x).holdRpm, c.tuning.ramp, x.dt)
  }

  function Target(c: Config, s: State, x: Sample): nat {
    var rpm := if NextLatch(c, s, x).latched then c.fan.maxRpm else Slewed(c, s, x);
    Clamp.New(Finite(rpm), c.fan.minRpm, c.fan.maxRpm, c.fan.safeMin)
  }

  function Ticked(c: Config, s: State, x: Sample): State {
    var lastGood := if AllDropped(x) then s.lastGood else Raw(c, s, x);
    if Blind(s, x) then
      s.(raw := Raw(c, s, x), age := Age(s, x))
    else
      State(Raw(c, s, x), Smoothed(c, s, x), NextHyst(c, s, x), Slewed(c, s, x),
            Some(Target(c, s, x)), NextLatch(c, s, x), lastGood, Age(s, x))
  }

  function Output(c: Config, s: State, x: Sample): real {
    if Blind(s, x) then c.fan.maxRpm else Target(c, s, x) as real
  }

  function Reinited(s: State, rpm: real, temp: real): State {
    s.(slewed := rpm, smoothed := temp, hyst := Hysteresis.Fresh(rpm, temp))
  }

  // ---- the source's mutable state ------------------------------------------------------

  class FanControlState {
    const fan: Fan
    var driverTempRaw: real
    var driverTempSmoothed: real
    const hysteresis: Hysteresis.HysteresisState
    var slewLimitedRpm: real
    var finalTarget: Option<nat>
    const panicState: Panic.PanicState
    var lastKnownGoodTemp: real
    var lastKnownGoodAgeTicks: nat

    function Value(): State
      reads this, hysteresis, panicState
    {
      State(driverTempRaw, driverTempSmoothed, hysteresis.Value(), slewLimitedRpm, finalTarget,
            panicState.Value(), lastKnownGoodTemp, lastKnownGoodAgeTicks)
    }

    constructor (fan: Fan, initialActualRpm: real, initialTemp: real)
      ensures this.fan == fan && fresh(hysteresis) && fresh(panicState)
      ensures Value() == Initial(initialActualRpm, initialTemp)
    {
      this.fan := fan;
      driverTempRaw, driverTempSmoothed := initialTemp, initialTemp;
      hysteresis := new Hysteresis.HysteresisState(initialActualRpm, initialTemp);
      slewLimitedRpm := initialActualRpm;
      finalTarget := None;
      panicState := new Panic.PanicState();
      lastKnownGoodTemp := initialTemp;
      lastKnownGoodAgeTicks := 0;
    }

    method ReinitBumpless(actualRpm: real, rawTemp: real)
      modifies this, hysteresis
      ensures Value() == Reinited(old(Value()), actualRpm, rawTemp)
    {
      slewLimitedRpm := actualRpm;
      driverTempSmoothed := rawTemp;
      hysteresis.Reinit(actualRpm, rawTemp);
    }

    method Tick(t: Tuning, x: Sample) returns (rpm: real)
      modifies this, hysteresis, panicState
      ensures Value() == Ticked(Config(fan, t), old(Value()), x)
      ensures rpm == Output(Config(fan, t), old(Value()), x)
    {
      driverTempRaw := Fusion.Fuse(x.values, x.dropouts, t.mode, lastKnownGoodTemp);

      var anyValid := false in x.dropouts;
      if anyValid {
        lastKnownGoodTemp := driverTempRaw;
        lastKnownGoodAgeTicks := 0;
      } else {
        lastKnownGoodAgeTicks :=
          if lastKnownGoodAgeTicks < U32_MAX then lastKnownGoodAgeTicks + 1 else lastKnownGoodAgeTicks;
        if lastKnownGoodAgeTicks > 60 {
          return fan.maxRpm;
        }
      }

      driverTempSmoothed := Stages.Smooth(driverTempSmoothed, driverTempRaw, t.alpha);
      var curveRpm := Curve.Evaluate(t.curve, driverTempSmoothed);
      var hystRpm := hysteresis.Apply(curveRpm, driverTempSmoothed, t.up, t.down);
      slewLimitedRpm := Stages.Limit(slewLimitedRpm, hystRpm, t.ramp, x.dt);
      var action := panicState.Check(driverTempRaw, t.panicTemp, t.panicHold, x.now);
      var chosen;
      match action {
        case ForceMax => chosen := fan.maxRpm;
        case Passthrough => chosen := slewLimitedRpm;
      }
      var clamped := Clamp.New(Finite(chosen), fan.minRpm, fan.maxRpm, fan.safeMin);
      finalTarget := Some(clamped);
      rpm := clamped as real;
    }
  }

  // ---- runs ----------------------------------------------------------------------------

  datatype Event = Tick(x: Sample) | Reinit(rpm: real, temp: real)

  function Step(c: Config, s: State, e: Event): State {
    match e
    case Tick(x) => Ticked(c, s, x)
    case Reinit(rpm, temp) => Reinited(s, rpm, temp)
  }

  // The states a run passes through, from `s0` on.
  function States(c: Config, s0: State, run: seq<Event>): (ss: seq<State>)
    ensures |ss| == |run| + 1 && ss[0] == s0 && Trace(c, run, ss)
  {
    if run == [] then [s0]
    else
      var n := |run| - 1;
      var before := States(c, s0, run[..n]);
      var ss := before + [Step(c, before[n], run[n])];
      assert forall i :: 0 <= i < n ==> StepAt(c, run[..n], before, i) ==> StepAt(c, run, ss, i);
      ss
  }

  ghost predicate StepAt(c: Config, run: seq<Event>, ss: seq<State>, i: nat)
    requires |ss| == |run| + 1 && i < |run|
  {
    ss[i + 1] == Step(c, ss[i], run[i])
  }

  // `ss` is what the pipeline passes through when `run` happens to it.
  ghost predicate Trace(c: Config, run: seq<Event>, ss: seq<State>) {
    |ss| == |run| + 1
    && forall i {:trigger StepAt(c, run, ss, i)} :: 0 <= i < |run| ==> StepAt(c, run, ss, i)
  }

  // There is exactly one trace for every start.
  lemma {:induction false} TraceUnique(c: Config, run: seq<Event>, ss: seq<State>, k: nat)
    requires Trace(c, run, ss) && k <= |run|
    ensures ss[k] == States(c, ss[0], run)[k]
  {
    if k > 0 {
      TraceUnique(c, run, ss, k - 1);
      assert StepAt(c, run, ss, k - 1);
      assert StepAt(c, run, States(c, ss[0], run), k - 1);
    }
  }

  // Tick `i` ran the whole pipeline.
  predicate Checked(run: seq<Event>, ss: seq<State>, i: nat)
    requires |ss| == |run| + 1 && i < |run|
  {
    run[i].Tick? && !Blind(ss[i], run[i].x)
  }

  // What tick `i` returns.
  function OutputAt(c: Config, run: seq<Event>, ss: seq<State>, i: nat): real
    requires |ss| == |run| + 1 && i < |run| && run[i].Tick?
  {
    Output(c, ss[i], run[i].x)
  }
}
