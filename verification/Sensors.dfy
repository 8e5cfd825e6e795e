/** What the driver temperature is over whole runs: the sensors' while they can be used, and the last one
    that could while they cannot. */
module Sensors {
  import opened Floats
  import opened ControlLoop
  import Fusion

  // The last tick before `k` on which some sensor had not dropped out.
  function LatestLive(run: seq<Event>, k: nat): (latest: Option<nat>)
    requires k <= |run|
    ensures latest.Some? ==> latest.value < k && run[latest.value].Tick? && !AllDropped(run[latest.value].x)
    ensures forall j :: (if latest.Some? then latest.value + 1 else 0) <= j < k && run[j].Tick? ==> AllDropped(run[j].x)
  {
    if k == 0 then None
    else if run[k - 1].Tick? && !AllDropped(run[k - 1].x) then Some(k - 1)
    else LatestLive(run, k - 1)
  }

  // What that tick took for the temperature, or what the run began with.
  function LastGood(run: seq<Event>, ss: seq<State>, k: nat): real
    requires |ss| == |run| + 1 && k <= |run|
  {
    match LatestLive(run, k)
    case Some(i) => ss[i + 1].raw
    case None => ss[0].lastGood
  }

  lemma StepGood(c: Config, s: State, e: Event, s': State)
    requires s' == Step(c, s, e)
    ensures s'.lastGood == if e.Tick? && !AllDropped(e.x) then s'.raw else s.lastGood
    ensures e.Tick? ==> s'.raw == Fusion.Fuse(e.x.values, e.x.dropouts, c.tuning.mode, s.lastGood)
  {
    if e.Tick? {
      assert Blind(s, e.x) ==> AllDropped(e.x);
    }
  }

  // Whatever ticks and reinits lie between, the state remembers the temperature of the latest live tick.
  lemma {:induction false} Remembers(c: Config, run: seq<Event>, ss: seq<State>, k: nat)
    requires Trace(c, run, ss) && k <= |run|
    ensures ss[k].lastGood == LastGood(run, ss, k)
  {
    if k > 0 {
      Remembers(c, run, ss, k - 1);
      assert StepAt(c, run, ss, k - 1);
      StepGood(c, ss[k - 1], run[k - 1], ss[k]);
    }
  }

  // Before any live tick that is the temperature the pipeline was built with.
  lemma FromStart(c: Config, run: seq<Event>, ss: seq<State>, rpm: real, temp: real, k: nat)
    requires Trace(c, run, ss) && k < |run| && ss[0] == Initial(rpm, temp)
    requires LatestLive(run, k) == None && run[k].Tick? && AllDropped(run[k].x)
    ensures ss[k + 1].raw == temp
  {
    Remembers(c, run, ss, k);
    assert StepAt(c, run, ss, k);
    StepGood(c, ss[k], run[k], ss[k + 1]);
    Fusion.LiveNeedsSensor(run[k].x.values, run[k].x.dropouts);
  }

  // The sample can be fused in the mode that is set.
  ghost predicate Usable(c: Config, x: Sample) {
    match c.tuning.mode
    case Hottest => Fusion.UsableMax(x.values, x.dropouts)
    case Mean => Fusion.UsableMean(x.values, x.dropouts)
  }

  // A tick whose sensors have all dropped out, or whose sample is not finite, is driven by the
  // temperature of the latest tick before it with a live sensor.
  lemma UnusableHolds(c: Config, run: seq<Event>, ss: seq<State>, k: nat)
    requires Trace(c, run, ss) && k < |run| && run[k].Tick?
    requires AllDropped(run[k].x) || !Usable(c, run[k].x)
    ensures ss[k + 1].raw == LastGood(run, ss, k)
  {
    var x := run[k].x;
    Remembers(c, run, ss, k);
    assert StepAt(c, run, ss, k);
    StepGood(c, ss[k], run[k], ss[k + 1]);
    hide Ticked, Fusion.Fuse;
    if AllDropped(x) {
      DroppedUnusable(c, x);
    }
    Fusion.HottestWins(x.values, x.dropouts, ss[k].lastGood);
    Fusion.MeanIsMean(x.values, x.dropouts, ss[k].lastGood);
  }

  lemma DroppedUnusable(c: Config, x: Sample)
    requires AllDropped(x)
    ensures !Usable(c, x)
  {
  }

  // A usable sample drives the tick: by its hottest finite live reading, or by the mean of its live ones.
  lemma UsableDrives(c: Config, run: seq<Event>, ss: seq<State>, k: nat)
    requires Trace(c, run, ss) && k < |run| && run[k].Tick? && Usable(c, run[k].x)
    ensures var x, r := run[k].x, ss[k + 1].raw;
            match c.tuning.mode
            case Hottest =>
              && Fusion.ReadAt(x.values, x.dropouts, Finite(r))
              && forall i: nat :: Fusion.LiveAt(x.values, x.dropouts, i) && x.values[i].Finite? ==> x.values[i].v <= r
            case Mean =>
              r * Fusion.LiveCount(x.values, x.dropouts, |x.values|) as real
              == Fusion.LiveSum(x.values, x.dropouts, |x.values|)
  {
    var x := run[k].x;
    assert StepAt(c, run, ss, k);
    StepGood(c, ss[k], run[k], ss[k + 1]);
    hide Ticked, Fusion.Fuse, Fusion.UsableMax, Fusion.UsableMean, Fusion.LiveSum, Fusion.LiveCount;
    match c.tuning.mode {
      case Hottest => Fusion.HottestWins(x.values, x.dropouts, ss[k].lastGood);
      case Mean => Fusion.MeanIsMean(x.values, x.dropouts, ss[k].lastGood);
    }
  }
}
