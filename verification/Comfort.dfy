/** What the deadband and the ramp limiter guarantee over whole runs of the pipeline:
    no chatter, a bracketed speed, and settling under a steady temperature. */
module Comfort {
  import opened Floats
  import opened ControlLoop
  import Clamp
  import Curve
  import Deadband
  import Fusion
  import Hysteresis
  import Panic
  import Stages

  // ---- no chatter ----------------------------------------------------------------------

  // Event `e` makes the deadband adopt a new speed.
  predicate Emits(c: Config, s: State, e: Event) {
    e.Tick? && !Blind(s, e.x)
    && Hysteresis.Emits(s.hyst, Smoothed(c, s, e.x), c.tuning.up, c.tuning.down)
  }

  function EmitFlags(c: Config, run: seq<Event>, ss: seq<State>): (flags: seq<bool>)
    requires |ss| == |run| + 1
    ensures |flags| == |run|
  {
    seq(|run|, i requires 0 <= i < |run| => Emits(c, ss[i], run[i]))
  }

  // Distance travelled by the smoothed temperature; a reinit moves it for free.
  function Move(s: State, e: Event, s': State): real {
    if e.Tick? then Abs(s'.smoothed - s.smoothed) else 0.0
  }

  function Moves(run: seq<Event>, ss: seq<State>): (moves: seq<real>)
    requires |ss| == |run| + 1
    ensures |moves| == |run|
  {
    seq(|run|, i requires 0 <= i < |run| => Move(ss[i], run[i], ss[i + 1]))
  }

  // How far the temperature has moved since the last emission.
  function Offset(s: State): real {
    Abs(s.smoothed - s.hyst.lastTemp)
  }

  lemma ChatterStep(c: Config, s: State, e: Event, s': State, m: real)
    requires m == Min(c.tuning.up, c.tuning.down) && s' == Step(c, s, e)
    ensures Deadband.Pays(Emits(c, s, e), m, Offset(s), Offset(s'), Move(s, e, s'))
  {
    if e.Tick? && !Blind(s, e.x) {
      var temp := Smoothed(c, s, e.x);
      Hysteresis.DeadbandStep(s.hyst, Curve.CurveAt(c.tuning.curve, temp), s.smoothed, temp,
                              c.tuning.up, c.tuning.down);
    }
  }

  function Offsets(ss: seq<State>): (offsets: seq<real>)
    ensures |offsets| == |ss|
  {
    seq(|ss|, i requires 0 <= i < |ss| => Offset(ss[i]))
  }

  lemma EveryStepPays(c: Config, run: seq<Event>, ss: seq<State>, m: real, i: nat)
    requires Trace(c, run, ss) && i < |run| && m == Min(c.tuning.up, c.tuning.down)
    ensures Deadband.Pays(EmitFlags(c, run, ss)[i], m, Offsets(ss)[i], Offsets(ss)[i + 1],
                          Moves(run, ss)[i])
  {
    assert StepAt(c, run, ss, i);
    ChatterStep(c, ss[i], run[i], ss[i + 1], m);
  }

  // Anti-chatter, from any state and for any mixture of ticks and reinits: the emissions, at
  // the smaller margin `m` each, are paid for by movement of the smoothed temperature.
  lemma AntiChatter(c: Config, run: seq<Event>, ss: seq<State>, k: nat, m: real)
    requires Trace(c, run, ss) && k <= |run| && m == Min(c.tuning.up, c.tuning.down)
    ensures Deadband.Charge(EmitFlags(c, run, ss), m, k) + Offset(ss[k])
            <= Deadband.Sum(Moves(run, ss), k) + Offset(ss[0])
  {
    forall i {:trigger EmitFlags(c, run, ss)[i]} | 0 <= i < |run|
      ensures Deadband.Pays(EmitFlags(c, run, ss)[i], m, Offsets(ss)[i], Offsets(ss)[i + 1],
                            Moves(run, ss)[i])
    {
      EveryStepPays(c, run, ss, m, i);
    }
    Deadband.Law(EmitFlags(c, run, ss), Offsets(ss), Moves(run, ss), m, k);
  }

  // ---- the band itself ------------------------------------------------------------------

  // Tick `k` ran the pipeline, and the smoothed temperature left the band through its top.
  predicate Rises(c: Config, run: seq<Event>, ss: seq<State>, k: nat)
    requires |ss| == |run| + 1 && k < |run|
  {
    Checked(run, ss, k) && ss[k + 1].smoothed > ss[k].hyst.lastTemp + c.tuning.up
  }

  predicate Drops(c: Config, run: seq<Event>, ss: seq<State>, k: nat)
    requires |ss| == |run| + 1 && k < |run|
  {
    Checked(run, ss, k) && ss[k + 1].smoothed < ss[k].hyst.lastTemp - c.tuning.down
  }

  // The smoothed temperature moves towards the reading of the very tick, by alpha of the distance.
  lemma MovesToReading(c: Config, run: seq<Event>, ss: seq<State>, k: nat)
    requires Trace(c, run, ss) && k < |run| && Checked(run, ss, k)
    ensures ss[k + 1].smoothed - ss[k + 1].raw == (1.0 - c.tuning.alpha) * (ss[k].smoothed - ss[k + 1].raw)
  {
    assert StepAt(c, run, ss, k);
    Stages.SmoothError(ss[k].smoothed, ss[k + 1].raw, c.tuning.alpha);
  }

  // A tick changes nothing of the deadband while the smoothed temperature is within `up` above and `down`
  // below the last adopted one; outside it adopts the temperature and what the curve asks for there.
  lemma AdoptsIff(c: Config, run: seq<Event>, ss: seq<State>, k: nat)
    requires Trace(c, run, ss) && k < |run| && run[k].Tick?
    ensures if Rises(c, run, ss, k) || Drops(c, run, ss, k)
            then && ss[k + 1].hyst.lastTemp == ss[k + 1].smoothed
                 && ss[k + 1].hyst.holdRpm == Curve.CurveAt(c.tuning.curve, ss[k + 1].smoothed)
            else ss[k + 1].hyst == ss[k].hyst
  {
    assert StepAt(c, run, ss, k);
  }

  // While the temperature stays in the band around what was adopted at `i`, the deadband is as it was.
  lemma {:induction false} StaysStill(c: Config, run: seq<Event>, ss: seq<State>, i: nat, k: nat)
    requires Trace(c, run, ss) && i <= k <= |run|
    requires forall j :: i <= j < k ==> run[j].Tick?
    requires forall j :: i < j <= k ==>
               ss[i].hyst.lastTemp - c.tuning.down <= ss[j].smoothed <= ss[i].hyst.lastTemp + c.tuning.up
    ensures ss[k].hyst == ss[i].hyst
  {
    if i < k {
      StaysStill(c, run, ss, i, k - 1);
      AdoptsIff(c, run, ss, k - 1);
    }
  }

  function RiseFlags(c: Config, run: seq<Event>, ss: seq<State>): (flags: seq<bool>)
    requires |ss| == |run| + 1
    ensures |flags| == |run|
  {
    seq(|run|, i requires 0 <= i < |run| => Rises(c, run, ss, i))
  }

  function DropFlags(c: Config, run: seq<Event>, ss: seq<State>): (flags: seq<bool>)
    requires |ss| == |run| + 1
    ensures |flags| == |run|
  {
    seq(|run|, i requires 0 <= i < |run| => Drops(c, run, ss, i))
  }

  function Price(c: Config, run: seq<Event>, ss: seq<State>, i: nat): real
    requires |ss| == |run| + 1 && i < |run|
  {
    (if Rises(c, run, ss, i) then c.tuning.up else 0.0) + if Drops(c, run, ss, i) then c.tuning.down else 0.0
  }

  lemma PriceCovered(c: Config, run: seq<Event>, ss: seq<State>, i: nat)
    requires Trace(c, run, ss) && i < |run|
    ensures Price(c, run, ss, i) + Offset(ss[i + 1]) <= Offset(ss[i]) + Move(ss[i], run[i], ss[i + 1])
  {
    assert StepAt(c, run, ss, i);
    if run[i].Tick? {
      AdoptsIff(c, run, ss, i);
      hide Ticked;
    }
  }

  function Prices(c: Config, run: seq<Event>, ss: seq<State>): (prices: seq<real>)
    requires |ss| == |run| + 1
    ensures |prices| == |run|
    ensures forall i {:trigger prices[i]} :: 0 <= i < |run| ==> prices[i] == Price(c, run, ss, i)
  {
    seq(|run|, i requires 0 <= i < |run| => Price(c, run, ss, i))
  }

  lemma PricesCovered(c: Config, run: seq<Event>, ss: seq<State>)
    requires Trace(c, run, ss)
    ensures forall i {:trigger Prices(c, run, ss)[i]} :: 0 <= i < |run| ==>
              Prices(c, run, ss)[i] + Offsets(ss)[i + 1] <= Offsets(ss)[i] + Moves(run, ss)[i]
  {
    forall i {:trigger Prices(c, run, ss)[i]} | 0 <= i < |run|
      ensures Prices(c, run, ss)[i] + Offsets(ss)[i + 1] <= Offsets(ss)[i] + Moves(run, ss)[i]
    {
      PriceCovered(c, run, ss, i);
      assert Offsets(ss)[i] == Offset(ss[i]) && Offsets(ss)[i + 1] == Offset(ss[i + 1]);
      assert Moves(run, ss)[i] == Move(ss[i], run[i], ss[i + 1]);
    }
  }

  // Each direction at its own margin: over any run of ticks and reinits, from any state, upward emissions
  // at `up` and downward ones at `down` are paid for by movement of the smoothed temperature.
  lemma TwoPriceLaw(c: Config, run: seq<Event>, ss: seq<State>, k: nat)
    requires Trace(c, run, ss) && k <= |run|
    ensures Deadband.Bill(RiseFlags(c, run, ss), DropFlags(c, run, ss), c.tuning.up, c.tuning.down, k) + Offset(ss[k])
            <= Deadband.Sum(Moves(run, ss), k) + Offset(ss[0])
  {
    assert Offsets(ss)[k] == Offset(ss[k]) && Offsets(ss)[0] == Offset(ss[0]);
    hide *;
    PricesCovered(c, run, ss);
    Deadband.BillLaw(Prices(c, run, ss), Offsets(ss), Moves(run, ss), k);
    BillIsTwoPrices(c, run, ss, Prices(c, run, ss), k);
  }

  lemma BillIsTwoPrices(c: Config, run: seq<Event>, ss: seq<State>, prices: seq<real>, k: nat)
    requires |ss| == |run| + 1 && k <= |run| == |prices|
    requires forall i {:trigger prices[i]} :: 0 <= i < |run| ==> prices[i] == Price(c, run, ss, i)
    ensures Deadband.Sum(prices, k)
            == Deadband.Bill(RiseFlags(c, run, ss), DropFlags(c, run, ss), c.tuning.up, c.tuning.down, k)
  {
    forall i {:trigger prices[i]} | 0 <= i < |prices|
      ensures prices[i] == (if RiseFlags(c, run, ss)[i] then c.tuning.up else 0.0)
                           + if DropFlags(c, run, ss)[i] then c.tuning.down else 0.0
    {
      assert prices[i] == Price(c, run, ss, i);
    }
    hide RiseFlags, DropFlags, Price, Deadband.Sum, Deadband.Bill;
    Deadband.BillIsCounts(prices, RiseFlags(c, run, ss), DropFlags(c, run, ss), c.tuning.up, c.tuning.down, k);
  }

  // Straight after construction or a reinit the offset is zero: the bound is bare variation.
  lemma FreshOffset(c: Config, s: State, rpm: real, temp: real)
    ensures Offset(Initial(rpm, temp)) == 0.0 && Offset(Reinited(s, rpm, temp)) == 0.0
  {
  }

  // The number of emissions times the smaller margin never exceeds the total variation.
  lemma EmissionsBounded(c: Config, run: seq<Event>, ss: seq<State>, k: nat, m: real)
    requires Trace(c, run, ss) && k <= |run| && m == Min(c.tuning.up, c.tuning.down) && Offset(ss[0]) == 0.0
    ensures Deadband.Count(EmitFlags(c, run, ss), k) as real * m <= Deadband.Sum(Moves(run, ss), k)
  {
    hide Deadband.Charge, Deadband.Count, Deadband.Sum;
    AntiChatter(c, run, ss, k, m);
    assert Offset(ss[k]) >= 0.0;
    Deadband.CountBound(EmitFlags(c, run, ss), m, k, Deadband.Sum(Moves(run, ss), k));
  }

  // ---- the bracket ---------------------------------------------------------------------

  // There has been an emission since the start of the run and since the last reinit.
  predicate Informed(c: Config, run: seq<Event>, ss: seq<State>, k: nat)
    requires |ss| == |run| + 1 && k <= |run|
  {
    k > 0 && !run[k - 1].Reinit?
    && (Emits(c, ss[k - 1], run[k - 1]) || Informed(c, run, ss, k - 1))
  }

  // The held speed is the curve at the last emitted temperature, which is within the margins
  // of the current one.
  ghost predicate OnCurve(t: Tuning, s: State) {
    && s.hyst.holdRpm == Curve.CurveAt(t.curve, s.hyst.lastTemp)
    && s.smoothed - t.up <= s.hyst.lastTemp <= s.smoothed + t.down
  }

  lemma OnCurveStep(c: Config, s: State, x: Sample, s': State)
    requires c.tuning.up >= 0.0 && c.tuning.down >= 0.0 && s' == Ticked(c, s, x)
    requires OnCurve(c.tuning, s) || Emits(c, s, Tick(x))
    ensures OnCurve(c.tuning, s')
  {
    if !Blind(s, x) {
      var temp := Smoothed(c, s, x);
      Hysteresis.InBand(s.hyst, Curve.CurveAt(c.tuning.curve, temp), temp, c.tuning.up, c.tuning.down);
    }
  }

  lemma {:induction false} HeldOnCurve(c: Config, run: seq<Event>, ss: seq<State>, k: nat)
    requires Trace(c, run, ss) && k <= |run| && c.tuning.up >= 0.0 && c.tuning.down >= 0.0
    requires Informed(c, run, ss, k)
    ensures OnCurve(c.tuning, ss[k])
  {
    assert StepAt(c, run, ss, k - 1);
    if !Emits(c, ss[k - 1], run[k - 1]) {
      HeldOnCurve(c, run, ss, k - 1);
    }
    OnCurveStep(c, ss[k - 1], run[k - 1].x, ss[k]);
  }

  // Bracket: with non-decreasing RPMs the held speed is never below what the curve asks for
  // `up` degrees colder, nor above what it asks for `down` degrees hotter.
  lemma Bracket(c: Config, run: seq<Event>, ss: seq<State>, k: nat)
    requires Trace(c, run, ss) && k <= |run| && c.tuning.up >= 0.0 && c.tuning.down >= 0.0
    requires Curve.RpmNonDecreasing(c.tuning.curve) && Informed(c, run, ss, k)
    ensures Bracketed(c.tuning, ss[k])
  {
    HeldOnCurve(c, run, ss, k);
    BracketAt(c.tuning, ss[k]);
  }

  ghost predicate Bracketed(t: Tuning, s: State) {
    Curve.CurveAt(t.curve, s.smoothed - t.up) <= s.hyst.holdRpm
    <= Curve.CurveAt(t.curve, s.smoothed + t.down)
  }

  lemma BracketAt(t: Tuning, s: State)
    requires Curve.RpmNonDecreasing(t.curve) && OnCurve(t, s)
    ensures Bracketed(t, s)
  {
    Curve.CurveMonotone(t.curve, s.smoothed - t.up, s.hyst.lastTemp);
    Curve.CurveMonotone(t.curve, s.hyst.lastTemp, s.smoothed + t.down);
  }

  // ---- settling ------------------------------------------------------------------------

  // Every event is a tick on which all live sensors read `t`.
  ghost predicate SteadyRun(run: seq<Event>, t: real) {
    forall i :: 0 <= i < |run| ==>
      run[i].Tick? && Fusion.Steady(run[i].x.values, run[i].x.dropouts, t)
  }

  lemma SteadyTick(c: Config, s: State, x: Sample, t: real, s': State)
    requires Fusion.Steady(x.values, x.dropouts, t) && s' == Ticked(c, s, x)
    ensures !Blind(s, x) && Raw(c, s, x) == t
    ensures s'.smoothed == Stages.Smooth(s.smoothed, t, c.tuning.alpha)
    ensures s'.slewed == Stages.Limit(s.slewed, s'.hyst.holdRpm, c.tuning.ramp, x.dt)
    ensures !Emits(c, s, Tick(x)) ==> s'.hyst == s.hyst
    ensures t <= c.tuning.panicTemp && !s.latch.latched ==>
              !s'.latch.latched
              && Output(c, s, x) == Clamp.New(Finite(s'.slewed), c.fan.minRpm, c.fan.maxRpm,
                                              c.fan.safeMin) as real
  {
    Fusion.SteadyFuses(x.values, x.dropouts, c.tuning.mode, s.lastGood, t);
    Fusion.SteadyLive(x.values, x.dropouts, t);
    Fusion.LiveNeedsSensor(x.values, x.dropouts);
  }

  function Temps(ss: seq<State>): (xs: seq<real>)
    ensures |xs| == |ss|
  {
    seq(|ss|, i requires 0 <= i < |ss| => ss[i].smoothed)
  }

  lemma TempsAreSmoothed(c: Config, run: seq<Event>, ss: seq<State>, t: real)
    requires Trace(c, run, ss) && SteadyRun(run, t)
    ensures Stages.SmoothsTo(Temps(ss), t, c.tuning.alpha)
  {
    forall i {:trigger Stages.SmoothStep(Temps(ss), t, c.tuning.alpha, i)} | 0 <= i < |run|
      ensures Stages.SmoothStep(Temps(ss), t, c.tuning.alpha, i)
    {
      assert StepAt(c, run, ss, i);
      SteadyTick(c, ss[i], run[i].x, t, ss[i + 1]);
    }
  }

  // The smoothing error is exactly geometric.
  lemma GeometricError(c: Config, run: seq<Event>, ss: seq<State>, t: real, k: nat)
    requires Trace(c, run, ss) && SteadyRun(run, t) && k <= |run|
    ensures ss[k].smoothed - t == Pow(1.0 - c.tuning.alpha, k) * (ss[0].smoothed - t)
  {
    TempsAreSmoothed(c, run, ss, t);
    var xs := Temps(ss);
    assert xs[k] == ss[k].smoothed && xs[0] == ss[0].smoothed;
    Stages.Geometric(xs, t, c.tuning.alpha, k);
  }

  lemma SteadyMoves(run: seq<Event>, ss: seq<State>, t: real)
    requires |ss| == |run| + 1 && SteadyRun(run, t)
    ensures Moves(run, ss) == Stages.Steps(Temps(ss))
  {
    forall i: nat | i < |run| ensures Moves(run, ss)[i] == Stages.Steps(Temps(ss))[i] {
      assert run[i].Tick?;
    }
  }

  // Under a steady reading only finitely many emissions happen, however long the run.
  lemma FewEmissions(c: Config, run: seq<Event>, ss: seq<State>, t: real, k: nat, m: real)
    requires Trace(c, run, ss) && SteadyRun(run, t) && k <= |run| && 0.0 <= c.tuning.alpha <= 1.0
    requires m == Min(c.tuning.up, c.tuning.down)
    ensures Deadband.Charge(EmitFlags(c, run, ss), m, k) <= Abs(ss[0].smoothed - t) + Offset(ss[0])
  {
    AntiChatter(c, run, ss, k, m);
    SteadyMoves(run, ss, t);
    TempsAreSmoothed(c, run, ss, t);
    Stages.Journey(Temps(ss), t, c.tuning.alpha, k);
  }

  // At most |s0 - T| / m emissions, ever.
  lemma EmissionsUnderSteady(c: Config, run: seq<Event>, ss: seq<State>, t: real, k: nat, m: real)
    requires Trace(c, run, ss) && SteadyRun(run, t) && k <= |run| && 0.0 <= c.tuning.alpha <= 1.0
    requires m == Min(c.tuning.up, c.tuning.down) && Offset(ss[0]) == 0.0
    ensures Deadband.Count(EmitFlags(c, run, ss), k) as real * m <= Abs(ss[0].smoothed - t)
  {
    hide Deadband.Charge, Deadband.Count;
    FewEmissions(c, run, ss, t, k, m);
    Deadband.CountBound(EmitFlags(c, run, ss), m, k, Abs(ss[0].smoothed - t));
  }

  // Once the remaining error and the offset together are below the margin, never again.
  lemma NoMoreEmissions(c: Config, run: seq<Event>, ss: seq<State>, t: real, m: real)
    requires Trace(c, run, ss) && SteadyRun(run, t) && 0.0 <= c.tuning.alpha <= 1.0
    requires m == Min(c.tuning.up, c.tuning.down)
    requires Abs(ss[0].smoothed - t) + Offset(ss[0]) < m
    ensures Quiet(c, run, ss)
  {
    FewEmissions(c, run, ss, t, |run|, m);
    Deadband.ChargeNonNegative(EmitFlags(c, run, ss), m, |run|);
    Deadband.TooCheap(EmitFlags(c, run, ss), m, |run|);
    Deadband.CountZero(EmitFlags(c, run, ss), |run|);
    forall i | 0 <= i < |run| ensures !Emits(c, ss[i], run[i]) {
      assert !EmitFlags(c, run, ss)[i];
    }
  }

  // No new speed is adopted anywhere in the run.
  ghost predicate Quiet(c: Config, run: seq<Event>, ss: seq<State>)
    requires |ss| == |run| + 1
  {
    forall i {:trigger Emits(c, ss[i], run[i])} :: 0 <= i < |run| ==> !Emits(c, ss[i], run[i])
  }

  // The ramp is non-negative and time does not run backwards.
  ghost predicate Ramps(c: Config, run: seq<Event>) {
    && c.tuning.ramp >= 0.0
    && (forall i :: 0 <= i < |run| && run[i].Tick? ==> run[i].x.dt >= 0.0)
  }

  function Lengths(run: seq<Event>): (dts: seq<real>)
    ensures |dts| == |run|
  {
    seq(|run|, i requires 0 <= i < |run| => if run[i].Tick? then run[i].x.dt else 0.0)
  }

  lemma {:induction false} HoldUnchanged(c: Config, run: seq<Event>, ss: seq<State>, t: real, k: nat)
    requires Trace(c, run, ss) && SteadyRun(run, t) && k <= |run| && Quiet(c, run, ss)
    ensures ss[k].hyst == ss[0].hyst
  {
    if k > 0 {
      HoldUnchanged(c, run, ss, t, k - 1);
      assert StepAt(c, run, ss, k - 1);
      SteadyTick(c, ss[k - 1], run[k - 1].x, t, ss[k]);
      assert !Emits(c, ss[k - 1], run[k - 1]);
    }
  }

  function Speeds(ss: seq<State>): (ps: seq<real>)
    ensures |ps| == |ss|
  {
    seq(|ss|, i requires 0 <= i < |ss| => ss[i].slewed)
  }

  lemma SpeedsAreLimited(c: Config, run: seq<Event>, ss: seq<State>, t: real, i: nat)
    requires Trace(c, run, ss) && SteadyRun(run, t) && Ramps(c, run) && Quiet(c, run, ss) && i < |run|
    ensures Stages.LimitStep(Speeds(ss), ss[0].hyst.holdRpm, c.tuning.ramp, Lengths(run), i)
  {
    assert StepAt(c, run, ss, i);
    SteadyTick(c, ss[i], run[i].x, t, ss[i + 1]);
    HoldUnchanged(c, run, ss, t, i + 1);
  }

  // Exact ramp-down: while the deadband is quiet, the limited speed is the held one as soon
  // as the ramp's budget covers the gap, and the straight ramp before that.
  lemma RampReaches(c: Config, run: seq<Event>, ss: seq<State>, t: real, k: nat)
    requires Trace(c, run, ss) && SteadyRun(run, t) && Ramps(c, run) && Quiet(c, run, ss)
    requires 0 < k <= |run|
    ensures ss[k].slewed
            == Max(ss[0].hyst.holdRpm,
                   ss[0].slewed - Stages.Budget(c.tuning.ramp, Lengths(run), k))
  {
    var ps, hold, ramp, dts := Speeds(ss), ss[0].hyst.holdRpm, c.tuning.ramp, Lengths(run);
    forall i {:trigger Stages.LimitStep(ps, hold, ramp, dts, i)} | 0 <= i < |run|
      ensures Stages.LimitStep(ps, hold, ramp, dts, i)
    {
      SpeedsAreLimited(c, run, ss, t, i);
    }
    Stages.Ramp(ps, hold, ramp, dts, k);
  }

  // A steady reading at or below the threshold never latches.
  lemma {:induction false} SteadyStaysCalm(c: Config, run: seq<Event>, ss: seq<State>, t: real, k: nat)
    requires Trace(c, run, ss) && SteadyRun(run, t) && t <= c.tuning.panicTemp
    requires !ss[0].latch.latched && k <= |run|
    ensures !ss[k].latch.latched
  {
    if k > 0 {
      SteadyStaysCalm(c, run, ss, t, k - 1);
      assert StepAt(c, run, ss, k - 1);
      SteadyTick(c, ss[k - 1], run[k - 1].x, t, ss[k]);
    }
  }

  // Settling: once the deadband is quiet, from the tick on which the budget covers the gap
  // the pipeline returns the held speed, clamped and rounded, and keeps returning it.
  lemma Settles(c: Config, run: seq<Event>, ss: seq<State>, t: real, k: nat)
    requires Trace(c, run, ss) && SteadyRun(run, t) && Ramps(c, run) && Quiet(c, run, ss)
    requires t <= c.tuning.panicTemp && !ss[0].latch.latched && k < |run|
    requires Stages.Budget(c.tuning.ramp, Lengths(run), k + 1) >= ss[0].slewed - ss[0].hyst.holdRpm
    ensures ss[k + 1].slewed == ss[0].hyst.holdRpm
    ensures OutputAt(c, run, ss, k)
            == Clamp.New(Finite(ss[0].hyst.holdRpm), c.fan.minRpm, c.fan.maxRpm, c.fan.safeMin) as real
  {
    RampReaches(c, run, ss, t, k + 1);
    SteadyStaysCalm(c, run, ss, t, k);
    assert StepAt(c, run, ss, k);
    SteadyTick(c, ss[k], run[k].x, t, ss[k + 1]);
  }

  // With ticks of one length: within ceil(gap / (ramp * min(dt, 1))) ticks.
  lemma SettlesInTime(c: Config, run: seq<Event>, ss: seq<State>, t: real, dt: real, k: nat)
    requires Trace(c, run, ss) && SteadyRun(run, t) && Ramps(c, run) && Quiet(c, run, ss)
    requires t <= c.tuning.panicTemp && !ss[0].latch.latched && k < |run|
    requires forall i :: 0 <= i < |run| ==> Lengths(run)[i] == dt
    requires (k + 1) as real * (c.tuning.ramp * Min(dt, 1.0)) >= ss[0].slewed - ss[0].hyst.holdRpm
    ensures OutputAt(c, run, ss, k)
            == Clamp.New(Finite(ss[0].hyst.holdRpm), c.fan.minRpm, c.fan.maxRpm, c.fan.safeMin) as real
  {
    Stages.ConstantBudget(c.tuning.ramp, Lengths(run), dt, k + 1);
    Settles(c, run, ss, t, k);
  }

  lemma {:induction false} StaysOnCurve(c: Config, run: seq<Event>, ss: seq<State>, t: real, k: nat)
    requires Trace(c, run, ss) && SteadyRun(run, t) && k <= |run|
    requires c.tuning.up >= 0.0 && c.tuning.down >= 0.0 && OnCurve(c.tuning, ss[0])
    ensures OnCurve(c.tuning, ss[k])
  {
    if k > 0 {
      StaysOnCurve(c, run, ss, t, k - 1);
      assert StepAt(c, run, ss, k - 1);
      OnCurveStep(c, ss[k - 1], run[k - 1].x, ss[k]);
    }
  }

  // What the pipeline would hand out if it sat on the curve at temperature `temp`.
  function Served(c: Config, temp: real): nat {
    Clamp.New(Finite(Curve.CurveAt(c.tuning.curve, temp)), c.fan.minRpm, c.fan.maxRpm, c.fan.safeMin)
  }

  lemma ServedBetween(c: Config, s: State)
    requires Bracketed(c.tuning, s) && Clamp.Ordered(c.fan.minRpm, c.fan.maxRpm, c.fan.safeMin)
    ensures Served(c, s.smoothed - c.tuning.up)
            <= Clamp.New(Finite(s.hyst.holdRpm), c.fan.minRpm, c.fan.maxRpm, c.fan.safeMin)
            <= Served(c, s.smoothed + c.tuning.down)
  {
    var curve, fan, hold := c.tuning.curve, c.fan, s.hyst.holdRpm;
    Clamp.ClampMonotone(Curve.CurveAt(curve, s.smoothed - c.tuning.up), hold, fan.minRpm, fan.maxRpm, fan.safeMin);
    Clamp.ClampMonotone(hold, Curve.CurveAt(curve, s.smoothed + c.tuning.down), fan.minRpm, fan.maxRpm, fan.safeMin);
  }

  // End to end: the settled output lies between what the curve asks for `up` degrees colder and `down`
  // degrees hotter than the steady temperature, give or take what smoothing has not yet forgotten.
  lemma SettledBetween(c: Config, run: seq<Event>, ss: seq<State>, t: real, k: nat)
    requires Trace(c, run, ss) && SteadyRun(run, t) && Ramps(c, run) && Quiet(c, run, ss)
    requires t <= c.tuning.panicTemp && !ss[0].latch.latched && k < |run|
    requires Stages.Budget(c.tuning.ramp, Lengths(run), k + 1) >= ss[0].slewed - ss[0].hyst.holdRpm
    requires c.tuning.up >= 0.0 && c.tuning.down >= 0.0 && OnCurve(c.tuning, ss[0])
    requires Curve.RpmNonDecreasing(c.tuning.curve)
    requires Clamp.Ordered(c.fan.minRpm, c.fan.maxRpm, c.fan.safeMin)
    ensures var seen := t + Pow(1.0 - c.tuning.alpha, k + 1) * (ss[0].smoothed - t);
            Served(c, seen - c.tuning.up) as real <= OutputAt(c, run, ss, k)
            <= Served(c, seen + c.tuning.down) as real
  {
    hide Served, Clamp.New, Clamp.Ordered, Curve.CurveAt, Pow, OutputAt, Stages.Budget;
    Settles(c, run, ss, t, k);
    HoldUnchanged(c, run, ss, t, k + 1);
    StaysOnCurve(c, run, ss, t, k + 1);
    BracketAt(c.tuning, ss[k + 1]);
    GeometricError(c, run, ss, t, k + 1);
    assert ss[k + 1].smoothed == t + Pow(1.0 - c.tuning.alpha, k + 1) * (ss[0].smoothed - t);
    ServedBetween(c, ss[k + 1]);
  }
}
