/** src/config/validate.rs: what a configuration without reported violations guarantees. */
module Validate {
  import opened Floats
  import opened SmcTypes
  import Curve

  datatype FanBinding = FanBinding(index: Byte, sensors: seq<seq<Byte>>, curve: seq<(Float, nat)>,
                                   hysteresisUp: Float, hysteresisDown: Float)

  datatype Config = Config(pollIntervalMs: nat, logLevel: string, fan: seq<FanBinding>)

  datatype Violation =
    | PollInterval(ms: nat)
    | LogLevel(level: string)
    | NoFans
    | DuplicateFanIndex(index: Byte)
    | EmptySensors(fan: Byte)
    | UnknownSensor(name: seq<Byte>)
    | CurveTooShort(fan: Byte, count: nat)
    | NonMonotoneTemp(fan: Byte, bp: nat)
    | HysteresisInverted(fan: Byte)

  // IEEE comparisons: false whenever a NaN is involved.
  predicate Below(a: Float, b: Float) {
    match (a, b)
    case (Finite(x), Finite(y)) => x < y
    case (NegInf, Finite(_)) => true
    case (NegInf, PosInf) => true
    case (Finite(_), PosInf) => true
    case _ => false
  }

  predicate AtMost(a: Float, b: Float) { Below(a, b) || (a == b && a != NaN) }

  predicate Printable(b: Byte) { 0x20 <= b <= 0x7E }

  predicate SensorOk(name: seq<Byte>) { |name| == 4 && forall i :: 0 <= i < 4 ==> Printable(name[i]) }

  predicate PointOk(temp: Float) { temp.Finite? && temp.v >= 0.0 }

  predicate CurveOk(curve: seq<(Float, nat)>) {
    && |curve| >= 2
    && (forall i :: 0 <= i < |curve| ==> PointOk(curve[i].0))
    && (forall i :: 0 < i < |curve| ==> !AtMost(curve[i].0, curve[i - 1].0))
  }

  predicate MarginOk(down: Float) { down == NaN || (down.Finite? && 0.0 <= down.v <= 10.0) }

  predicate FanOk(fan: FanBinding) {
    && fan.sensors != [] && (forall s :: s in fan.sensors ==> SensorOk(s))
    && CurveOk(fan.curve) && MarginOk(fan.hysteresisDown)
  }

  predicate Distinct(fans: seq<FanBinding>) {
    forall i, j :: 0 <= i < j < |fans| ==> fans[i].index != fans[j].index
  }

  predicate ConfigOk(config: Config) {
    && 100 <= config.pollIntervalMs <= 5000
    && config.logLevel in {"error", "warn", "info", "debug"}
    && config.fan != [] && Distinct(config.fan)
    && forall fan :: fan in config.fan ==> FanOk(fan)
  }

  // ---- the source's loops -----------------------------------------------------------------

  method ValidateSensors(fan: FanBinding) returns (errors: seq<Violation>)
    ensures forall v :: v in errors <==>
              (v == EmptySensors(fan.index) && fan.sensors == [])
              || (v.UnknownSensor? && v.name in fan.sensors && !SensorOk(v.name))
  {
    errors := [];
    if fan.sensors == [] {
      errors := errors + [EmptySensors(fan.index)];
    }
    for i := 0 to |fan.sensors|
      invariant forall v :: v in errors <==>
        (v == EmptySensors(fan.index) && fan.sensors == [])
        || (v.UnknownSensor? && v.name in fan.sensors[..i] && !SensorOk(v.name))
    {
      if !SensorOk(fan.sensors[i]) {
        errors := errors + [UnknownSensor(fan.sensors[i])];
      }
    }
  }

  // Breakpoint `k` is not a temperature, or not hotter than the one before.
  predicate BadPoint(curve: seq<(Float, nat)>, k: nat) {
    k < |curve| && (!PointOk(curve[k].0) || (k > 0 && AtMost(curve[k].0, curve[k - 1].0)))
  }

  method ValidateCurve(fan: FanBinding) returns (errors: seq<Violation>)
    ensures forall v :: v in errors <==> v.NonMonotoneTemp? && v.fan == fan.index && BadPoint(fan.curve, v.bp)
  {
    errors := [];
    for i := 0 to |fan.curve|
      invariant forall v :: v in errors <==>
        v.NonMonotoneTemp? && v.fan == fan.index && v.bp < i && BadPoint(fan.curve, v.bp)
    {
      var temp := fan.curve[i].0;
      if !temp.Finite? || Below(temp, Finite(0.0)) {
        errors := errors + [NonMonotoneTemp(fan.index, i)];
      }
      if i > 0 && AtMost(temp, fan.curve[i - 1].0) {
        errors := errors + [NonMonotoneTemp(fan.index, i)];
      }
    }
  }

  // The violations of one fan section. A curve that is too short hides every later one.
  predicate Reports(fan: FanBinding, v: Violation) {
    match v
    case EmptySensors(index) => index == fan.index && fan.sensors == []
    case UnknownSensor(name) => name in fan.sensors && !SensorOk(name)
    case CurveTooShort(index, count) => index == fan.index && count == |fan.curve| < 2
    case NonMonotoneTemp(index, bp) => index == fan.index && |fan.curve| >= 2 && BadPoint(fan.curve, bp)
    case HysteresisInverted(index) => index == fan.index && |fan.curve| >= 2 && !MarginOk(fan.hysteresisDown)
    case _ => false
  }

  method ValidateFan(fan: FanBinding, errors: seq<Violation>) returns (all: seq<Violation>)
    ensures errors <= all
    ensures forall v :: v in all <==> v in errors || Reports(fan, v)
  {
    var sensors := ValidateSensors(fan);
    all := errors + sensors;
    if |fan.curve| < 2 {
      all := all + [CurveTooShort(fan.index, |fan.curve|)];
      return;
    }
    var curve := ValidateCurve(fan);
    all := all + curve;
    if Below(fan.hysteresisDown, Finite(0.0)) || Below(Finite(10.0), fan.hysteresisDown) {
      all := all + [HysteresisInverted(fan.index)];
    }
  }

  // Nothing is reported of a fan section exactly when it is sound.
  lemma SoundFanIff(fan: FanBinding)
    ensures (forall v :: !Reports(fan, v)) <==> FanOk(fan)
  {
    if !FanOk(fan) {
      if fan.sensors == [] {
        assert Reports(fan, EmptySensors(fan.index));
      } else if s :| s in fan.sensors && !SensorOk(s) {
        assert Reports(fan, UnknownSensor(s));
      } else if |fan.curve| < 2 {
        assert Reports(fan, CurveTooShort(fan.index, |fan.curve|));
      } else if k: nat :| BadPoint(fan.curve, k) {
        assert Reports(fan, NonMonotoneTemp(fan.index, k));
      } else {
        SoundCurve(fan.curve);
        assert Reports(fan, HysteresisInverted(fan.index));
      }
    }
  }

  // Of a section with a curve long enough: which sensors, points and margins are reported.
  lemma ReportedWhen(fan: FanBinding)
    requires |fan.curve| >= 2
    ensures forall name :: Reports(fan, UnknownSensor(name)) <==>
              && name in fan.sensors
              && (|name| != 4 || exists b :: b in name && (b < ' ' as nat || b > '~' as nat))
    ensures forall k: nat :: k < |fan.curve| ==> var t := fan.curve[k].0;
              (!t.Finite? || t.v < 0.0 ==> Reports(fan, NonMonotoneTemp(fan.index, k)))
    ensures forall k: nat :: 0 < k < |fan.curve| && fan.curve[k].0.Finite? && fan.curve[k - 1].0.Finite? ==>
              var t, before := fan.curve[k].0.v, fan.curve[k - 1].0.v;
              Reports(fan, NonMonotoneTemp(fan.index, k)) <==> t < 0.0 || t <= before
    ensures fan.hysteresisDown.Finite? ==>
              var d := fan.hysteresisDown.v;
              Reports(fan, HysteresisInverted(fan.index)) <==> d < 0.0 || d > 10.0
  {
    forall name: seq<Byte> ensures SensorOk(name) <==> |name| == 4 && forall b :: b in name ==> Printable(b) {
      assert |name| == 4 && (forall b :: b in name ==> Printable(b)) ==> forall i :: 0 <= i < 4 ==> name[i] in name;
    }
  }

  lemma SoundCurve(curve: seq<(Float, nat)>)
    requires |curve| >= 2 && forall k: nat :: !BadPoint(curve, k)
    ensures CurveOk(curve)
  {
    forall k: nat | k < |curve| ensures PointOk(curve[k].0) && (k > 0 ==> !AtMost(curve[k].0, curve[k - 1].0)) {
      assert !BadPoint(curve, k);
    }
  }

  // What is reported of the general settings, and of indices used more than once.
  predicate ReportsGeneral(config: Config, v: Violation) {
    match v
    case PollInterval(ms) => ms == config.pollIntervalMs && !(100 <= ms <= 5000)
    case LogLevel(level) => level == config.logLevel && level !in {"error", "warn", "info", "debug"}
    case NoFans => config.fan == []
    case _ => false
  }

  ghost predicate Doubled(fans: seq<FanBinding>, x: Byte) {
    exists i, j :: 0 <= i < j < |fans| && fans[i].index == fans[j].index == x
  }

  // Everything that is ever reported.
  ghost predicate Reported(config: Config, v: Violation) {
    || ReportsGeneral(config, v)
    || (v.DuplicateFanIndex? && Doubled(config.fan, v.index))
    || exists fan :: fan in config.fan && Reports(fan, v)
  }

  // A configuration of which nothing is reported is exactly a sound one.
  lemma SoundConfigIff(config: Config)
    ensures (forall v :: !Reported(config, v)) <==> ConfigOk(config)
  {
    forall fan | fan in config.fan ensures FanOk(fan) <==> forall v :: !Reports(fan, v) {
      SoundFanIff(fan);
    }
    if forall v :: !Reported(config, v) {
      assert !Reported(config, PollInterval(config.pollIntervalMs)) && !Reported(config, LogLevel(config.logLevel));
      assert !Reported(config, NoFans);
      forall i, j | 0 <= i < j < |config.fan| ensures config.fan[i].index != config.fan[j].index {
        assert !Reported(config, DuplicateFanIndex(config.fan[i].index));
      }
      forall fan | fan in config.fan ensures FanOk(fan) {
        forall v ensures !Reports(fan, v) {
          assert !Reported(config, v);
        }
      }
    }
  }

  // All violations and no others; none exactly when the configuration is sound.
  method Validate(config: Config) returns (errors: seq<Violation>)
    ensures forall v :: v in errors <==> Reported(config, v)
    ensures errors == [] <==> ConfigOk(config)
  {
    hide Reports, ConfigOk;
    SoundConfigIff(config);
    errors := [];
    if config.pollIntervalMs < 100 || config.pollIntervalMs > 5000 {
      errors := errors + [PollInterval(config.pollIntervalMs)];
    }
    if config.logLevel !in {"error", "warn", "info", "debug"} {
      errors := errors + [LogLevel(config.logLevel)];
    }
    if config.fan == [] {
      errors := errors + [NoFans];
      NoneSurvives(errors, config);
      return;
    }
    var seen: set<Byte> := {};
    for i := 0 to |config.fan|
      invariant forall x :: x in seen <==> exists j :: 0 <= j < i && config.fan[j].index == x
      invariant forall v :: v in errors <==>
        ReportsGeneral(config, v) || (v.DuplicateFanIndex? && Doubled(config.fan[..i], v.index))
    {
      if config.fan[i].index in seen {
        errors := errors + [DuplicateFanIndex(config.fan[i].index)];
      }
      DoubledGrows(config.fan, i);
      seen := seen + {config.fan[i].index};
    }
    assert config.fan[..|config.fan|] == config.fan;
    ghost var doubled := errors;
    for i := 0 to |config.fan|
      invariant forall v :: v in errors <==> v in doubled || exists j :: 0 <= j < i && Reports(config.fan[j], v)
    {
      errors := ValidateFan(config.fan[i], errors);
    }
    NoneSurvives(errors, config);
  }

  lemma NoneSurvives(errors: seq<Violation>, config: Config)
    requires forall v :: v in errors <==> Reported(config, v)
    ensures errors == [] <==> forall v :: !Reported(config, v)
  {
    if errors != [] {
      assert errors[0] in errors;
    }
  }

  // What is wrong with a fan section, each point looked at by itself.
  predicate Wrong(fan: FanBinding, v: Violation) {
    match v
    case EmptySensors(index) => index == fan.index && fan.sensors == []
    case UnknownSensor(name) => name in fan.sensors && !SensorOk(name)
    case CurveTooShort(index, count) => index == fan.index && count == |fan.curve| < 2
    case NonMonotoneTemp(index, bp) => index == fan.index && BadPoint(fan.curve, bp)
    case HysteresisInverted(index) => index == fan.index && !MarginOk(fan.hysteresisDown)
    case _ => false
  }

  // All violations are promised at once. They are all reported exactly if the curve is long enough to be
  // looked at, or neither its point nor the margin is wrong; and nothing else is ever reported.
  lemma AllReportedIff(fan: FanBinding)
    ensures (forall v :: Wrong(fan, v) ==> Reports(fan, v)) <==>
            |fan.curve| >= 2 || (MarginOk(fan.hysteresisDown) && forall k: nat :: !BadPoint(fan.curve, k))
    ensures forall v :: Reports(fan, v) ==> Wrong(fan, v)
  {
    if |fan.curve| < 2 {
      assert Wrong(fan, HysteresisInverted(fan.index)) <==> !MarginOk(fan.hysteresisDown);
      forall k: nat ensures Wrong(fan, NonMonotoneTemp(fan.index, k)) <==> BadPoint(fan.curve, k) {
      }
    }
  }

  // Two sections that keep something to themselves: a bad margin behind a short curve, and a single
  // breakpoint that is no temperature.
  lemma ShortCurveHides(fan: FanBinding)
    requires |fan.curve| < 2
    ensures var bad := fan.(hysteresisDown := Finite(-1.0));
            Wrong(bad, HysteresisInverted(fan.index)) && !Reports(bad, HysteresisInverted(fan.index))
    ensures var bad := fan.(curve := [(NaN, 1000)]);
            Wrong(bad, NonMonotoneTemp(fan.index, 0)) && !Reports(bad, NonMonotoneTemp(fan.index, 0))
  {
  }

  lemma DoubledGrows(fans: seq<FanBinding>, i: nat)
    requires i < |fans|
    ensures forall x :: Doubled(fans[..i + 1], x) <==>
              Doubled(fans[..i], x) || (x == fans[i].index && exists j :: 0 <= j < i && fans[j].index == x)
  {
    var a, b := fans[..i], fans[..i + 1];
    assert forall j :: 0 <= j < i ==> a[j] == b[j] == fans[j];
    forall x ensures Doubled(b, x) <==>
              Doubled(a, x) || (x == fans[i].index && exists j :: 0 <= j < i && fans[j].index == x) {
      if Doubled(a, x) {
        var j, k :| 0 <= j < k < i && a[j].index == a[k].index == x;
        assert b[j].index == b[k].index == x;
      }
      if j :| x == fans[i].index && 0 <= j < i && fans[j].index == x {
        assert b[j].index == b[i].index == x;
      }
    }
  }

  // ---- what the control loop gets ---------------------------------------------------------

  function Temperature(point: (Float, nat)): real {
    if point.0.Finite? then point.0.v else 0.0
  }

  function Breakpoints(curve: seq<(Float, nat)>): (bps: seq<Curve.Breakpoint>)
    ensures |bps| == |curve|
    ensures forall i :: 0 <= i < |curve| ==> bps[i] == Curve.Breakpoint(Temperature(curve[i]), curve[i].1)
  {
    seq(|curve|, i requires 0 <= i < |curve| => Curve.Breakpoint(Temperature(curve[i]), curve[i].1))
  }

  lemma {:induction false} TempsRise(bps: seq<Curve.Breakpoint>, i: nat, j: nat)
    requires i < j < |bps| && forall k :: 0 < k < |bps| ==> bps[k - 1].temp < bps[k].temp
    ensures bps[i].temp < bps[j].temp
  {
    if i < j - 1 {
      TempsRise(bps, i, j - 1);
    }
  }

  // An accepted configuration has curves the evaluator's guarantees apply to.
  lemma AcceptedCurvesValid(config: Config, fan: FanBinding)
    requires ConfigOk(config) && fan in config.fan
    ensures Curve.Valid(Breakpoints(fan.curve))
  {
    var bps := Breakpoints(fan.curve);
    forall k | 0 < k < |bps| ensures bps[k - 1].temp < bps[k].temp {
      assert !AtMost(fan.curve[k].0, fan.curve[k - 1].0);
    }
    forall i, j | 0 <= i < j < |bps| ensures bps[i].temp < bps[j].temp {
      TempsRise(bps, i, j);
    }
  }

  // Both range tests are false of a NaN, so a NaN margin is let through.
  lemma NaNMarginAccepted(fan: FanBinding)
    requires FanOk(fan)
    ensures FanOk(fan.(hysteresisDown := NaN))
  {
  }
}
