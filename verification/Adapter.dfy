/** src/control/adapter.rs: the two-threshold switch between forced minimum and auto. */
module Adapter {
  import opened Floats
  import Deadband

  datatype Decision = ForcedMinimum | Auto

  function Engage(min: real, max: real): real { min + (max - min) * 0.05 }

  function Disengage(min: real, max: real): real { min + (max - min) * 0.10 }

  // ---- specification on values ---------------------------------------------------------

  function Next(d: Decision, target: real, min: real, max: real): Decision {
    match d
    case Auto => if target <= Engage(min, max) then ForcedMinimum else Auto
    case ForcedMinimum => if target > Disengage(min, max) then Auto else ForcedMinimum
  }

  class AppleSiliconAdapter {
    var current: Decision

    constructor ()
      ensures current == Auto
    {
      current := Auto;
    }

    method Decide(target: real, min: real, max: real) returns (d: Decision)
      modifies this
      ensures d == current == Next(old(current), target, min, max)
    {
      var range := max - min;
      var engage := min + range * 0.05;
      var disengage := min + range * 0.10;
      current := match current
                 case Auto => (if target <= engage then ForcedMinimum else Auto)
                 case ForcedMinimum => (if target > disengage then Auto else ForcedMinimum);
      d := current;
    }
  }

  // ---- whole runs -----------------------------------------------------------------------

  // The decision after the first `n` targets, starting from Auto.
  function After(targets: seq<real>, min: real, max: real, n: nat): Decision
    requires n <= |targets|
  {
    if n == 0 then Auto else Next(After(targets, min, max, n - 1), targets[n - 1], min, max)
  }

  // Auto gives way at 5 % of the range above the minimum or less, and comes back above 10 %.
  lemma DecidesIff(targets: seq<real>, min: real, max: real, n: nat)
    requires n < |targets|
    ensures var rise, range := targets[n] - min, max - min;
            && (After(targets, min, max, n) == Auto ==>
                  (After(targets, min, max, n + 1) == ForcedMinimum <==> 20.0 * rise <= range))
            && (After(targets, min, max, n) == ForcedMinimum ==>
                  (After(targets, min, max, n + 1) == Auto <==> 10.0 * rise > range))
  {
  }

  // So with limits in order a target above 10 % always means auto, one up to 5 % forced minimum,
  // and one in between leaves things as they are, whatever came before.
  lemma BandDecides(targets: seq<real>, min: real, max: real, n: nat)
    requires n < |targets| && min <= max
    ensures var rise, range := targets[n] - min, max - min;
            After(targets, min, max, n + 1)
            == if 10.0 * rise > range then Auto
               else if 20.0 * rise <= range then ForcedMinimum
               else After(targets, min, max, n)
  {
    DecidesIff(targets, min, max, n);
  }

  // Which calls changed the mode.
  function ChangeFlags(targets: seq<real>, min: real, max: real): (flags: seq<bool>)
    ensures |flags| == |targets|
  {
    seq(|targets|, i requires 0 <= i < |targets| =>
      After(targets, min, max, i + 1) != After(targets, min, max, i))
  }

  function Changes(targets: seq<real>, min: real, max: real, n: nat): nat
    requires n <= |targets|
  {
    Deadband.Count(ChangeFlags(targets, min, max), n)
  }

  // Movement of the target on each call; the first call has nothing to move from.
  function Moves(targets: seq<real>): (moves: seq<real>)
    ensures |moves| == |targets|
  {
    seq(|targets|, i requires 0 <= i < |targets| => Move(targets, i))
  }

  function Move(targets: seq<real>, i: nat): real
    requires i < |targets|
  {
    if i == 0 then 0.0 else Abs(targets[i] - targets[i - 1])
  }

  // How far target `x` is from undoing the change that led to `d`.
  function Slack(d: Decision, x: real, min: real, max: real): real {
    match d
    case ForcedMinimum => Max(0.0, x - Engage(min, max))
    case Auto => Max(0.0, Disengage(min, max) - x)
  }

  lemma SlackStep(d: Decision, prev: real, x: real, min: real, max: real, g: real)
    requires 0.0 <= g <= 0.05 * (max - min)
    ensures Deadband.Pays(Next(d, x, min, max) != d, g,
                          Slack(d, prev, min, max), Slack(Next(d, x, min, max), x, min, max),
                          Abs(x - prev))
  {
  }

  // The reserve after `i` calls: before any change, the width of the band.
  function Reserve(targets: seq<real>, min: real, max: real, g: real, i: nat): real
    requires i <= |targets|
  {
    if i == 0 || Changes(targets, min, max, i) == 0 then g
    else Slack(After(targets, min, max, i), targets[i - 1], min, max)
  }

  lemma ReserveStep(targets: seq<real>, min: real, max: real, g: real, i: nat)
    requires i < |targets| && 0.0 <= g <= 0.05 * (max - min)
    ensures Deadband.Pays(After(targets, min, max, i + 1) != After(targets, min, max, i), g,
                          Reserve(targets, min, max, g, i), Reserve(targets, min, max, g, i + 1),
                          Move(targets, i))
  {
    if Changes(targets, min, max, i) == 0 {
      StillAuto(targets, min, max, i);
    } else {
      SlackStep(After(targets, min, max, i), targets[i - 1], targets[i], min, max, g);
    }
  }

  lemma {:induction false} StillAuto(targets: seq<real>, min: real, max: real, n: nat)
    requires n <= |targets| && Changes(targets, min, max, n) == 0
    ensures After(targets, min, max, n) == Auto
  {
    if n > 0 { StillAuto(targets, min, max, n - 1); }
  }

  // Anti-chatter: apart from the first, every mode change costs 5% of the RPM range (any
  // `g` up to that) in movement of the target, whatever the targets do.
  lemma AntiChatter(targets: seq<real>, min: real, max: real, n: nat, g: real)
    requires n <= |targets| && 0.0 <= g <= 0.05 * (max - min)
    ensures Deadband.Charge(ChangeFlags(targets, min, max), g, n)
            <= g + Deadband.Sum(Moves(targets), n)
  {
    var flags := ChangeFlags(targets, min, max);
    var reserve := seq(|targets| + 1, i requires 0 <= i <= |targets| =>
                       Reserve(targets, min, max, g, i));
    forall i {:trigger flags[i]} | 0 <= i < |targets|
      ensures Deadband.Pays(flags[i], g, reserve[i], reserve[i + 1], Moves(targets)[i])
    {
      ReserveStep(targets, min, max, g, i);
    }
    Deadband.Law(flags, reserve, Moves(targets), g, n);
    ReserveNonNegative(targets, min, max, g, n);
  }

  // (changes - 1) * `g` never exceeds the total variation of the targets, for `g` up to 5 % of the range.
  lemma ChangesBounded(targets: seq<real>, min: real, max: real, n: nat, g: real)
    requires n <= |targets| && 0.0 <= g <= 0.05 * (max - min)
    ensures (Changes(targets, min, max, n) - 1) as real * g <= Deadband.Sum(Moves(targets), n)
  {
    hide Deadband.Charge, Deadband.Count, Deadband.Sum;
    AntiChatter(targets, min, max, n, g);
    Deadband.AllButOneBound(ChangeFlags(targets, min, max), g, n, Deadband.Sum(Moves(targets), n));
  }

  lemma ReserveNonNegative(targets: seq<real>, min: real, max: real, g: real, i: nat)
    requires i <= |targets| && g >= 0.0
    ensures Reserve(targets, min, max, g, i) >= 0.0
  {
  }

  // ---- steady targets -------------------------------------------------------------------

  function Steady(target: real, n: nat): (targets: seq<real>)
    ensures |targets| == n
  {
    seq(n, _ => target)
  }

  // A target that does not lie between swapped thresholds is decided once and for all.
  lemma {:induction false} SteadyRun(target: real, min: real, max: real, n: nat, k: nat)
    requires k <= n && !(Disengage(min, max) < target <= Engage(min, max))
    ensures var engaged := k > 0 && target <= Engage(min, max);
            && After(Steady(target, n), min, max, k) == (if engaged then ForcedMinimum else Auto)
            && Changes(Steady(target, n), min, max, k) == if engaged then 1 else 0
  {
    if k > 0 {
      SteadyRun(target, min, max, n, k - 1);
    }
  }

  lemma Flips(d: Decision, target: real, min: real, max: real)
    requires Disengage(min, max) < target <= Engage(min, max)
    ensures Next(d, target, min, max) != d
  {
  }

  // Between swapped thresholds, which takes max < min, it flips the mode on every call.
  lemma {:induction false} InvertedRangeOscillates(target: real, min: real, max: real, n: nat, k: nat)
    requires k <= n && Disengage(min, max) < target <= Engage(min, max)
    ensures Changes(Steady(target, n), min, max, k) == k
    ensures k < n ==> After(Steady(target, n), min, max, k + 1) != After(Steady(target, n), min, max, k)
  {
    hide Next, Engage, Disengage;
    if k > 0 {
      InvertedRangeOscillates(target, min, max, n, k - 1);
    }
    if k < n {
      Flips(After(Steady(target, n), min, max, k), target, min, max);
    }
  }

  // A steady target changes the mode at most once exactly if it is not caught between the thresholds.
  lemma SteadySettlesIff(target: real, min: real, max: real)
    ensures (forall n: nat :: Changes(Steady(target, n), min, max, n) <= 1)
            <==> !(Disengage(min, max) < target <= Engage(min, max))
  {
    if Disengage(min, max) < target <= Engage(min, max) {
      InvertedRangeOscillates(target, min, max, 2, 2);
    } else {
      forall n: nat ensures Changes(Steady(target, n), min, max, n) <= 1 {
        SteadyRun(target, min, max, n, n);
      }
    }
  }
}
