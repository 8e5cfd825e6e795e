/** src/control/ema.rs and src/control/slew.rs: the two stateless smoothing stages. */
module Stages {
  import opened Floats
  import Deadband

  function Smooth(prev: real, raw: real, alpha: real): real {
    alpha * raw + (1.0 - alpha) * prev
  }

  function Limit(prev: real, target: real, ramp: real, dt: real): real {
    if target >= prev then target
    else Max(target, prev - ramp * Min(dt, 1.0))
  }

  // One smoothing step shrinks the error by exactly 1 - alpha, keeping its sign.
  lemma SmoothError(prev: real, raw: real, alpha: real)
    ensures Smooth(prev, raw, alpha) - raw == (1.0 - alpha) * (prev - raw)
  {
  }

  // With a weight in [0, 1] the smoothed value lies between the old value and the reading.
  lemma SmoothBetween(prev: real, raw: real, alpha: real)
    requires 0.0 <= alpha <= 1.0
    ensures Min(prev, raw) <= Smooth(prev, raw, alpha) <= Max(prev, raw)
  {
    SmoothError(prev, raw, alpha);
    if prev >= raw {
      Shrink(1.0 - alpha, prev - raw);
    } else {
      Shrink(1.0 - alpha, raw - prev);
      assert (1.0 - alpha) * (prev - raw) == -((1.0 - alpha) * (raw - prev));
    }
  }

  lemma Shrink(k: real, d: real)
    requires 0.0 <= k <= 1.0 && d >= 0.0
    ensures 0.0 <= k * d <= d
  {
    MulMonotone(d, 0.0, k);
    MulMonotone(d, k, 1.0);
  }

  // Speeding up is immediate; slowing down is limited to ramp * min(dt, 1) per call and
  // never overshoots the target.
  lemma LimitBounds(prev: real, target: real, ramp: real, dt: real)
    requires ramp >= 0.0 && dt >= 0.0
    ensures var r := Limit(prev, target, ramp, dt);
            && r >= prev - ramp * Min(dt, 1.0)
            && target <= r <= Max(prev, target)
  {
    MulMonotone(ramp, 0.0, Min(dt, 1.0));
  }

  // ---- runs of one stage on a constant input ---------------------------------------------

  // Step `i` smooths towards the reading `t`.
  ghost predicate SmoothStep(xs: seq<real>, t: real, alpha: real, i: nat)
    requires i + 1 < |xs|
  {
    xs[i + 1] == Smooth(xs[i], t, alpha)
  }

  ghost predicate SmoothsTo(xs: seq<real>, t: real, alpha: real) {
    forall i {:trigger SmoothStep(xs, t, alpha, i)} :: 0 <= i < |xs| - 1 ==> SmoothStep(xs, t, alpha, i)
  }

  // The error is exactly geometric.
  lemma {:induction false} Geometric(xs: seq<real>, t: real, alpha: real, k: nat)
    requires SmoothsTo(xs, t, alpha) && k < |xs|
    ensures xs[k] - t == Pow(1.0 - alpha, k) * (xs[0] - t)
  {
    if k > 0 {
      Geometric(xs, t, alpha, k - 1);
      assert SmoothStep(xs, t, alpha, k - 1);
      SmoothError(xs[k - 1], t, alpha);
      var q, p, e := 1.0 - alpha, Pow(1.0 - alpha, k - 1), xs[0] - t;
      assert q * (p * e) == (q * p) * e;
    }
  }

  function Steps(xs: seq<real>): (d: seq<real>)
    requires xs != []
    ensures |d| == |xs| - 1
  {
    seq(|xs| - 1, i requires 0 <= i < |xs| - 1 => Abs(xs[i + 1] - xs[i]))
  }

  // The approach is monotone, so the journey and the remaining error make up the initial one.
  lemma {:induction false} Journey(xs: seq<real>, t: real, alpha: real, k: nat)
    requires SmoothsTo(xs, t, alpha) && 0.0 <= alpha <= 1.0 && k < |xs|
    ensures Deadband.Sum(Steps(xs), k) + Abs(xs[k] - t) == Abs(xs[0] - t)
  {
    if k > 0 {
      Journey(xs, t, alpha, k - 1);
      assert SmoothStep(xs, t, alpha, k - 1);
      NoOvershoot(xs[k - 1], t, alpha);
    }
  }

  lemma NoOvershoot(prev: real, t: real, alpha: real)
    requires 0.0 <= alpha <= 1.0
    ensures var x := Smooth(prev, t, alpha);
            Abs(x - prev) + Abs(x - t) == Abs(prev - t)
  {
    SmoothBetween(prev, t, alpha);
  }

  // What the ramp may take off in the first `k` ticks: ramp * min(dt, 1) for each.
  function Budget(ramp: real, dts: seq<real>, k: nat): real
    requires k <= |dts|
  {
    if k == 0 then 0.0 else Budget(ramp, dts, k - 1) + ramp * Min(dts[k - 1], 1.0)
  }

  ghost predicate LimitStep(ps: seq<real>, target: real, ramp: real, dts: seq<real>, i: nat)
    requires i < |dts| && |ps| == |dts| + 1
  {
    dts[i] >= 0.0 && ps[i + 1] == Limit(ps[i], target, ramp, dts[i])
  }

  // Limiting towards a constant target is a straight ramp that stops at the target.
  lemma {:induction false} Ramp(ps: seq<real>, target: real, ramp: real, dts: seq<real>, k: nat)
    requires |ps| == |dts| + 1 && 0 < k <= |dts| && ramp >= 0.0
    requires forall i {:trigger LimitStep(ps, target, ramp, dts, i)} :: 0 <= i < |dts| ==>
               LimitStep(ps, target, ramp, dts, i)
    ensures ps[k] == Max(target, ps[0] - Budget(ramp, dts, k))
  {
    if k > 1 {
      Ramp(ps, target, ramp, dts, k - 1);
    }
    assert LimitStep(ps, target, ramp, dts, k - 1);
    RampStep(target, ps[0], ps[k - 1], Budget(ramp, dts, k - 1), ramp, dts[k - 1]);
  }

  lemma RampStep(target: real, start: real, prev: real, spent: real, ramp: real, dt: real)
    requires ramp >= 0.0 && dt >= 0.0
    requires prev == Max(target, start - spent) || (spent == 0.0 && prev == start)
    ensures Limit(prev, target, ramp, dt) == Max(target, start - (spent + ramp * Min(dt, 1.0)))
  {
    MulMonotone(ramp, 0.0, Min(dt, 1.0));
  }

  // Ticks of one length: the ramp arrives after ceil(gap / (ramp * min(dt, 1))) of them.
  lemma {:induction false} ConstantBudget(ramp: real, dts: seq<real>, dt: real, k: nat)
    requires k <= |dts| && forall i :: 0 <= i < |dts| ==> dts[i] == dt
    ensures Budget(ramp, dts, k) == k as real * (ramp * Min(dt, 1.0))
  {
    if k > 0 {
      ConstantBudget(ramp, dts, dt, k - 1);
      OneMore(k - 1, ramp * Min(dt, 1.0));
    }
  }
}
