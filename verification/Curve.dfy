/** src/control/curve.rs: the piecewise-linear fan curve. */
module Curve {
  import opened Floats

  datatype Breakpoint = Breakpoint(temp: real, rpm: nat)

  // ---- specification -----------------------------------------------------------------

  // The first breakpoint from `i` on that is at least as hot as `temp`.
  function SegmentEnd(bps: seq<Breakpoint>, temp: real, i: nat): (j: nat)
    requires i <= |bps|
    ensures i <= j <= |bps|
    ensures forall k :: i <= k < j ==> bps[k].temp < temp
    ensures j < |bps| ==> temp <= bps[j].temp
    decreases |bps| - i
  {
    if i == |bps| || temp <= bps[i].temp then i else SegmentEnd(bps, temp, i + 1)
  }

  function Interpolate(lo: Breakpoint, hi: Breakpoint, temp: real): real {
    var dt := hi.temp - lo.temp;
    if Abs(dt) < EPSILON then lo.rpm as real
    else
      var t := (temp - lo.temp) / dt;
      (1.0 - t) * lo.rpm as real + t * hi.rpm as real
  }

  function CurveAt(bps: seq<Breakpoint>, temp: real): real {
    if |bps| == 0 then 0.0
    else if |bps| == 1 || temp <= bps[0].temp then bps[0].rpm as real
    else if temp >= bps[|bps| - 1].temp then bps[|bps| - 1].rpm as real
    else
      var i := SegmentEnd(bps, temp, 1);
      Interpolate(bps[i - 1], bps[i], temp)
  }

  // ---- the source's loop -------------------------------------------------------------

  method Evaluate(bps: seq<Breakpoint>, temp: real) returns (rpm: real)
    ensures rpm == CurveAt(bps, temp)
  {
    var len := |bps|;
    if len == 0 {
      return 0.0;
    }
    if len == 1 || temp <= bps[0].temp {
      return bps[0].rpm as real;
    }
    if temp >= bps[len - 1].temp {
      return bps[len - 1].rpm as real;
    }
    var i := 1;
    while i < len
      invariant 1 <= i <= len
      invariant SegmentEnd(bps, temp, 1) == SegmentEnd(bps, temp, i)
    {
      if temp <= bps[i].temp {
        var lo, hi := bps[i - 1], bps[i];
        var dt := hi.temp - lo.temp;
        if Abs(dt) < EPSILON {
          return lo.rpm as real;
        }
        var t := (temp - lo.temp) / dt;
        return (1.0 - t) * lo.rpm as real + t * hi.rpm as real;
      }
      i := i + 1;
    }
    assert false; // the last breakpoint is hotter than `temp`, so the loop has returned
    rpm := 0.0;
  }

  // ---- one segment -------------------------------------------------------------------

  // Where `temp` falls strictly inside the curve, the segment used really contains it:
  // this needs no order on the breakpoints.
  lemma SegmentContains(bps: seq<Breakpoint>, temp: real) returns (i: nat)
    requires |bps| >= 2 && bps[0].temp < temp < bps[|bps| - 1].temp
    ensures i == SegmentEnd(bps, temp, 1) && 1 <= i < |bps|
    ensures bps[i - 1].temp < temp <= bps[i].temp
    ensures CurveAt(bps, temp) == Interpolate(bps[i - 1], bps[i], temp)
  {
    i := SegmentEnd(bps, temp, 1);
  }

  // Interpolation as offset from the cold end: exact algebra used by every lemma below.
  lemma InterpolateOffset(lo: Breakpoint, hi: Breakpoint, temp: real) returns (t: real)
    requires lo.temp <= temp <= hi.temp && lo.temp < hi.temp
    ensures 0.0 <= t <= 1.0
    ensures Interpolate(lo, hi, temp) == lo.rpm as real + t * (hi.rpm as real - lo.rpm as real)
    ensures hi.temp - lo.temp < EPSILON ==> t == 0.0
    ensures hi.temp - lo.temp >= EPSILON ==> t * (hi.temp - lo.temp) == temp - lo.temp
  {
    var dt := hi.temp - lo.temp;
    if dt < EPSILON {
      t := 0.0;
    } else {
      t := (temp - lo.temp) / dt;
      assert t * dt == temp - lo.temp;
      FactorNonNegative(t, dt);
      FactorNonNegative(1.0 - t, dt);
      var a, b := lo.rpm as real, hi.rpm as real;
      assert (1.0 - t) * a + t * b == a + t * (b - a);
    }
  }

  // ---- hull and monotonicity: no hypothesis on the temperatures ------------------------

  // Every value the curve takes lies between the smallest and the largest RPM listed,
  // sorted breakpoints or not.
  lemma CurveInHull(bps: seq<Breakpoint>, temp: real, low: real, high: real)
    requires |bps| > 0
    requires forall i :: 0 <= i < |bps| ==> low <= bps[i].rpm as real <= high
    ensures low <= CurveAt(bps, temp) <= high
  {
    if |bps| >= 2 && bps[0].temp < temp < bps[|bps| - 1].temp {
      var i := SegmentContains(bps, temp);
      InterpolateBetween(bps[i - 1], bps[i], temp, low, high);
    }
  }

  lemma InterpolateBetween(lo: Breakpoint, hi: Breakpoint, temp: real, low: real, high: real)
    requires lo.temp < temp <= hi.temp
    requires low <= lo.rpm as real <= high && low <= hi.rpm as real <= high
    ensures low <= Interpolate(lo, hi, temp) <= high
  {
    var t := InterpolateOffset(lo, hi, temp);
    Blend(t, lo.rpm as real, hi.rpm as real);
  }

  // A point `t` of the way from `x` to `y` lies between them.
  lemma Blend(t: real, x: real, y: real)
    requires 0.0 <= t <= 1.0
    ensures Min(x, y) <= x + t * (y - x) <= Max(x, y)
  {
    FractionOf(t, Abs(y - x));
    if x > y {
      assert t * (y - x) == -(t * (x - y));
    }
  }

  lemma FractionOf(t: real, d: real)
    requires 0.0 <= t <= 1.0 && d >= 0.0
    ensures 0.0 <= t * d <= d
  {
    MulMonotone(d, 0.0, t);
    MulMonotone(d, t, 1.0);
  }

  ghost predicate RpmNonDecreasing(bps: seq<Breakpoint>) {
    forall i, j :: 0 <= i <= j < |bps| ==> bps[i].rpm <= bps[j].rpm
  }

  lemma InterpolateMonotone(lo: Breakpoint, hi: Breakpoint, a: real, b: real)
    requires lo.temp < a <= b <= hi.temp && lo.rpm <= hi.rpm
    ensures Interpolate(lo, hi, a) <= Interpolate(lo, hi, b)
  {
    var s := InterpolateOffset(lo, hi, a);
    var t := InterpolateOffset(lo, hi, b);
    var dt := hi.temp - lo.temp;
    if dt >= EPSILON {
      FractionStep(s, t, dt, a - lo.temp, b - lo.temp);
    }
    MulMonotone(hi.rpm as real - lo.rpm as real, s, t);
  }

  lemma FractionStep(s: real, t: real, dt: real, x: real, y: real)
    requires dt > 0.0 && s * dt == x && t * dt == y && x <= y
    ensures s <= t && (t - s) * dt == y - x
  {
    FactorNonNegative(t - s, dt);
  }

  // A hotter reading never asks for a slower fan, even when temperatures are out of order
  // or closer together than EPSILON.
  lemma CurveMonotone(bps: seq<Breakpoint>, a: real, b: real)
    requires RpmNonDecreasing(bps) && a <= b
    ensures CurveAt(bps, a) <= CurveAt(bps, b)
  {
    if |bps| < 2 {
    } else if a <= bps[0].temp {
      CurveInHull(bps, b, bps[0].rpm as real, bps[|bps| - 1].rpm as real);
    } else if b >= bps[|bps| - 1].temp {
      CurveInHull(bps, a, bps[0].rpm as real, bps[|bps| - 1].rpm as real);
    } else {
      var i := SegmentContains(bps, a);
      var j := SegmentContains(bps, b);
      if i == j {
        InterpolateMonotone(bps[i - 1], bps[i], a, b);
      } else {
        assert i < j;
        InterpolateBetween(bps[i - 1], bps[i], a, bps[i - 1].rpm as real, bps[i].rpm as real);
        InterpolateBetween(bps[j - 1], bps[j], b, bps[j - 1].rpm as real, bps[j].rpm as real);
      }
    }
  }

  // ---- exactness at the breakpoints -----------------------------------------------------

  // Exactly what `validate` enforces on a curve (config/validate.rs:84-120).
  ghost predicate Valid(bps: seq<Breakpoint>) {
    && |bps| >= 2
    && (forall i :: 0 <= i < |bps| ==> bps[i].temp >= 0.0)
    && (forall i, j :: 0 <= i < j < |bps| ==> bps[i].temp < bps[j].temp)
  }

  // The step into breakpoint `i` is narrower than EPSILON and not flat.
  ghost predicate Collapsed(bps: seq<Breakpoint>, i: nat)
    requires 0 < i < |bps|
  {
    bps[i].temp - bps[i - 1].temp < EPSILON && bps[i].rpm != bps[i - 1].rpm
  }

  // The curve passes through breakpoint `k` unless `k` is an inner breakpoint whose step
  // collapsed.
  lemma ExactAtBreakpoint(bps: seq<Breakpoint>, k: nat)
    requires Valid(bps) && k < |bps|
    ensures CurveAt(bps, bps[k].temp) == bps[k].rpm as real
            <==> k == 0 || k == |bps| - 1 || !Collapsed(bps, k)
  {
    if 0 < k < |bps| - 1 {
      var i := SegmentContains(bps, bps[k].temp);
      assert i == k by {
        assert i <= k;
        assert bps[k].temp <= bps[i].temp;
      }
      if !Collapsed(bps, k) {
        InterpolateEnds(bps[k - 1], bps[k]);
      }
    }
  }

  // ---- on the chords ----------------------------------------------------------------------

  lemma Proportion(t: real, d: real, dt: real, x: real)
    requires t * dt == x
    ensures (t * d) * dt == x * d
  {
    assert (t * d) * dt == (t * dt) * d;
  }

  lemma StepIsChord(lo: Breakpoint, hi: Breakpoint, a: real)
    requires lo.temp < a <= hi.temp
    ensures hi.temp - lo.temp < EPSILON ==> Interpolate(lo, hi, a) == lo.rpm as real
    ensures hi.temp - lo.temp >= EPSILON || hi.rpm == lo.rpm ==>
              (Interpolate(lo, hi, a) - lo.rpm as real) * (hi.temp - lo.temp)
              == (a - lo.temp) * (hi.rpm as real - lo.rpm as real)
  {
    if hi.temp - lo.temp >= EPSILON {
      var t := InterpolateOffset(lo, hi, a);
      Proportion(t, hi.rpm as real - lo.rpm as real, hi.temp - lo.temp, a - lo.temp);
    }
  }

  // The whole of an accepted curve: flat before the first breakpoint and after the last, on each step the
  // straight line between its two ends, and on a collapsed step the colder end.
  lemma OnTheChord(bps: seq<Breakpoint>, k: nat, a: real)
    requires Valid(bps) && 0 < k < |bps| && bps[k - 1].temp < a <= bps[k].temp
    ensures a < bps[|bps| - 1].temp && Collapsed(bps, k) ==> CurveAt(bps, a) == bps[k - 1].rpm as real
    ensures !Collapsed(bps, k) ==>
              (CurveAt(bps, a) - bps[k - 1].rpm as real) * (bps[k].temp - bps[k - 1].temp)
              == (a - bps[k - 1].temp) * (bps[k].rpm as real - bps[k - 1].rpm as real)
  {
    hide Interpolate;
    var lo, hi := bps[k - 1], bps[k];
    if a == bps[|bps| - 1].temp {
      assert k == |bps| - 1;
    } else {
      assert bps[0].temp < a by { assert k == 1 || bps[0].temp < lo.temp; }
      assert a < bps[|bps| - 1].temp by { assert k == |bps| - 1 || hi.temp < bps[|bps| - 1].temp; }
      var i := SegmentContains(bps, a);
      assert i == k by {
        assert lo.temp < bps[i].temp;
        assert i <= k;
      }
      StepIsChord(lo, hi, a);
    }
  }

  lemma FlatOutside(bps: seq<Breakpoint>, a: real)
    requires Valid(bps)
    ensures a <= bps[0].temp ==> CurveAt(bps, a) == bps[0].rpm as real
    ensures a >= bps[|bps| - 1].temp ==> CurveAt(bps, a) == bps[|bps| - 1].rpm as real
  {
    assert bps[0].temp < bps[|bps| - 1].temp;
  }

  // ---- Lipschitz continuity -------------------------------------------------------------

  // "From (a, x) to (b, y) the curve moves at most `m` RPM per degree."
  ghost predicate Gentle(m: real, a: real, x: real, b: real, y: real) {
    Abs(y - x) <= m * (b - a)
  }

  lemma GentleChain(m: real, a: real, x: real, b: real, y: real, c: real, z: real)
    requires Gentle(m, a, x, b, y) && Gentle(m, b, y, c, z)
    ensures Gentle(m, a, x, c, z)
  {
    assert m * (b - a) + m * (c - b) == m * (c - a);
  }

  lemma GentleWider(m: real, a: real, x: real, b: real, y: real, a': real, b': real)
    requires m >= 0.0 && Gentle(m, a, x, b, y) && a' <= a && b <= b'
    ensures Gentle(m, a', x, b', y)
  {
    MulMonotone(m, b - a, b' - a');
  }

  // Every step of the curve is at most `m` steep, and none has collapsed.
  ghost predicate Slopes(bps: seq<Breakpoint>, m: real) {
    && m >= 0.0
    && (forall k :: 0 < k < |bps| ==> !Collapsed(bps, k))
    && (forall k :: 0 < k < |bps| ==>
          Gentle(m, bps[k - 1].temp, bps[k - 1].rpm as real, bps[k].temp, bps[k].rpm as real))
  }

  // The steepest segment among the first `n` breakpoints, in RPM per degree.
  function MaxSlope(bps: seq<Breakpoint>, n: nat): (m: real)
    requires 0 < n <= |bps|
    ensures m >= 0.0
  {
    if n == 1 then 0.0
    else Max(MaxSlope(bps, n - 1), SegmentSlope(bps[n - 2], bps[n - 1]))
  }

  // Flat and collapsed steps count as 0.
  function SegmentSlope(lo: Breakpoint, hi: Breakpoint): (m: real)
    ensures m >= 0.0
  {
    if hi.temp - lo.temp < EPSILON then 0.0
    else Abs(hi.rpm as real - lo.rpm as real) / (hi.temp - lo.temp)
  }

  lemma SegmentSlopeBounds(lo: Breakpoint, hi: Breakpoint, m: real)
    requires lo.temp < hi.temp && m >= 0.0 && SegmentSlope(lo, hi) <= m
    requires hi.temp - lo.temp < EPSILON ==> hi.rpm == lo.rpm
    ensures Gentle(m, lo.temp, lo.rpm as real, hi.temp, hi.rpm as real)
  {
    var dt := hi.temp - lo.temp;
    MulMonotone(dt, SegmentSlope(lo, hi), m);
    MulMonotone(dt, 0.0, m);
    if dt >= EPSILON {
      var d := Abs(hi.rpm as real - lo.rpm as real);
      assert d / dt * dt == d;
    }
  }

  lemma {:induction false} MaxSlopeCovers(bps: seq<Breakpoint>, n: nat, k: nat)
    requires 0 < k < n <= |bps|
    ensures SegmentSlope(bps[k - 1], bps[k]) <= MaxSlope(bps, n)
  {
    if k < n - 1 {
      MaxSlopeCovers(bps, n - 1, k);
    }
  }

  lemma MaxSlopeIsASlope(bps: seq<Breakpoint>)
    requires Valid(bps) && forall k :: 0 < k < |bps| ==> !Collapsed(bps, k)
    ensures Slopes(bps, MaxSlope(bps, |bps|))
  {
    var m := MaxSlope(bps, |bps|);
    forall k | 0 < k < |bps|
      ensures Gentle(m, bps[k - 1].temp, bps[k - 1].rpm as real, bps[k].temp, bps[k].rpm as real)
    {
      MaxSlopeCovers(bps, |bps|, k);
      assert !Collapsed(bps, k);
      SegmentSlopeBounds(bps[k - 1], bps[k], m);
    }
  }

  lemma WithinSegment(lo: Breakpoint, hi: Breakpoint, m: real, a: real, b: real)
    requires lo.temp <= a <= b <= hi.temp && lo.temp < hi.temp && m >= 0.0
    requires hi.temp - lo.temp < EPSILON ==> hi.rpm == lo.rpm
    requires Gentle(m, lo.temp, lo.rpm as real, hi.temp, hi.rpm as real)
    ensures Gentle(m, a, Interpolate(lo, hi, a), b, Interpolate(lo, hi, b))
  {
    if hi.temp - lo.temp < EPSILON {
      MulMonotone(m, 0.0, b - a);
    } else {
      var s := InterpolateOffset(lo, hi, a);
      var t := InterpolateOffset(lo, hi, b);
      OnALine(m, hi.rpm as real - lo.rpm as real, lo.temp, lo.rpm as real, hi.temp, s, a, t, b);
    }
  }

  lemma InterpolateEnds(lo: Breakpoint, hi: Breakpoint)
    requires lo.temp < hi.temp
    requires hi.temp - lo.temp < EPSILON ==> hi.rpm == lo.rpm
    ensures Interpolate(lo, hi, lo.temp) == lo.rpm as real
    ensures Interpolate(lo, hi, hi.temp) == hi.rpm as real
  {
    var s := InterpolateOffset(lo, hi, lo.temp);
    var t := InterpolateOffset(lo, hi, hi.temp);
    if hi.temp - lo.temp >= EPSILON {
      ZeroFraction(s, hi.temp - lo.temp);
      ZeroFraction(1.0 - t, hi.temp - lo.temp);
    }
  }

  // Two points `s` and `t` of the way along the line from (a0, x0) to (b0, x0 + d).
  lemma OnALine(m: real, d: real, a0: real, x0: real, b0: real, s: real, a: real, t: real, b: real)
    requires a0 < b0 && a <= b && Gentle(m, a0, x0, b0, x0 + d)
    requires s * (b0 - a0) == a - a0 && t * (b0 - a0) == b - a0
    ensures Gentle(m, a, x0 + s * d, b, x0 + t * d)
  {
    var dt := b0 - a0;
    FractionStep(s, t, dt, a - a0, b - a0);
    ProductDifference(s, t, d);
    GentleStep(m, t - s, d, dt, a, x0 + s * d, b, x0 + t * d);
  }

  lemma ProductDifference(s: real, t: real, d: real)
    ensures (t - s) * d == t * d - s * d
  {
  }

  // A fraction `k` of a gentle step is gentle.
  lemma GentleStep(m: real, k: real, d: real, dt: real, a: real, x: real, b: real, y: real)
    requires k >= 0.0 && Abs(d) <= m * dt
    requires k * dt == b - a && k * d == y - x
    ensures Gentle(m, a, x, b, y)
  {
    ScaledStep(k, d, m, dt);
  }

  lemma ScaledStep(k: real, d: real, m: real, dt: real)
    requires k >= 0.0 && Abs(d) <= m * dt
    ensures Abs(k * d) <= m * (k * dt)
  {
    MulMonotone(k, d, m * dt);
    MulMonotone(k, -(m * dt), d);
    assert k * (m * dt) == m * (k * dt);
    assert k * -(m * dt) == -(k * (m * dt));
  }

  lemma {:induction false} AcrossBreakpoints(bps: seq<Breakpoint>, m: real, i: nat, j: nat)
    requires Slopes(bps, m) && i <= j < |bps|
    ensures Gentle(m, bps[i].temp, bps[i].rpm as real, bps[j].temp, bps[j].rpm as real)
  {
    if i < j {
      AcrossBreakpoints(bps, m, i, j - 1);
      GentleChain(m, bps[i].temp, bps[i].rpm as real,
                  bps[j - 1].temp, bps[j - 1].rpm as real, bps[j].temp, bps[j].rpm as real);
    }
  }

  // Inside the curve: the breakpoint below `a` and the one above it (the same one when `a`
  // is an end of the curve).
  lemma Anchors(bps: seq<Breakpoint>, m: real, a: real) returns (below: nat, above: nat)
    requires Valid(bps) && Slopes(bps, m)
    requires bps[0].temp <= a <= bps[|bps| - 1].temp
    ensures below <= above < |bps| && bps[below].temp <= a <= bps[above].temp
    ensures below == above || (above == below + 1 && bps[below].temp < a < bps[|bps| - 1].temp
            && above == SegmentEnd(bps, a, 1))
    ensures below == above ==> a == bps[below].temp
    ensures Gentle(m, bps[below].temp, bps[below].rpm as real, a, CurveAt(bps, a))
    ensures Gentle(m, a, CurveAt(bps, a), bps[above].temp, bps[above].rpm as real)
  {
    if a == bps[0].temp {
      below, above := 0, 0;
    } else if a == bps[|bps| - 1].temp {
      below, above := |bps| - 1, |bps| - 1;
    } else {
      above := SegmentContains(bps, a);
      below := above - 1;
      assert !Collapsed(bps, above);
      InterpolateEnds(bps[below], bps[above]);
      WithinSegment(bps[below], bps[above], m, bps[below].temp, a);
      WithinSegment(bps[below], bps[above], m, a, bps[above].temp);
    }
  }

  lemma LipschitzInside(bps: seq<Breakpoint>, m: real, a: real, b: real)
    requires Valid(bps) && Slopes(bps, m)
    requires bps[0].temp <= a < b <= bps[|bps| - 1].temp
    ensures Gentle(m, a, CurveAt(bps, a), b, CurveAt(bps, b))
  {
    var i, i' := Anchors(bps, m, a);
    var j, j' := Anchors(bps, m, b);
    if i' <= j {
      AcrossBreakpoints(bps, m, i', j);
      GentleChain(m, a, CurveAt(bps, a), bps[i'].temp, bps[i'].rpm as real,
                  bps[j].temp, bps[j].rpm as real);
      GentleChain(m, a, CurveAt(bps, a), bps[j].temp, bps[j].rpm as real, b, CurveAt(bps, b));
    } else {
      SameSegment(bps, i, i', j, j', a, b);
      var k := SegmentContains(bps, a);
      k := SegmentContains(bps, b);
      assert !Collapsed(bps, i');
      WithinSegment(bps[i], bps[i'], m, a, b);
    }
  }

  lemma SameSegment(bps: seq<Breakpoint>, i: nat, i': nat, j: nat, j': nat, a: real, b: real)
    requires Valid(bps) && i <= i' < |bps| && j <= j' < |bps| && j < i'
    requires bps[i].temp <= a <= bps[i'].temp && bps[j].temp <= b <= bps[j'].temp && a < b
    requires i == i' || (i' == i + 1 && bps[i].temp < a)
    requires j == j' || (j' == j + 1 && bps[j].temp < b)
    requires i == i' ==> a == bps[i].temp
    requires j == j' ==> b == bps[j].temp
    ensures i == j && i' == j' == i + 1
  {
    assert bps[j].temp < bps[i'].temp;
    assert j' <= i';
    assert bps[j'].temp <= bps[i'].temp;
  }

  function ClampTemp(bps: seq<Breakpoint>, temp: real): real
    requires |bps| > 0
  {
    Max(bps[0].temp, Min(temp, bps[|bps| - 1].temp))
  }

  lemma LipschitzClamped(bps: seq<Breakpoint>, m: real, a: real, b: real)
    requires Valid(bps) && Slopes(bps, m) && a <= b
    ensures Gentle(m, a, CurveAt(bps, a), b, CurveAt(bps, b))
  {
    var x, y := ClampTemp(bps, a), ClampTemp(bps, b);
    CurveOfClamped(bps, a);
    CurveOfClamped(bps, b);
    if x < y {
      LipschitzInside(bps, m, x, y);
      GentleWider(m, x, CurveAt(bps, x), y, CurveAt(bps, y), a, b);
    } else {
      GentleFlat(m, a, b, CurveAt(bps, a));
    }
  }

  lemma CurveOfClamped(bps: seq<Breakpoint>, temp: real)
    requires Valid(bps)
    ensures CurveAt(bps, temp) == CurveAt(bps, ClampTemp(bps, temp))
  {
  }

  lemma GentleFlat(m: real, a: real, b: real, x: real)
    requires m >= 0.0 && a <= b
    ensures Gentle(m, a, x, b, x)
  {
    MulMonotone(m, 0.0, b - a);
  }

  // The steepest segment bounds how fast the whole curve can move, across any number of
  // segments and past both ends.
  lemma Lipschitz(bps: seq<Breakpoint>, a: real, b: real)
    requires Valid(bps) && a <= b
    requires forall k :: 0 < k < |bps| ==> !Collapsed(bps, k)
    ensures Gentle(MaxSlope(bps, |bps|), a, CurveAt(bps, a), b, CurveAt(bps, b))
  {
    MaxSlopeIsASlope(bps);
    LipschitzClamped(bps, MaxSlope(bps, |bps|), a, b);
  }

  // ---- exactly when the curve is Lipschitz ----------------------------------------------

  ghost predicate LipschitzWith(bps: seq<Breakpoint>, m: real) {
    m >= 0.0
    && forall a, b :: a <= b ==> Gentle(m, a, CurveAt(bps, a), b, CurveAt(bps, b))
  }

  lemma SmallStep(m: real, gap: real) returns (d: real)
    requires m >= 0.0 && gap > 0.0
    ensures 0.0 < d < gap && m * d < 0.5
  {
    var q := 0.25 / (m + 1.0);
    assert q * (m + 1.0) == 0.25;
    FactorNonNegative(q, m + 1.0);
    d := Min(gap / 2.0, q);
    MulMonotone(m + 1.0, d, q);
    assert m * d + d == (m + 1.0) * d <= (m + 1.0) * q == 0.25;
  }

  lemma SmallForBoth(m: real, s: real, gap: real) returns (d: real)
    requires m >= 0.0 && s >= 0.0 && gap > 0.0
    ensures 0.0 < d < gap && m * d < 0.5 && s * d < 0.5
  {
    var d0 := SmallStep(m, gap);
    d := SmallStep(s, d0);
    var p, q := m * d0, m * d;
    assert q <= p < 0.5 by { MulMonotone(m, d, d0); }
  }

  // A collapsed step holds its colder RPM up to its very end.
  lemma HeldThroughCollapse(bps: seq<Breakpoint>, k: nat, a: real)
    requires Valid(bps) && 0 < k < |bps| && Collapsed(bps, k)
    requires bps[k - 1].temp < a <= bps[k].temp && a < bps[|bps| - 1].temp
    ensures CurveAt(bps, a) == bps[k - 1].rpm as real
  {
    assert bps[0].temp < a by { assert k == 1 || bps[0].temp < bps[k - 1].temp; }
    var i := SegmentContains(bps, a);
    assert i == k by {
      assert bps[k - 1].temp < bps[i].temp;
      assert i <= k;
    }
  }

  lemma Triangle(x: real, y: real, z: real, p: real, q: real)
    requires Abs(y - x) <= p && Abs(y - z) <= q
    ensures Abs(z - x) <= p + q
  {
  }

  lemma FarApart(m: real, s: real, d: real, a: real, x: real, b: real, y: real, z: real)
    requires b - a == d && m * d < 0.5 && s * d < 0.5
    requires Abs(y - z) <= s * d && Abs(z - x) >= 1.0
    ensures !Gentle(m, a, x, b, y)
  {
    if Gentle(m, a, x, b, y) {
      GentleMeans(m, d, a, x, b, y);
      Triangle(x, y, z, m * d, s * d);
    }
  }

  // At the end of the curve: the colder RPM is held and then jumps.
  lemma JumpAtEnd(bps: seq<Breakpoint>, m: real) returns (a: real, b: real)
    requires Valid(bps) && m >= 0.0 && Collapsed(bps, |bps| - 1)
    ensures a <= b && !Gentle(m, a, CurveAt(bps, a), b, CurveAt(bps, b))
  {
    var k := |bps| - 1;
    var d := SmallStep(m, bps[k].temp - bps[k - 1].temp);
    a, b := bps[k].temp - d, bps[k].temp;
    HeldThroughCollapse(bps, k, a);
    FarApart(m, 0.0, d, a, CurveAt(bps, a), b, CurveAt(bps, b), bps[k].rpm as real);
  }

  // Inside the curve: the colder RPM is still held at breakpoint `k`, the hotter one begins
  // immediately after it.
  lemma JumpInside(bps: seq<Breakpoint>, m: real, k: nat) returns (a: real, b: real)
    requires Valid(bps) && m >= 0.0 && 0 < k < |bps| - 1 && Collapsed(bps, k)
    ensures a <= b && !Gentle(m, a, CurveAt(bps, a), b, CurveAt(bps, b))
  {
    var slope, d := StepOff(bps, m, k);
    a, b := bps[k].temp, bps[k].temp + d;
    HeldThroughCollapse(bps, k, a);
    TooSteep(bps, m, slope, k, d, a, b);
  }

  lemma TooSteep(bps: seq<Breakpoint>, m: real, slope: real, k: nat, d: real, a: real, b: real)
    requires 0 < k < |bps| && bps[k].rpm != bps[k - 1].rpm
    requires CurveAt(bps, a) == bps[k - 1].rpm as real
    requires Near(bps, k, slope, d) && m * d < 0.5 && slope * d < 0.5
    requires a == bps[k].temp && b == a + d
    ensures !Gentle(m, a, CurveAt(bps, a), b, CurveAt(bps, b))
  {
    FarApart(m, slope, d, a, CurveAt(bps, a), b, CurveAt(bps, b), bps[k].rpm as real);
  }

  // A step of `d` past breakpoint `k` moves the curve at most `slope * d`.
  ghost predicate Near(bps: seq<Breakpoint>, k: nat, slope: real, d: real)
    requires k < |bps|
  {
    Abs(CurveAt(bps, bps[k].temp + d) - bps[k].rpm as real) <= slope * d
  }

  lemma StepOff(bps: seq<Breakpoint>, m: real, k: nat) returns (slope: real, d: real)
    requires Valid(bps) && k < |bps| - 1 && m >= 0.0
    ensures 0.0 < d < bps[k + 1].temp - bps[k].temp
    ensures m * d < 0.5 && slope * d < 0.5 && Near(bps, k, slope, d)
  {
    slope := SegmentSlope(bps[k], bps[k + 1]);
    d := SmallForBoth(m, slope, bps[k + 1].temp - bps[k].temp);
    AfterBreakpoint(bps, k, bps[k].temp + d, slope, d);
  }

  lemma AfterBreakpoint(bps: seq<Breakpoint>, k: nat, b: real, slope: real, d: real)
    requires Valid(bps) && k < |bps| - 1 && bps[k].temp < b < bps[k + 1].temp
    requires slope == SegmentSlope(bps[k], bps[k + 1]) && d == b - bps[k].temp
    ensures Abs(CurveAt(bps, b) - bps[k].rpm as real) <= slope * d
  {
    assert bps[0].temp < b < bps[|bps| - 1].temp by {
      assert k == 0 || bps[0].temp < bps[k].temp;
      assert k + 1 == |bps| - 1 || bps[k + 1].temp < bps[|bps| - 1].temp;
    }
    var j := SegmentContains(bps, b);
    assert j == k + 1 by {
      assert bps[k].temp < bps[j].temp;
      assert j <= k + 1;
    }
    StartsNear(bps[k], bps[k + 1], b);
    GentleMeans(slope, d, bps[k].temp, bps[k].rpm as real, b, CurveAt(bps, b));
  }

  lemma GentleMeans(m: real, d: real, a: real, x: real, b: real, y: real)
    requires Gentle(m, a, x, b, y) && d == b - a
    ensures Abs(y - x) <= m * d
  {
    assert m * (b - a) == m * d;
  }

  lemma StartsNear(lo: Breakpoint, hi: Breakpoint, b: real)
    requires lo.temp < b <= hi.temp
    ensures Gentle(SegmentSlope(lo, hi), lo.temp, lo.rpm as real, b, Interpolate(lo, hi, b))
  {
    if hi.temp - lo.temp >= EPSILON {
      SegmentSlopeBounds(lo, hi, SegmentSlope(lo, hi));
      InterpolateEnds(lo, hi);
      WithinSegment(lo, hi, SegmentSlope(lo, hi), lo.temp, b);
    }
  }

  // On an accepted curve, some Lipschitz bound exists exactly when no step has collapsed;
  // then the steepest segment is one (lemma Lipschitz).
  lemma LipschitzIff(bps: seq<Breakpoint>)
    requires Valid(bps)
    ensures (exists m :: LipschitzWith(bps, m)) <==> (forall k :: 0 < k < |bps| ==> !Collapsed(bps, k))
  {
    if forall k :: 0 < k < |bps| ==> !Collapsed(bps, k) {
      forall a, b | a <= b
        ensures Gentle(MaxSlope(bps, |bps|), a, CurveAt(bps, a), b, CurveAt(bps, b))
      {
        Lipschitz(bps, a, b);
      }
      assert LipschitzWith(bps, MaxSlope(bps, |bps|));
    } else {
      var k :| 0 < k < |bps| && Collapsed(bps, k);
      forall m ensures !LipschitzWith(bps, m) {
        if m >= 0.0 {
          var a, b;
          if k == |bps| - 1 {
            a, b := JumpAtEnd(bps, m);
          } else {
            a, b := JumpInside(bps, m, k);
          }
        }
      }
    }
  }

  // ---- exactly when the curve is monotone -----------------------------------------------

  // At breakpoint `k` or just after it the curve is within half an RPM of the breakpoint's.
  lemma Probe(bps: seq<Breakpoint>, k: nat) returns (a: real)
    requires Valid(bps) && k < |bps|
    ensures bps[k].temp <= a && (k < |bps| - 1 ==> a < bps[k + 1].temp)
    ensures Abs(CurveAt(bps, a) - bps[k].rpm as real) < 0.5
  {
    if k == |bps| - 1 {
      a := bps[k].temp;
      ExactAtBreakpoint(bps, k);
    } else {
      var slope, d := StepOff(bps, 0.0, k);
      a := bps[k].temp + d;
    }
  }

  // Monotone in temperature exactly when the RPMs are non-decreasing.
  lemma MonotoneIff(bps: seq<Breakpoint>)
    requires Valid(bps)
    ensures RpmNonDecreasing(bps)
            <==> forall a: real, b: real :: a <= b ==> CurveAt(bps, a) <= CurveAt(bps, b)
  {
    if RpmNonDecreasing(bps) {
      forall a: real, b: real | a <= b ensures CurveAt(bps, a) <= CurveAt(bps, b) {
        CurveMonotone(bps, a, b);
      }
    }
    if forall a: real, b: real :: a <= b ==> CurveAt(bps, a) <= CurveAt(bps, b) {
      forall i, j | 0 <= i <= j < |bps| ensures bps[i].rpm <= bps[j].rpm {
        if i < j {
          var a := Probe(bps, i);
          var b := Probe(bps, j);
          assert a < bps[i + 1].temp <= bps[j].temp <= b;
          assert CurveAt(bps, a) <= CurveAt(bps, b);
        }
      }
    }
  }
}
