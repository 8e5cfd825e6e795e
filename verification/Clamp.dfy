/** src/control/state.rs: `ClampedRpm`, the only form in which a target leaves the pipeline. */
module Clamp {
  import opened Floats

  // `env` is the parsed value of FAND_SAFE_MIN_RPM; None when unset or not a number.
  function EffectiveMin(hardwareMin: real, env: Option<Float>): (m: real)
    ensures m >= hardwareMin && (m == hardwareMin || env == Some(Finite(m)))
    ensures env.Some? && env.value.Finite? ==> m >= env.value.v
  {
    match env
    case Some(Finite(safe)) => if safe > hardwareMin then safe else hardwareMin
    case _ => hardwareMin
  }

  function ClampRaw(raw: Float, min: real, max: real): real {
    match raw
    case Finite(x) => if x < min then min else if x > max then max else x
    case _ => min
  }

  function New(raw: Float, min: real, max: real, env: Option<Float>): nat {
    RoundU32(ClampRaw(raw, EffectiveMin(min, env), max))
  }

  // ---- what comes out ---------------------------------------------------------------------

  // `n` is the whole RPM nearest `x`, as far as 32 bits go.
  ghost predicate Nearest(x: real, n: nat) {
    && (x < 0.0 ==> n == 0)
    && (0.0 <= x <= 4294967295.0 ==> x - 0.5 < n as real <= x + 0.5)
    && (x > 4294967295.0 ==> n == 4294967295)
  }

  // A request between the floor and the maximum comes out as it is, to the nearest RPM; one below the
  // floor, or not finite, as the floor; one above the maximum as the maximum.
  lemma ComesOut(raw: Float, min: real, max: real, env: Option<Float>)
    ensures var low := EffectiveMin(min, env);
            && (raw.Finite? && low <= raw.v <= max ==> Nearest(raw.v, New(raw, min, max, env)))
            && (!raw.Finite? || raw.v < low ==> Nearest(low, New(raw, min, max, env)))
            && (raw.Finite? && low <= raw.v && raw.v > max ==> Nearest(max, New(raw, min, max, env)))
  {
  }

  function WasClamped(raw: Float, min: real, max: real, env: Option<Float>): bool {
    match raw
    case Finite(x) => x < EffectiveMin(min, env) || x > max
    case _ => true
  }

  // The notice is printed exactly when clamping changed the request.
  lemma WasClampedIff(raw: Float, min: real, max: real, env: Option<Float>)
    ensures WasClamped(raw, min, max, env)
            <==> !(raw.Finite? && ClampRaw(raw, EffectiveMin(min, env), max) == raw.v)
  {
  }

  // A safe floor above the hardware maximum is accepted by the source. It does no harm
  // exactly as long as both round to the same RPM or are in order.
  ghost predicate Ordered(min: real, max: real, env: Option<Float>) {
    RoundU32(EffectiveMin(min, env)) <= RoundU32(max)
  }

  ghost predicate MonotoneClamp(min: real, max: real, env: Option<Float>) {
    forall x, y :: x <= y ==> New(Finite(x), min, max, env) <= New(Finite(y), min, max, env)
  }

  ghost predicate IdempotentClamp(min: real, max: real, env: Option<Float>) {
    forall raw {:trigger Twice(raw, min, max, env)} ::
      Twice(raw, min, max, env) == New(raw, min, max, env)
  }

  // A target clamped again, as when a decision is fed back to the write boundary.
  function Twice(raw: Float, min: real, max: real, env: Option<Float>): nat {
    New(Finite(New(raw, min, max, env) as real), min, max, env)
  }

  ghost predicate BoundedClamp(min: real, max: real, env: Option<Float>) {
    forall raw :: RoundU32(EffectiveMin(min, env)) <= New(raw, min, max, env) <= RoundU32(max)
  }

  lemma MonotoneIff(min: real, max: real, env: Option<Float>)
    ensures MonotoneClamp(min, max, env) <==> Ordered(min, max, env)
  {
    var low := EffectiveMin(min, env);
    if Ordered(min, max, env) {
      forall x, y | x <= y
        ensures New(Finite(x), min, max, env) <= New(Finite(y), min, max, env)
      {
        ClampMonotone(x, y, min, max, env);
      }
    } else {
      RoundMonotoneContra(low, max);
      assert New(Finite(low - 1.0), min, max, env) == RoundU32(low);
      assert New(Finite(low), min, max, env) == RoundU32(max);
    }
  }

  lemma RoundMonotoneContra(x: real, y: real)
    requires RoundU32(x) > RoundU32(y)
    ensures x > y
  {
    if x <= y { RoundMonotone(x, y); }
  }

  lemma ClampMonotone(x: real, y: real, min: real, max: real, env: Option<Float>)
    requires x <= y && Ordered(min, max, env)
    ensures New(Finite(x), min, max, env) <= New(Finite(y), min, max, env)
  {
    var low := EffectiveMin(min, env);
    var a, b := ClampRaw(Finite(x), low, max), ClampRaw(Finite(y), low, max);
    if a <= b {
      RoundMonotone(a, b);
    } else {
      assert a == low && b == max;
    }
  }

  lemma BoundedIff(min: real, max: real, env: Option<Float>)
    ensures BoundedClamp(min, max, env) <==> Ordered(min, max, env)
  {
    var low := EffectiveMin(min, env);
    if Ordered(min, max, env) {
      forall raw ensures RoundU32(low) <= New(raw, min, max, env) <= RoundU32(max) {
        var x := ClampRaw(raw, low, max);
        if x != low && x != max {
          RoundMonotone(low, x);
          RoundMonotone(x, max);
        }
      }
    } else {
      assert New(NaN, min, max, env) == RoundU32(low);
    }
  }

  lemma IdempotentIff(min: real, max: real, env: Option<Float>)
    ensures IdempotentClamp(min, max, env) <==> Ordered(min, max, env)
  {
    var low := EffectiveMin(min, env);
    if Ordered(min, max, env) {
      forall raw {:trigger Twice(raw, min, max, env)}
        ensures Twice(raw, min, max, env) == New(raw, min, max, env)
      {
        ClampTwice(raw, min, max, env);
      }
    } else {
      RoundMonotoneContra(low, max);
      assert New(Finite(low), min, max, env) == RoundU32(max);
      var once := RoundU32(max);
      assert once as real < low by {
        if once as real >= low {
          RoundMonotone(low, once as real);
          RoundFixesIntegers(once);
        }
      }
      assert Twice(Finite(low), min, max, env) == RoundU32(low);
    }
  }

  // A whole RPM between the rounded bounds is not moved by clamping and rounding.
  lemma StaysPut(rpm: nat, low: real, max: real)
    requires RoundU32(low) <= rpm <= RoundU32(max)
    ensures RoundU32(ClampRaw(Finite(rpm as real), low, max)) == rpm
  {
    RoundFixesIntegers(rpm);
    hide RoundU32;
    if rpm as real < low {
      RoundMonotone(rpm as real, low);
    } else if rpm as real > max {
      RoundMonotone(max, rpm as real);
    }
  }

  lemma ClampTwice(raw: Float, min: real, max: real, env: Option<Float>)
    requires Ordered(min, max, env)
    ensures Twice(raw, min, max, env) == New(raw, min, max, env)
  {
    BoundedIff(min, max, env);
    StaysPut(New(raw, min, max, env), EffectiveMin(min, env), max);
  }

  // Lowering the request by `d` lowers the emitted RPM by less than d + 1.
  lemma ClampDrop(x: real, y: real, d: real, min: real, max: real, env: Option<Float>)
    requires Ordered(min, max, env) && d >= 0.0 && y >= x - d
    ensures New(Finite(y), min, max, env) as real > New(Finite(x), min, max, env) as real - d - 1.0
  {
    var low := EffectiveMin(min, env);
    var a, b := ClampRaw(Finite(x), low, max), ClampRaw(Finite(y), low, max);
    if low <= max {
      assert b >= a - d;
      RoundDrop(a, b, d);
    } else {
      RoundMonotone(max, low);
      assert RoundU32(a) == RoundU32(b) == RoundU32(max);
    }
  }

  lemma RoundDrop(a: real, b: real, d: real)
    requires d >= 0.0 && b >= a - d
    ensures RoundU32(b) as real > RoundU32(a) as real - d - 1.0
  {
    if RoundU32(a) > 0 {
      assert RoundU32(a) as real <= a + 0.5;
      assert RoundU32(b) < U32_MAX ==> RoundU32(b) as real > b - 0.5;
    }
  }
}
