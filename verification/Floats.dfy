/** Numbers as the control code sees them. A finite `f32` is a real; the three non-finite
    values appear only where the source tests for them (sensor fusion and clamping). */
module Floats {

  datatype Float = Finite(v: real) | NaN | PosInf | NegInf

  datatype Option<+T> = None | Some(value: T)

  // f32::EPSILON
  const EPSILON: real := 1.0 / 8388608.0

  const U32_MAX: nat := 0xFFFF_FFFF

  function Abs(x: real): real {
    if x < 0.0 then -x else x
  }

  function Min(x: real, y: real): real {
    if x < y then x else y
  }

  function Max(x: real, y: real): real {
    if x < y then y else x
  }

  // `x.round() as u32`: half away from zero, and the cast saturates at both ends.
  function RoundU32(x: real): (n: nat)
    ensures n <= U32_MAX
    ensures 0.0 <= x <= U32_MAX as real ==> x - 0.5 < n as real <= x + 0.5
  {
    if x < 0.0 then 0
    else if (x + 0.5).Floor > U32_MAX then U32_MAX
    else (x + 0.5).Floor
  }

  lemma RoundMonotone(x: real, y: real)
    requires x <= y
    ensures RoundU32(x) <= RoundU32(y)
  {
  }

  lemma RoundFixesIntegers(n: nat)
    requires n <= U32_MAX
    ensures RoundU32(n as real) == n
  {
  }

  lemma MulMonotone(k: real, x: real, y: real)
    requires 0.0 <= k && x <= y
    ensures k * x <= k * y
  {
    assert k * (y - x) >= 0.0;
  }

  lemma FactorNonNegative(k: real, d: real)
    requires d > 0.0 && k * d >= 0.0
    ensures k >= 0.0
  {
    if k < 0.0 {
      MulMonotone(d, k, 0.0);
    }
  }

  lemma ZeroFraction(t: real, dt: real)
    requires dt > 0.0 && t * dt == 0.0
    ensures t == 0.0
  {
    FactorNonNegative(t, dt);
    FactorNonNegative(-t, dt);
  }

  lemma DivisionCancels(n: real, t: real)
    requires n > 0.0
    ensures (n * t) / n == t
  {
    var q := (n * t) / n;
    assert q * n == n * t;
    ZeroFraction(q - t, n);
  }

  lemma OneMore(c: int, g: real)
    ensures (c + 1) as real * g == c as real * g + g
  {
  }

  function Pow(b: real, n: nat): real {
    if n == 0 then 1.0 else b * Pow(b, n - 1)
  }
}
