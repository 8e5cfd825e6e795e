/** src/smc/types.rs: the bytes of a single-precision number and what they stand for. */
module Singles {
  import opened Floats
  import opened Ring
  import opened SmcTypes

  // The exponent field of a little-endian IEEE 754 single is not all ones.
  predicate IsFinite(q: Quad) {
    !(q[3] % 128 == 127 && q[2] >= 128)
  }

  // Four bytes, most significant first.
  function Joined(a: nat, b: nat, c: nat, d: nat): nat {
    ((a * 256 + b) * 256 + c) * 256 + d
  }

  function BigEndian(bytes: Payload): nat { Joined(bytes[0], bytes[1], bytes[2], bytes[3]) }

  predicate Negative(q: Quad) { q[3] >= 128 }

  function Exponent(q: Quad): nat { (q[3] as int % 128) * 2 + q[2] as int / 128 }

  function Fraction(q: Quad): nat { Joined(0, q[2] % 128, q[1], q[0]) }

  const HIDDEN_BIT: nat := 0x80_0000

  function Doubled(n: nat): (p: nat)
    ensures p >= 1
  {
    if n == 0 then 1 else 2 * Doubled(n - 1)
  }

  // The magnitude in units of the smallest positive single, 2^-149.
  function Units(exponent: nat, fraction: nat): nat {
    if exponent == 0 then fraction else (fraction + HIDDEN_BIT) * Doubled(exponent - 1)
  }

  // 2^149
  const UNITS_PER_ONE: real := 713623846352979940529142984724747568191373312.0

  function UnitsOf(q: Quad): int {
    var n: int := Units(Exponent(q), Fraction(q));
    if Negative(q) then -n else n
  }

  // The value of the four bytes.
  function Decoded(q: Quad): real { UnitsOf(q) as real / UNITS_PER_ONE }

  // ---- when two singles are equal ---------------------------------------------------------

  lemma {:induction false} DoubledGrows(m: nat, n: nat)
    requires m < n
    ensures 2 * Doubled(m) <= Doubled(n)
  {
    if m < n - 1 {
      DoubledGrows(m, n - 1);
    }
  }

  lemma LessTimes(x: nat, y: nat, d: nat)
    requires x < y && d >= 1
    ensures x * d < y * d
  {
    var k := y - x;
    Distributes(x, k, d);
    Distributes(k - 1, 1, d);
  }

  lemma Distributes(x: nat, y: nat, d: nat)
    ensures (x + y) * d == x * d + y * d && x * d >= 0
  {
  }

  lemma UnitsAre(e: nat, f: nat, d: nat)
    requires e > 0 && d == Doubled(e - 1)
    ensures Units(e, f) == f * d + HIDDEN_BIT * d
  {
  }

  // A larger exponent means more units, whatever the fractions.
  lemma ExponentDecides(e: nat, f: nat, e': nat, f': nat)
    requires e < e' && f < HIDDEN_BIT && f' < HIDDEN_BIT
    ensures Units(e, f) < Units(e', f')
  {
    var d' := Doubled(e' - 1);
    UnitsAre(e', f', d');
    assert f' * d' >= 0;
    if e > 0 {
      var d := Doubled(e - 1);
      UnitsAre(e, f, d);
      DoubledGrows(e - 1, e' - 1);
      LessTimes(f, HIDDEN_BIT, d);
    }
  }

  lemma UnitsInjective(e: nat, f: nat, e': nat, f': nat)
    requires f < HIDDEN_BIT && f' < HIDDEN_BIT && Units(e, f) == Units(e', f')
    ensures e == e' && f == f'
  {
    if e < e' {
      ExponentDecides(e, f, e', f');
    } else if e' < e {
      ExponentDecides(e', f', e, f);
    } else if e > 0 {
      var d := Doubled(e - 1);
      UnitsAre(e, f, d);
      UnitsAre(e, f', d);
      if f < f' {
        LessTimes(f, f', d);
      } else if f' < f {
        LessTimes(f', f, d);
      }
    }
  }

  const ZERO: Quad := [0, 0, 0, 0]
  const MINUS_ZERO: Quad := [0, 0, 0, 128]

  lemma TopBytes(q: Quad)
    ensures q[3] as int == (if Negative(q) then 128 else 0) + Exponent(q) / 2
    ensures q[2] as int / 128 == Exponent(q) % 2
  {
  }

  lemma LowBytes(q: Quad)
    ensures q[2] as int % 128 == Fraction(q) / 65536
    ensures q[1] as int == Fraction(q) / 256 % 256 && q[0] as int == Fraction(q) % 256
  {
    var high, mid, low := q[2] as int % 128, q[1] as int, q[0] as int;
    assert Fraction(q) == high * 65536 + mid * 256 + low;
    assert Fraction(q) / 256 == high * 256 + mid;
  }

  lemma BytesAreFields(p: Quad, q: Quad)
    requires Negative(p) == Negative(q) && Exponent(p) == Exponent(q) && Fraction(p) == Fraction(q)
    ensures p == q
  {
    TopBytes(p);
    TopBytes(q);
    LowBytes(p);
    LowBytes(q);
    assert p[0] == q[0] && p[1] == q[1] && p[2] == q[2] && p[3] == q[3];
  }

  lemma SameUnitsSameBytes(p: Quad, q: Quad)
    requires Negative(p) == Negative(q) && UnitsOf(p) == UnitsOf(q)
    ensures p == q
  {
    UnitsInjective(Exponent(p), Fraction(p), Exponent(q), Fraction(q));
    BytesAreFields(p, q);
  }

  lemma ZeroUnits()
    ensures UnitsOf(ZERO) == 0 && UnitsOf(MINUS_ZERO) == 0
  {
    assert Exponent(ZERO) == 0 && Fraction(ZERO) == 0;
    assert Exponent(MINUS_ZERO) == 0 && Fraction(MINUS_ZERO) == 0;
  }

  lemma UnitsEqualIff(p: Quad, q: Quad)
    requires p != q
    ensures UnitsOf(p) == UnitsOf(q) <==> (p == ZERO && q == MINUS_ZERO) || (p == MINUS_ZERO && q == ZERO)
  {
    ZeroUnits();
    if UnitsOf(p) == UnitsOf(q) {
      if Negative(p) == Negative(q) {
        SameUnitsSameBytes(p, q);
      } else {
        assert UnitsOf(p) == 0;
        ZeroFields(p);
        ZeroFields(q);
      }
    }
  }

  // Two different finite singles are equal as numbers exactly if they are the two zeros.
  lemma EqualIff(p: Quad, q: Quad)
    requires IsFinite(p) && IsFinite(q) && p != q
    ensures Decoded(p) == Decoded(q) <==> (p == ZERO && q == MINUS_ZERO) || (p == MINUS_ZERO && q == ZERO)
  {
    UnitsEqualIff(p, q);
  }

  lemma ZeroFields(q: Quad)
    requires Units(Exponent(q), Fraction(q)) == 0
    ensures q == if Negative(q) then MINUS_ZERO else ZERO
  {
    if Exponent(q) > 0 {
      ExponentDecides(0, 0, Exponent(q), Fraction(q));
    }
    BytesAreFields(q, if Negative(q) then MINUS_ZERO else ZERO);
  }

  // ---- the format ---------------------------------------------------------------------------

  // Nothing else decodes like this: positive numbers with the smallest exponents count in units, each next
  // exponent doubles them, the fraction adds that many units each, and the sign bit negates.
  lemma FormatFixed(e: nat, f: nat)
    ensures Units(0, f) == f && Units(1, f) == f + HIDDEN_BIT
    ensures e > 0 ==> Units(e + 1, f) == 2 * Units(e, f)
    ensures e > 0 ==> Units(e, f + 1) == Units(e, f) + Doubled(e - 1)
  {
    if e > 0 {
      var d := Doubled(e - 1);
      UnitsAre(e, f, d);
      UnitsAre(e, f + 1, d);
      UnitsAre(e + 1, f, 2 * d);
      Distributes(f, 1, d);
    }
  }

  lemma {:induction false} Powers(n: nat, k: nat)
    ensures Doubled(n + k) == Doubled(n) * Doubled(k)
  {
    if k > 0 {
      Powers(n, k - 1);
    }
  }

  lemma Sum(m: nat, p: nat, n: nat, q: nat)
    requires Doubled(m) == p && Doubled(n) == q
    ensures Doubled(m + n) == p * q
  {
    Powers(m, n);
  }

  lemma LargePowers()
    ensures Doubled(126) == 85070591730234615865843651857942052864
  {
    assert Doubled(2) == 4;
    hide Doubled;
    Sum(2, 4, 2, 4);
    Sum(4, 16, 4, 16);
    Sum(8, 256, 8, 256);
    Sum(16, 65536, 16, 65536);
    Sum(32, 4294967296, 32, 4294967296);
    Sum(64, 18446744073709551616, 32, 4294967296);
    Sum(96, 79228162514264337593543950336, 16, 65536);
    Sum(112, 5192296858534827628530496329220096, 8, 256);
    Sum(120, 1329227995784915872903807060280344576, 4, 16);
    Sum(124, 21267647932558653966460912964485513216, 2, 4);
  }

  // 1.0, least significant byte first.
  lemma One(q: Quad)
    requires q == [0x00, 0x00, 0x80, 0x3F]
    ensures Decoded(q) == 1.0
  {
    LargePowers();
    hide Doubled;
    assert Exponent(q) == 127 && Fraction(q) == 0;
  }
}
