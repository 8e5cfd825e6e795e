/** src/cli/parse.rs: the strict numeric scanners, over arbitrary byte strings. */
module Parse {
  import opened SmcTypes

  datatype ParseError =
    | Empty | LeadingSign | Whitespace | Underscore | MultipleDots | Exponent | Hex | NonAsciiDigit
    | Overflow | NotFinite | OutOfRange

  datatype Parsed<+T> = Accepted(value: T) | Rejected(reason: ParseError)

  type Text = seq<Byte>

  const DOT: Byte := 0x2E
  const RPM_SANITY_CEILING := 50_000.0
  // From here on a decimal rounds to infinity: 2^128 - 2^103.
  const F32_OVERFLOW: real := 340282356779733661637539395458142568448.0

  predicate IsDigit(b: Byte) { 0x30 <= b <= 0x39 }

  predicate AllDigits(s: Text) { forall i :: 0 <= i < |s| ==> IsDigit(s[i]) }

  // Why a byte that is neither a digit nor a dot is refused.
  function Offence(b: Byte): ParseError {
    if b == 0x2B || b == 0x2D then LeadingSign
    else if b == 0x20 || b == 0x09 || b == 0x0A || b == 0x0D then Whitespace
    else if b == 0x5F then Underscore
    else if b == DOT then MultipleDots
    else if b == 0x65 || b == 0x45 then Exponent
    else if b == 0x78 || b == 0x58 || 0x61 <= b <= 0x66 || 0x41 <= b <= 0x46 then Hex
    else NonAsciiDigit
  }

  // Accepts every string of digits, the empty one included; otherwise the first other byte is blamed.
  method ValidateStrictInteger(s: Text) returns (r: Parsed<()>)
    ensures r.Accepted? <==> forall i :: 0 <= i < |s| ==> '0' as nat <= s[i] <= '9' as nat
    ensures r.Rejected? ==> exists i :: 0 <= i < |s| && AllDigits(s[..i]) && !IsDigit(s[i]) && r.reason == Offence(s[i])
  {
    for i := 0 to |s|
      invariant AllDigits(s[..i])
    {
      if !IsDigit(s[i]) {
        return Rejected(Offence(s[i]));
      }
      assert s[..i + 1] == s[..i] + [s[i]];
    }
    assert s[..|s|] == s;
    r := Accepted(());
  }

  // One dot, at `k`, with digits on both sides and nothing else.
  predicate DotAt(s: Text, k: nat) {
    0 < k < |s| - 1 && s[k] == DOT && forall i :: 0 <= i < |s| && i != k ==> IsDigit(s[i])
  }

  // `digits` or `digits.digits`.
  ghost predicate StrictFloat(s: Text) {
    (s != [] && AllDigits(s)) || exists k: nat :: DotAt(s, k)
  }

  // Digits and dots only.
  predicate Plain(s: Text) { forall i :: 0 <= i < |s| ==> IsDigit(s[i]) || s[i] == DOT }

  // There is a second dot at `i`, and nothing foreign before it.
  predicate SecondDot(s: Text, i: nat) { i < |s| && s[i] == DOT && DOT in s[..i] && Plain(s[..i]) }

  // A leading dot; a second one before any foreign byte; or a trailing one with no foreign byte at all.
  ghost predicate Misdotted(s: Text) {
    || (s != [] && s[0] == DOT)
    || (exists i: nat :: SecondDot(s, i))
    || (s != [] && s[|s| - 1] == DOT && Plain(s))
  }

  // Accepts exactly the strict floats, and the empty string; a dot is blamed exactly if one is misplaced.
  method ValidateStrictFloat(s: Text) returns (r: Parsed<()>)
    ensures r.Accepted? <==> s == [] || StrictFloat(s)
    ensures r == Rejected(MultipleDots) <==> Misdotted(s)
    ensures r.Rejected? ==>
              || r.reason == MultipleDots
              || exists i :: 0 <= i < |s| && !IsDigit(s[i]) && s[i] != DOT && r.reason == Offence(s[i])
                             && forall j :: 0 <= j < i ==> IsDigit(s[j]) || s[j] == DOT
  {
    var dots := 0;
    var lastCharWasDot := false;
    if |s| > 0 && s[0] == DOT {
      return Rejected(MultipleDots);
    }
    ghost var at: nat := 0;
    for i := 0 to |s|
      invariant 0 <= dots <= 1 && (|s| > 0 ==> s[0] != DOT)
      invariant lastCharWasDot <==> i > 0 && s[i - 1] == DOT
      invariant dots == 0 ==> forall j :: 0 <= j < i ==> IsDigit(s[j])
      invariant dots == 1 ==> 0 < at < i && s[at] == DOT && forall j :: 0 <= j < i && j != at ==> IsDigit(s[j])
    {
      if IsDigit(s[i]) {
        lastCharWasDot := false;
      } else if s[i] == DOT {
        dots := dots + 1;
        if dots > 1 {
          assert s[..i][at] == DOT && SecondDot(s, i);
          return Rejected(MultipleDots);
        }
        lastCharWasDot := true;
        at := i;
      } else {
        ForeignFirst(s, i, dots, at);
        return Rejected(Offence(s[i]));
      }
    }
    if lastCharWasDot {
      return Rejected(MultipleDots);
    }
    assert dots == 1 ==> DotAt(s, at);
    OneDotOnly(s, |s|, dots, at);
    r := Accepted(());
  }

  // With at most the one dot at `at` before position `n` there is no second one up to there.
  lemma OneDotOnly(s: Text, n: nat, dots: int, at: nat)
    requires n <= |s| && 0 <= dots <= 1
    requires dots == 0 ==> forall j :: 0 <= j < n ==> IsDigit(s[j])
    requires dots == 1 ==> at < n && forall j :: 0 <= j < n && j != at ==> IsDigit(s[j])
    ensures forall i: nat :: i < n ==> !SecondDot(s, i)
  {
    forall i: nat | i < n && s[i] == DOT ensures DOT !in s[..i] {
      assert forall j :: 0 <= j < i ==> s[..i][j] == s[j] != DOT;
    }
  }

  lemma ForeignFirst(s: Text, n: nat, dots: int, at: nat)
    requires n < |s| && 0 <= dots <= 1 && !IsDigit(s[n]) && s[n] != DOT && s[0] != DOT
    requires dots == 0 ==> forall j :: 0 <= j < n ==> IsDigit(s[j])
    requires dots == 1 ==> at < n && forall j :: 0 <= j < n && j != at ==> IsDigit(s[j])
    ensures !Misdotted(s)
  {
    OneDotOnly(s, n, dots, at);
    forall i: nat | n < i < |s| ensures !Plain(s[..i]) {
      assert s[..i][n] == s[n];
    }
  }

  // ---- values -----------------------------------------------------------------------------

  function Decimal(s: Text): nat
    requires AllDigits(s)
  {
    if s == [] then 0 else Decimal(s[..|s| - 1]) * 10 + (s[|s| - 1] - 0x30)
  }

  function TenTo(n: nat): (p: real)
    ensures p > 0.0
  {
    if n == 0 then 1.0 else 10.0 * TenTo(n - 1)
  }

  // Where the dot is, or the length.
  function DotIndex(s: Text): (k: nat)
    ensures k <= |s| && (k < |s| ==> s[k] == DOT) && forall i :: 0 <= i < k ==> s[i] != DOT
  {
    if s == [] || s[0] == DOT then 0 else 1 + DotIndex(s[1..])
  }

  // The number a strict float denotes.
  function FloatValue(s: Text): real
    requires StrictFloat(s)
  {
    var k := DotIndex(s);
    if k == |s| then Decimal(s) as real
    else Decimal(s[..k]) as real + Decimal(s[k + 1..]) as real / TenTo(|s| - k - 1)
  }

  // Ten times `x`, `n` times over.
  function TenTimes(x: real, n: nat): real {
    if n == 0 then x else 10.0 * TenTimes(x, n - 1)
  }

  lemma OneMoreDigit(s: Text, c: Byte)
    requires AllDigits(s) && IsDigit(c)
    ensures AllDigits(s + [c]) && Decimal(s + [c]) == 10 * Decimal(s) + (c - 0x30)
  {
    assert (s + [c])[..|s|] == s;
  }

  lemma {:induction false} DecimalJoins(a: Text, b: Text)
    requires AllDigits(a) && AllDigits(b)
    ensures AllDigits(a + b) && Decimal(a + b) as real == TenTimes(Decimal(a) as real, |b|) + Decimal(b) as real
    decreases b
  {
    if b == [] {
      assert a + b == a;
    } else {
      var front, last := b[..|b| - 1], b[|b| - 1];
      DecimalJoins(a, front);
      OneMoreDigit(a + front, last);
      OneMoreDigit(front, last);
      assert a + front + [last] == a + b && front + [last] == b;
    }
  }

  lemma {:induction false} TenTimesSum(x: real, y: real, n: nat)
    ensures TenTimes(x + y, n) == TenTimes(x, n) + TenTimes(y, n)
  {
    if n > 0 {
      TenTimesSum(x, y, n - 1);
    }
  }

  lemma {:induction false} TenTimesIs(x: real, n: nat)
    ensures TenTimes(x, n) == x * TenTo(n)
  {
    if n > 0 {
      TenTimesIs(x, n - 1);
      var p := TenTo(n - 1);
      assert 10.0 * (x * p) == x * (10.0 * p);
    }
  }

  lemma Undivided(y: real, n: nat)
    ensures TenTimes(y / TenTo(n), n) == y
  {
    var q := y / TenTo(n);
    assert q * TenTo(n) == y;
    TenTimesIs(q, n);
  }

  lemma SplitsAtDot(s: Text, k: nat)
    requires DotAt(s, k)
    ensures AllDigits(s[..k]) && AllDigits(s[k + 1..])
    ensures FloatValue(s) == Decimal(s[..k]) as real + Decimal(s[k + 1..]) as real / TenTo(|s| - k - 1)
  {
    assert DotIndex(s) == k;
  }

  // Dropping the dot multiplies by ten for each digit behind it.
  lemma FloatMeans(s: Text, k: nat)
    requires DotAt(s, k)
    ensures AllDigits(s[..k] + s[k + 1..])
    ensures TenTimes(FloatValue(s), |s| - k - 1) == Decimal(s[..k] + s[k + 1..]) as real
  {
    SplitsAtDot(s, k);
    var a, b, n := s[..k], s[k + 1..], |s| - k - 1;
    DecimalJoins(a, b);
    hide Decimal, TenTo, TenTimes, FloatValue;
    Undivided(Decimal(b) as real, n);
    TenTimesSum(Decimal(a) as real, Decimal(b) as real / TenTo(n), n);
  }

  // `s.parse::<u8>()` on digits.
  method ParseFanIndex(s: Text) returns (r: Parsed<Byte>)
    ensures r == FanIndex(s)
    ensures r.Accepted? <==> s != [] && AllDigits(s) && Decimal(s) <= 255
  {
    if s == [] {
      return Rejected(Empty);
    }
    var v := ValidateStrictInteger(s);
    if v.Rejected? {
      FirstBlamed(s);
      return Rejected(v.reason);
    }
    r := if Decimal(s) <= 255 then Accepted(Decimal(s)) else Rejected(Overflow);
  }

  function FanIndex(s: Text): Parsed<Byte> {
    if s == [] then Rejected(Empty)
    else if !AllDigits(s) then Rejected(Offence(s[FirstOther(s)]))
    else if Decimal(s) > 255 then Rejected(Overflow)
    else Accepted(Decimal(s))
  }

  function FirstOther(s: Text): (i: nat)
    requires !AllDigits(s)
    ensures i < |s| && !IsDigit(s[i]) && AllDigits(s[..i])
  {
    if !IsDigit(s[0]) then 0
    else
      var i := FirstOther(s[1..]);
      assert s[..i + 1] == [s[0]] + s[1..][..i];
      i + 1
  }

  lemma FirstBlamed(s: Text)
    requires !AllDigits(s)
    ensures forall i :: 0 <= i < |s| && AllDigits(s[..i]) && !IsDigit(s[i]) ==> i == FirstOther(s)
  {
    var k := FirstOther(s);
    assert forall i :: 0 <= i < k ==> IsDigit(s[..k][i]) && s[..k][i] == s[i];
    forall i | k < i < |s| ensures !AllDigits(s[..i]) {
      assert !IsDigit(s[..i][k]);
    }
  }

  // Exact decimals stand in for rounded ones.
  method ParseRpm(s: Text) returns (r: Parsed<real>)
    ensures r.Accepted? <==> StrictFloat(s) && FloatValue(s) <= 50000.0
    ensures StrictFloat(s) && FloatValue(s) > 50000.0 ==>
              r == Rejected(if FloatValue(s) >= F32_OVERFLOW then NotFinite else OutOfRange)
    ensures s == [] ==> r == Rejected(Empty)
    ensures r.Accepted? ==> r.value == FloatValue(s) && r.value >= 0.0
  {
    if s == [] {
      return Rejected(Empty);
    }
    var v := ValidateStrictFloat(s);
    if v.Rejected? {
      return Rejected(v.reason);
    }
    var value := FloatValue(s);
    if value >= F32_OVERFLOW {
      return Rejected(NotFinite);
    }
    FloatNonNegative(s);
    if value < 0.0 || value > RPM_SANITY_CEILING {
      return Rejected(OutOfRange);
    }
    r := Accepted(value);
  }

  lemma FloatNonNegative(s: Text)
    requires StrictFloat(s)
    ensures FloatValue(s) >= 0.0
  {
  }

  // ---- printing ---------------------------------------------------------------------------

  function Print(n: nat): (s: Text)
    ensures s != [] && AllDigits(s)
  {
    if n < 10 then [0x30 + n] else Print(n / 10) + [0x30 + n % 10]
  }

  lemma {:induction false} DecimalOfPrint(n: nat)
    ensures Decimal(Print(n)) == n
  {
    if n >= 10 {
      DecimalOfPrint(n / 10);
      var s := Print(n / 10);
      assert (s + [0x30 + n % 10])[..|s|] == s;
    } else {
      assert Print(n)[..0] == [];
    }
  }

  function Zeros(k: nat): (s: Text)
    ensures |s| == k && AllDigits(s)
  {
    if k == 0 then [] else Zeros(k - 1) + [0x30]
  }

  lemma {:induction false} ZerosAreZero(k: nat)
    ensures Decimal(Zeros(k)) == 0
  {
    if k > 0 {
      ZerosAreZero(k - 1);
      assert Zeros(k)[..k - 1] == Zeros(k - 1);
    }
  }

  lemma {:induction false} ZerosDoNotCount(k: nat, s: Text)
    requires AllDigits(s)
    ensures AllDigits(Zeros(k) + s) && Decimal(Zeros(k) + s) == Decimal(s)
  {
    if s == [] {
      assert Zeros(k) + s == Zeros(k);
      ZerosAreZero(k);
    } else {
      var t := s[..|s| - 1];
      ZerosDoNotCount(k, t);
      assert (Zeros(k) + s)[..k + |s| - 1] == Zeros(k) + t;
    }
  }

  // Parsing undoes printing for every `u8`, and any number of leading zeros is let through,
  // although the documentation of the function says that `00` is rejected.
  lemma FanIndexRoundTrip(n: nat, k: nat)
    ensures FanIndex(Zeros(k) + Print(n)) == if n <= 255 then Accepted(n) else Rejected(Overflow)
  {
    DecimalOfPrint(n);
    ZerosDoNotCount(k, Print(n));
  }

  lemma DoubleZeroAccepted()
    ensures FanIndex([0x30, 0x30]) == Accepted(0)
  {
    FanIndexRoundTrip(0, 1);
    assert Zeros(1) == [0x30] && Zeros(1) + Print(0) == [0x30, 0x30];
  }
}
