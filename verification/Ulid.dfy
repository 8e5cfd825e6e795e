/** src/correlation.rs: the session identifier. Its 26 characters are the base-32 digits of the
    time and of the entropy; the packing loop, its 64-bit shift buffer included, loses nothing. */
module Ulid {
  import opened SmcTypes

  const TWO_64: nat := 0x1_0000_0000_0000_0000
  const TIME_SPAN: nat := 0x4_0000_0000_0000 // 2^50

  // The alphabet, a run of letters at a time: I, L, O and U are left out.
  function Letter(d: nat): char
    requires d < 32
  {
    if d < 10 then '0' + d as char
    else if d < 18 then 'A' + (d - 10) as char
    else if d < 20 then 'J' + (d - 18) as char
    else if d < 22 then 'M' + (d - 20) as char
    else if d < 27 then 'P' + (d - 22) as char
    else 'V' + (d - 27) as char
  }

  lemma AlphabetIsCrockfords(d: nat)
    requires d < 32
    ensures Letter(d) == "0123456789ABCDEFGHJKMNPQRSTVWXYZ"[d]
  {
  }

  lemma AlphabetAscends(i: nat, j: nat)
    requires i < 32 && j < 32
    ensures Letter(i) < Letter(j) <==> i < j
  {
  }

  type Entropy = s: seq<Byte> | |s| == 10 witness [0, 0, 0, 0, 0, 0, 0, 0, 0, 0]

  // ---- positional notation, most significant digit first ----------------------------------

  // The identifier is written in base 32, the entropy it encodes in base 256.
  datatype Base = Base32 | Base256
  {
    function Times(x: nat): nat { if this == Base32 then x * 32 else x * 256 }
    function Over(x: nat): nat { if this == Base32 then x / 32 else x / 256 }
    function Rest(x: nat): nat { if this == Base32 then x % 32 else x % 256 }
    predicate Digit(d: nat) { if this == Base32 then d < 32 else d < 256 }
  }

  function Power(base: Base, n: nat): (p: nat)
    ensures p > 0
  {
    if n == 0 then 1 else base.Times(Power(base, n - 1))
  }

  function Value(base: Base, digits: seq<nat>): nat {
    if digits == [] then 0 else base.Times(Value(base, digits[..|digits| - 1])) + digits[|digits| - 1]
  }

  // The last `n` digits of `v`.
  function Digits(base: Base, v: nat, n: nat): (digits: seq<nat>)
    ensures |digits| == n && InBase(base, digits)
  {
    if n == 0 then [] else Digits(base, base.Over(v), n - 1) + [base.Rest(v)]
  }

  predicate InBase(base: Base, digits: seq<nat>) {
    forall i :: 0 <= i < |digits| ==> base.Digit(digits[i])
  }

  lemma ValueGrows(base: Base, digits: seq<nat>, d: nat)
    ensures Value(base, digits + [d]) == base.Times(Value(base, digits)) + d
  {
    assert (digits + [d])[..|digits|] == digits;
  }

  lemma LastDigit(base: Base, rest: nat, d: nat)
    requires base.Digit(d)
    ensures base.Over(base.Times(rest) + d) == rest && base.Rest(base.Times(rest) + d) == d
  {
  }

  lemma {:induction false} DigitsOfValue(base: Base, digits: seq<nat>)
    requires InBase(base, digits)
    ensures Digits(base, Value(base, digits), |digits|) == digits
  {
    if digits != [] {
      var n := |digits| - 1;
      DigitsOfValue(base, digits[..n]);
      LastDigit(base, Value(base, digits[..n]), digits[n]);
      assert digits == digits[..n] + [digits[n]];
    }
  }

  lemma {:induction false} ValueBelow(base: Base, digits: seq<nat>)
    requires InBase(base, digits)
    ensures Value(base, digits) < Power(base, |digits|)
  {
    if digits != [] {
      ValueBelow(base, digits[..|digits| - 1]);
    }
  }

  lemma {:induction false} ValueOfDigits(base: Base, v: nat, n: nat)
    requires v < Power(base, n)
    ensures Value(base, Digits(base, v, n)) == v
  {
    if n > 0 {
      ValueOfDigits(base, base.Over(v), n - 1);
      ValueGrows(base, Digits(base, base.Over(v), n - 1), base.Rest(v));
    }
  }

  lemma TimesMoves(base: Base, p: nat, q: nat)
    ensures base.Times(p * q) == p * base.Times(q)
  {
    if base == Base32 {
      assert p * (q * 32) == (p * q) * 32;
    } else {
      assert p * (q * 256) == (p * q) * 256;
    }
  }

  lemma Carries(base: Base, v: nat, x: nat)
    ensures base.Over(v + base.Times(x)) == base.Over(v) + x && base.Rest(v + base.Times(x)) == base.Rest(v)
  {
  }

  // Digits beyond the `n`-th do not show.
  lemma {:induction false} DigitsWrap(base: Base, v: nat, k: nat, n: nat)
    ensures Digits(base, v + k * Power(base, n), n) == Digits(base, v, n)
  {
    if n > 0 {
      TimesMoves(base, k, Power(base, n - 1));
      Carries(base, v, k * Power(base, n - 1));
      DigitsWrap(base, base.Over(v), k, n - 1);
    }
  }

  ghost predicate LexLess(a: seq<nat>, b: seq<nat>)
    requires |a| == |b|
  {
    exists i :: 0 <= i < |a| && a[i] < b[i] && a[..i] == b[..i]
  }

  // Digit strings of equal length sort as the numbers they stand for.
  lemma {:induction false} LexIsNumeric(base: Base, a: seq<nat>, b: seq<nat>)
    requires |a| == |b| && InBase(base, a) && InBase(base, b)
    ensures LexLess(a, b) <==> Value(base, a) < Value(base, b)
  {
    if a != [] {
      var n := |a| - 1;
      LexIsNumeric(base, a[..n], b[..n]);
      LexLast(a, b);
      if Value(base, a[..n]) == Value(base, b[..n]) {
        SameValue(base, a[..n], b[..n]);
      }
    }
  }

  lemma SameValue(base: Base, a: seq<nat>, b: seq<nat>)
    requires |a| == |b| && InBase(base, a) && InBase(base, b) && Value(base, a) == Value(base, b)
    ensures a == b
  {
    DigitsOfValue(base, a);
    DigitsOfValue(base, b);
  }

  lemma LexLast(a: seq<nat>, b: seq<nat>)
    requires |a| == |b| && a != []
    ensures var n := |a| - 1; LexLess(a, b) <==> LexLess(a[..n], b[..n]) || (a[..n] == b[..n] && a[n] < b[n])
  {
    var n := |a| - 1;
    if LexLess(a, b) {
      var i :| 0 <= i < |a| && a[i] < b[i] && a[..i] == b[..i];
      if i < n {
        assert a[..n][..i] == a[..i] && b[..n][..i] == b[..i];
      }
    }
    if LexLess(a[..n], b[..n]) {
      var i :| 0 <= i < n && a[..n][i] < b[..n][i] && a[..n][..i] == b[..n][..i];
      assert a[..n][..i] == a[..i] && b[..n][..i] == b[..i];
    }
  }

  // To compare two concatenations, compare the first halves, then the second.
  lemma {:induction false} LexSplits(a: seq<nat>, a': seq<nat>, b: seq<nat>, b': seq<nat>)
    requires |a| == |b| && |a'| == |b'|
    ensures LexLess(a + a', b + b') <==> LexLess(a, b) || (a == b && LexLess(a', b'))
    decreases |a'|
  {
    if a' == [] {
      assert a + a' == a && b + b' == b;
    } else {
      var n := |a'| - 1;
      LexSplits(a, a'[..n], b, b'[..n]);
      LexLast(a + a', b + b');
      LexLast(a', b');
      assert (a + a')[..|a| + n] == a + a'[..n] && (b + b')[..|b| + n] == b + b'[..n];
      SplitsEqually(a, a'[..n], b, b'[..n]);
    }
  }

  lemma SplitsEqually(a: seq<nat>, a': seq<nat>, b: seq<nat>, b': seq<nat>)
    requires |a| == |b|
    ensures a + a' == b + b' <==> a == b && a' == b'
  {
    if a + a' == b + b' {
      assert a == (a + a')[..|a|] && a' == (a + a')[|a|..];
      assert b == (b + b')[..|a|] && b' == (b + b')[|a|..];
    }
  }

  // ---- the identifier ---------------------------------------------------------------------

  function DigitsOf(ms: nat, entropy: Entropy): (digits: seq<nat>)
    ensures |digits| == 26 && InBase(Base32, digits)
  {
    Digits(Base32, ms, 10) + Digits(Base32, Value(Base256, entropy), 16)
  }

  function Letters(digits: seq<nat>): (s: string)
    requires InBase(Base32, digits)
    ensures |s| == |digits| && forall i :: 0 <= i < |s| ==> s[i] == Letter(digits[i])
  {
    seq(|digits|, i requires 0 <= i < |digits| => Letter(digits[i]))
  }

  function Id(ms: nat, entropy: Entropy): string { Letters(DigitsOf(ms, entropy)) }

  // ---- the source's loops -----------------------------------------------------------------

  // The powers of two the shift buffer works with.
  function Shift(bits: nat): nat
    requires bits <= 12
  {
    if bits == 0 then 1 else if bits == 1 then 2 else if bits == 2 then 4 else if bits == 3 then 8
    else if bits == 4 then 16 else if bits == 5 then 32 else if bits == 6 then 64 else if bits == 7 then 128
    else if bits == 8 then 256 else if bits == 9 then 512 else if bits == 10 then 1024 else if bits == 11 then 2048
    else 4096
  }

  lemma AtLeastOnce(x: nat, b: nat)
    requires x >= 1
    ensures x * b >= b
  {
  }

  lemma Quotient(v: nat, b: nat, q: nat, r: nat)
    requires v == q * b + r && r < b
    ensures v / b == q && v % b == r
  {
    var q' := v / b;
    if q' > q {
      AtLeastOnce(q' - q, b);
    } else if q' < q {
      AtLeastOnce(q - q', b);
    }
  }

  lemma DivMod(v: nat, b: nat) returns (q: nat, r: nat)
    requires b > 0
    ensures v == q * b + r && r < b && q == v / b && r == v % b
  {
    q, r := v / b, v % b;
  }

  lemma Nested(q: nat, m: nat, c: nat, q': nat, r: nat)
    ensures q * (m * c) + (q' * m + r) == (q * c + q') * m + r
  {
  }

  lemma ModOfMod(v: nat, m: nat, w: nat, c: nat)
    requires m > 0 && w == m * c && w > 0
    ensures (v % w) % m == v % m
  {
    var q, r := DivMod(v, w);
    var q', r' := DivMod(r, m);
    Nested(q, m, c, q', r');
    Quotient(v, m, q * c + q', r');
  }

  // How often the buffer's unread part fits the 64 bits.
  lemma BufferDivides(bits: nat) returns (c: nat)
    requires 8 <= bits <= 12
    ensures TWO_64 == Shift(bits) * c
  {
    c := if bits == 8 then 0x100_0000_0000_0000 else if bits == 9 then 0x80_0000_0000_0000
         else if bits == 10 then 0x40_0000_0000_0000 else if bits == 11 then 0x20_0000_0000_0000
         else 0x10_0000_0000_0000;
  }

  // `(buf << 8) | byte` in 64 bits keeps the unread bits.
  lemma TakeByte(buf: nat, bits: nat, byte: Byte)
    requires bits <= 4
    ensures Shift(bits + 8) == Shift(bits) * 256
    ensures ((buf * 256 + byte) % TWO_64) % Shift(bits + 8) == (buf % Shift(bits)) * 256 + byte
  {
    var s, v := Shift(bits), buf * 256 + byte;
    var m := s * 256;
    var c := BufferDivides(bits + 8);
    ModOfMod(v, m, TWO_64, c);
    var q, r := DivMod(buf, s);
    Scaled(q, s, r, byte);
    Quotient(v, m, q, r * 256 + byte);
  }

  lemma Scaled(v: nat, s: nat, low: nat, byte: nat)
    ensures (v * s + low) * 256 + byte == v * (s * 256) + (low * 256 + byte)
  {
  }

  lemma Regroup(v: nat, s: nat, g: nat)
    ensures v * (32 * s) + g * s == (v * 32 + g) * s
  {
  }

  lemma GroupFits(g: nat, s: nat, r: nat)
    requires g < 32 && r < s
    ensures g * s + r < 32 * s
  {
    AtLeastOnce(32 - g, s);
  }

  // `(buf >> (bits - 5)) & 0x1F` is the top one of the unread groups.
  lemma GiveDigit(buf: nat, s: nat)
    requires s > 0
    ensures 32 * s > 0 && buf % (32 * s) == ((buf / s) % 32) * s + buf % s
  {
    var q, r := DivMod(buf, s);
    var q', g := q / 32, q % 32;
    Regroup(q', s, g);
    GroupFits(g, s, r);
    Quotient(buf, 32 * s, q', g * s + r);
  }

  // The bytes taken in so far are the groups given out so far, followed by the unread bits.
  ghost predicate Packed(taken: nat, groups: seq<nat>, bits: nat, buf: nat) {
    && bits <= 12 && InBase(Base32, groups)
    && taken == Shifted(Value(Base32, groups), bits) + Low(buf, bits)
  }

  // `v << bits`.
  function Shifted(v: nat, bits: nat): nat {
    if bits == 0 then v else 2 * Shifted(v, bits - 1)
  }

  // The low `bits` bits.
  function Low(buf: nat, bits: nat): nat {
    if bits == 0 then 0 else buf % 2 + 2 * Low(buf / 2, bits - 1)
  }

  lemma {:induction false} ShiftedIsTimes(v: nat, bits: nat)
    requires bits <= 12
    ensures Shifted(v, bits) == v * Shift(bits)
  {
    if bits > 0 {
      ShiftedIsTimes(v, bits - 1);
      Doubled(v, Shift(bits - 1), 0, 0);
    }
  }

  lemma Doubled(q: nat, s: nat, r: nat, b: nat)
    ensures 2 * (q * s + r) + b == q * (2 * s) + (2 * r + b)
  {
  }

  lemma HalfMod(buf: nat, s: nat)
    requires s > 0
    ensures buf % (2 * s) == buf % 2 + 2 * ((buf / 2) % s)
  {
    var q, r := DivMod(buf / 2, s);
    Doubled(q, s, r, buf % 2);
    Quotient(buf, 2 * s, q, 2 * r + buf % 2);
  }

  lemma {:induction false} LowIsMod(buf: nat, bits: nat)
    requires bits <= 12
    ensures Low(buf, bits) == buf % Shift(bits)
  {
    if bits > 0 {
      LowIsMod(buf / 2, bits - 1);
      HalfMod(buf, Shift(bits - 1));
    }
  }

  lemma PackedMeans(taken: nat, groups: seq<nat>, bits: nat, buf: nat)
    requires bits <= 12 && InBase(Base32, groups)
    ensures Packed(taken, groups, bits, buf) <==> taken == Value(Base32, groups) * Shift(bits) + buf % Shift(bits)
  {
    ShiftedIsTimes(Value(Base32, groups), bits);
    LowIsMod(buf, bits);
  }

  lemma PackByte(taken: nat, groups: seq<nat>, bits: nat, buf: nat, byte: Byte)
    requires Packed(taken, groups, bits, buf) && bits <= 4
    ensures Packed(taken * 256 + byte, groups, bits + 8, (buf * 256 + byte) % TWO_64)
  {
    PackedMeans(taken, groups, bits, buf);
    PackedMeans(taken * 256 + byte, groups, bits + 8, (buf * 256 + byte) % TWO_64);
    TakeByte(buf, bits, byte);
    Scaled(Value(Base32, groups), Shift(bits), buf % Shift(bits), byte);
  }

  lemma GroupMoves(v: nat, bits: nat, buf: nat)
    requires 5 <= bits <= 12
    ensures v * Shift(bits) + buf % Shift(bits)
            == (v * 32 + (buf / Shift(bits - 5)) % 32) * Shift(bits - 5) + buf % Shift(bits - 5)
  {
    var s := Shift(bits - 5);
    assert Shift(bits) == 32 * s;
    GiveDigit(buf, s);
    Regroup(v, s, (buf / s) % 32);
  }

  lemma UnpackGroup(taken: nat, groups: seq<nat>, bits: nat, buf: nat)
    requires Packed(taken, groups, bits, buf) && 5 <= bits
    ensures Packed(taken, groups + [(buf / Shift(bits - 5)) % 32], bits - 5, buf)
  {
    hide Value;
    var group := (buf / Shift(bits - 5)) % 32;
    PackedMeans(taken, groups, bits, buf);
    GroupMoves(Value(Base32, groups), bits, buf);
    ValueGrows(Base32, groups, group);
    PackedMeans(taken, groups + [group], bits - 5, buf);
  }

  predicate Spells(s: string, digits: seq<nat>) {
    |s| == |digits| && forall i :: 0 <= i < |s| ==> digits[i] < 32 && s[i] == Letter(digits[i])
  }

  lemma LastDigitFirst(time: nat, i: nat, done: seq<nat>)
    ensures Digits(Base32, time, i + 1) + done == Digits(Base32, time / 32, i) + ([time % 32] + done)
  {
  }

  // The time, least significant digit first.
  method PackTime(out: array<char>, ms: nat)
    requires out.Length == 26
    modifies out
    ensures Spells(out[..10], Digits(Base32, ms, 10))
  {
    var time := ms;
    var i := 10;
    ghost var done: seq<nat> := [];
    while i > 0
      invariant 0 <= i <= 10 && InBase(Base32, done)
      invariant Digits(Base32, ms, 10) == Digits(Base32, time, i) + done
      invariant Spells(out[i..10], done)
    {
      i := i - 1;
      LastDigitFirst(time, i, done);
      out[i] := Letter(time % 32);
      assert out[i..10] == [out[i]] + out[i + 1..10];
      done := [time % 32] + done;
      time := time / 32;
    }
  }

  // The shift buffer, how many of its low bits are unread, and the groups that have left it.
  datatype Stream = Stream(buf: nat, bits: nat, groups: seq<nat>)

  function Drained(st: Stream): Stream
    decreases st.bits
  {
    if 5 <= st.bits <= 12
    then Drained(Stream(st.buf, st.bits - 5, st.groups + [(st.buf / Shift(st.bits - 5)) % 32]))
    else st
  }

  function TakenIn(st: Stream, byte: Byte): Stream {
    Stream((st.buf * 256 + byte) % TWO_64, st.bits + 8, st.groups)
  }

  function Streamed(bytes: seq<Byte>, k: nat): Stream
    requires k <= |bytes|
  {
    if k == 0 then Stream(0, 0, []) else Drained(TakenIn(Streamed(bytes, k - 1), bytes[k - 1]))
  }

  lemma {:induction false} DrainedCounts(st: Stream)
    requires st.bits <= 12
    ensures var t := Drained(st); t.bits <= 4 && 5 * |t.groups| + t.bits == 5 * |st.groups| + st.bits && t.buf == st.buf
    decreases st.bits
  {
    if 5 <= st.bits {
      DrainedCounts(Stream(st.buf, st.bits - 5, st.groups + [(st.buf / Shift(st.bits - 5)) % 32]));
    }
  }

  lemma {:induction false} StreamedCounts(bytes: seq<Byte>, k: nat)
    requires k <= |bytes|
    ensures var st := Streamed(bytes, k); st.bits <= 4 && 5 * |st.groups| + st.bits == 8 * k
  {
    if k > 0 {
      StreamedCounts(bytes, k - 1);
      DrainedCounts(TakenIn(Streamed(bytes, k - 1), bytes[k - 1]));
    }
  }

  ghost predicate StreamPacks(taken: nat, st: Stream) {
    Packed(taken, st.groups, st.bits, st.buf)
  }

  lemma OneGroup(taken: nat, st: Stream) returns (next: Stream)
    requires StreamPacks(taken, st) && 5 <= st.bits <= 12
    ensures next.bits == st.bits - 5 && StreamPacks(taken, next) && Drained(st) == Drained(next)
  {
    hide Shifted, Low, Value;
    UnpackGroup(taken, st.groups, st.bits, st.buf);
    next := Stream(st.buf, st.bits - 5, st.groups + [(st.buf / Shift(st.bits - 5)) % 32]);
  }

  lemma {:induction false} DrainedPacked(taken: nat, st: Stream)
    requires StreamPacks(taken, st)
    ensures StreamPacks(taken, Drained(st))
    decreases st.bits
  {
    hide Shifted, Low, Value, Shift;
    if 5 <= st.bits <= 12 {
      var next := OneGroup(taken, st);
      DrainedPacked(taken, next);
    }
  }

  lemma StepPacked(taken: nat, st: Stream, byte: Byte)
    requires StreamPacks(taken, st) && st.bits <= 4
    ensures StreamPacks(taken * 256 + byte, Drained(TakenIn(st, byte)))
  {
    PackByte(taken, st.groups, st.bits, st.buf, byte);
    DrainedPacked(taken * 256 + byte, TakenIn(st, byte));
  }

  lemma ValueOfNext(bytes: seq<Byte>, k: nat)
    requires 0 < k <= |bytes|
    ensures Value(Base256, bytes[..k]) == Value(Base256, bytes[..k - 1]) * 256 + bytes[k - 1]
  {
    assert bytes[..k] == bytes[..k - 1] + [bytes[k - 1]];
    ValueGrows(Base256, bytes[..k - 1], bytes[k - 1]);
  }

  lemma NothingPacked(none: seq<nat>)
    requires none == []
    ensures StreamPacks(Value(Base256, none), Stream(0, 0, []))
  {
  }

  lemma {:induction false} StreamedPacked(bytes: seq<Byte>, k: nat)
    requires k <= |bytes|
    ensures StreamPacks(Value(Base256, bytes[..k]), Streamed(bytes, k))
  {
    if k == 0 {
      NothingPacked(bytes[..k]);
    } else {
      StreamedPacked(bytes, k - 1);
      StreamedCounts(bytes, k - 1);
      ValueOfNext(bytes, k);
      StepPacked(Value(Base256, bytes[..k - 1]), Streamed(bytes, k - 1), bytes[k - 1]);
    }
  }

  // Nothing is lost and nothing is left over.
  lemma StreamedWhole(entropy: Entropy)
    ensures var st := Streamed(entropy, 10);
            st.bits == 0 && |st.groups| == 16 && st.groups == Digits(Base32, Value(Base256, entropy), 16)
  {
    StreamedPacked(entropy, 10);
    StreamedCounts(entropy, 10);
    assert entropy[..10] == entropy;
    AllPacked(Value(Base256, entropy), Streamed(entropy, 10).groups, Streamed(entropy, 10).buf);
  }

  lemma AllPacked(taken: nat, groups: seq<nat>, bitBuf: nat)
    requires Packed(taken, groups, 0, bitBuf)
    ensures groups == Digits(Base32, taken, |groups|)
  {
    DigitsOfValue(Base32, groups);
  }

  // As many characters as the shift buffer holds groups for.
  method PackGroups(out: array<char>, bitBuf: nat, ghost st: Stream, bits: nat, start: nat)
    returns (bitsIn: nat, outI: nat)
    requires out.Length == 26 && start == 10 + |st.groups| <= 26 && Spells(out[10..start], st.groups)
    requires bitBuf == st.buf && bits == st.bits && bits <= 12 && 5 * |st.groups| + st.bits <= 80
    modifies out
    ensures bitsIn == Drained(st).bits && outI == 10 + |Drained(st).groups| <= 26
    ensures out[..10] == old(out[..10]) && Spells(out[10..outI], Drained(st).groups)
  {
    bitsIn, outI := bits, start;
    ghost var groups: seq<nat> := st.groups;
    while bitsIn >= 5 && outI < 26
      invariant 5 * |groups| + bitsIn <= 80 && bitsIn <= 12 && outI == 10 + |groups| <= 26
      invariant Drained(Stream(st.buf, bitsIn, groups)) == Drained(st)
      invariant out[..10] == old(out[..10]) && Spells(out[10..outI], groups)
      decreases bitsIn
    {
      bitsIn := bitsIn - 5;
      var group := (bitBuf / Shift(bitsIn)) % 32;
      out[outI] := Letter(group);
      outI := outI + 1;
      groups := groups + [group];
      assert out[10..outI] == out[10..outI - 1] + [out[outI - 1]];
    }
  }

  // The entropy, as a stream of 5-bit groups through a 64-bit shift buffer.
  method PackEntropy(out: array<char>, entropy: Entropy)
    requires out.Length == 26
    modifies out
    ensures out[..10] == old(out[..10])
    ensures Spells(out[10..], Digits(Base32, Value(Base256, entropy), 16))
  {
    hide Drained, Value, Digits, Letter;
    var bitBuf: nat, bitsIn: nat, outI: nat := 0, 0, 10;
    ghost var groups: seq<nat> := [];
    for k := 0 to 10
      invariant Stream(bitBuf, bitsIn, groups) == Streamed(entropy, k)
      invariant outI == 10 + |groups| && 5 * |groups| + bitsIn == 8 * k && bitsIn <= 4
      invariant out[..10] == old(out[..10]) && Spells(out[10..outI], groups)
    {
      StreamedCounts(entropy, k + 1);
      bitBuf := (bitBuf * 256 + entropy[k]) % TWO_64;
      bitsIn := bitsIn + 8;
      ghost var next := Drained(Stream(bitBuf, bitsIn, groups));
      DrainedCounts(Stream(bitBuf, bitsIn, groups));
      bitsIn, outI := PackGroups(out, bitBuf, Stream(bitBuf, bitsIn, groups), bitsIn, outI);
      groups := next.groups;
    }
    StreamedWhole(entropy);
    assert outI == 26; // the flush loop never runs
    assert out[10..] == out[10..26];
  }

  // `SessionId::new`, for a given clock reading and given entropy.
  method NewId(ms: nat, entropy: Entropy) returns (id: string)
    requires ms < TWO_64
    ensures id == Id(ms, entropy)
  {
    var out := new char[26](_ => ' ');
    PackTime(out, ms);
    PackEntropy(out, entropy);
    id := out[..];
    Spelled(out[..10], Digits(Base32, ms, 10), out[10..], Digits(Base32, Value(Base256, entropy), 16));
    assert id == out[..10] + out[10..];
  }

  lemma Spelled(s: string, a: seq<nat>, t: string, b: seq<nat>)
    requires Spells(s, a) && Spells(t, b)
    ensures InBase(Base32, a + b) && s + t == Letters(a + b)
  {
  }

  // ---- reading an identifier back ---------------------------------------------------------

  ghost predicate IsCrockford(c: char) { exists d: nat :: d < 32 && Letter(d) == c }

  // The position of a character in the alphabet.
  ghost function DigitOf(c: char): (d: nat)
    requires IsCrockford(c)
    ensures d < 32 && Letter(d) == c
  {
    var d: nat :| d < 32 && Letter(d) == c;
    d
  }

  ghost predicate WellFormed(id: string) { |id| == 26 && forall i :: 0 <= i < 26 ==> IsCrockford(id[i]) }

  ghost function Numbers(id: string): (digits: seq<nat>)
    requires forall i :: 0 <= i < |id| ==> IsCrockford(id[i])
    ensures |digits| == |id| && InBase(Base32, digits)
    ensures forall i :: 0 <= i < |id| ==> Letter(digits[i]) == id[i]
  {
    seq(|id|, i requires 0 <= i < |id| => DigitOf(id[i]))
  }

  ghost function TimeOf(id: string): nat
    requires WellFormed(id)
  {
    Value(Base32, Numbers(id)[..10])
  }

  ghost function EntropyOf(id: string): Entropy
    requires WellFormed(id)
  {
    AsBytes(Digits(Base256, Value(Base32, Numbers(id)[10..]), 10))
  }

  function AsBytes(s: seq<nat>): (t: seq<Byte>)
    requires InBase(Base256, s)
    ensures t == s
  {
    seq(|s|, i requires 0 <= i < |s| => s[i] as Byte)
  }

  lemma NumbersOfLetters(digits: seq<nat>)
    requires InBase(Base32, digits)
    ensures forall i :: 0 <= i < |digits| ==> IsCrockford(Letters(digits)[i])
    ensures Numbers(Letters(digits)) == digits
  {
    var s := Letters(digits);
    forall i | 0 <= i < |digits| ensures IsCrockford(s[i]) && Numbers(s)[i] == digits[i] {
      AlphabetAscends(Numbers(s)[i], digits[i]);
      AlphabetAscends(digits[i], Numbers(s)[i]);
    }
  }

  lemma SixteenDigitsHoldTenBytes()
    ensures Power(Base32, 16) == Power(Base256, 10) && Power(Base32, 10) == TIME_SPAN
  {
    PowerSums(Base32, 5, 5);
    PowerSums(Base32, 10, 5);
    PowerSums(Base32, 15, 1);
    PowerSums(Base256, 5, 5);
    assert Power(Base32, 5) == 0x200_0000 && Power(Base32, 1) == 32 && Power(Base256, 5) == 0x100_0000_0000 by {
      PowerSums(Base32, 2, 3);
      PowerSums(Base256, 2, 3);
      assert Power(Base32, 2) == 1024 && Power(Base32, 3) == 32768;
      assert Power(Base256, 2) == 65536 && Power(Base256, 3) == 16777216;
    }
  }

  lemma {:induction false} PowerSums(base: Base, m: nat, n: nat)
    ensures Power(base, m + n) == Power(base, m) * Power(base, n)
  {
    if n > 0 {
      PowerSums(base, m, n - 1);
      TimesMoves(base, Power(base, m), Power(base, n - 1));
    }
  }

  // Every identifier tells its time (up to the 35 000 years fifty bits can count) and its entropy.
  lemma IdDecodes(ms: nat, entropy: Entropy)
    ensures WellFormed(Id(ms, entropy))
    ensures EntropyOf(Id(ms, entropy)) == entropy
    ensures ms < TIME_SPAN ==> TimeOf(Id(ms, entropy)) == ms
  {
    var digits := DigitsOf(ms, entropy);
    NumbersOfLetters(digits);
    SixteenDigitsHoldTenBytes();
    assert digits[..10] == Digits(Base32, ms, 10);
    if ms < TIME_SPAN {
      ValueOfDigits(Base32, ms, 10);
    }
    var v := Value(Base256, entropy);
    ValueBelow(Base256, entropy);
    assert digits[10..] == Digits(Base32, v, 16);
    ValueOfDigits(Base32, v, 16);
    DigitsOfValue(Base256, entropy);
  }

  // Conversely every string of 26 letters of the alphabet is an identifier.
  lemma IdEncodes(id: string)
    requires WellFormed(id)
    ensures TimeOf(id) < TIME_SPAN && Id(TimeOf(id), EntropyOf(id)) == id
  {
    var digits := Numbers(id);
    SixteenDigitsHoldTenBytes();
    ValueBelow(Base32, digits[..10]);
    ValueBelow(Base32, digits[10..]);
    DigitsOfValue(Base32, digits[..10]);
    DigitsOfValue(Base32, digits[10..]);
    ValueOfDigits(Base256, Value(Base32, digits[10..]), 10);
    assert digits == digits[..10] + digits[10..];
    assert DigitsOf(TimeOf(id), EntropyOf(id)) == digits;
  }

  // The time field is modulo 2^50 ms.
  lemma TimeWraps(ms: nat, k: nat, entropy: Entropy)
    ensures Id(ms + k * TIME_SPAN, entropy) == Id(ms, entropy)
  {
    SixteenDigitsHoldTenBytes();
    DigitsWrap(Base32, ms, k, 10);
  }

  // ---- order ------------------------------------------------------------------------------

  ghost predicate Before(a: string, b: string)
    requires |a| == |b|
  {
    exists i :: 0 <= i < |a| && a[i] < b[i] && a[..i] == b[..i]
  }

  lemma LettersOrder(a: seq<nat>, b: seq<nat>)
    requires |a| == |b| && InBase(Base32, a) && InBase(Base32, b)
    ensures Before(Letters(a), Letters(b)) <==> LexLess(a, b)
  {
    var x, y := Letters(a), Letters(b);
    forall i | 0 <= i < |a| ensures (x[i] < y[i] <==> a[i] < b[i]) && (x[i] == y[i] <==> a[i] == b[i]) {
      AlphabetAscends(a[i], b[i]);
      AlphabetAscends(b[i], a[i]);
    }
    forall i | 0 <= i < |a| ensures x[..i] == y[..i] <==> a[..i] == b[..i] {
      if x[..i] == y[..i] {
        forall j | 0 <= j < i ensures a[j] == b[j] {
          assert x[..i][j] == y[..i][j];
        }
      }
      if a[..i] == b[..i] {
        forall j | 0 <= j < i ensures x[j] == y[j] {
          assert a[..i][j] == b[..i][j];
        }
      }
    }
  }

  // Sorted as text, identifiers are sorted by time, and within a millisecond by entropy.
  lemma SortsByTime(ms: nat, entropy: Entropy, ms': nat, entropy': Entropy)
    requires ms < TIME_SPAN && ms' < TIME_SPAN
    ensures Before(Id(ms, entropy), Id(ms', entropy')) <==> ms < ms' || (ms == ms' && LexLess(entropy, entropy'))
  {
    SixteenDigitsHoldTenBytes();
    var t, t' := Digits(Base32, ms, 10), Digits(Base32, ms', 10);
    var v, v' := Value(Base256, entropy), Value(Base256, entropy');
    var e, e' := Digits(Base32, v, 16), Digits(Base32, v', 16);
    LettersOrder(t + e, t' + e');
    LexSplits(t, e, t', e');
    ValueOfDigits(Base32, ms, 10);
    ValueOfDigits(Base32, ms', 10);
    LexIsNumeric(Base32, t, t');
    ValueBelow(Base256, entropy);
    ValueBelow(Base256, entropy');
    ValueOfDigits(Base32, v, 16);
    ValueOfDigits(Base32, v', 16);
    LexIsNumeric(Base32, e, e');
    LexIsNumeric(Base256, entropy, entropy');
  }

  // Within one millisecond a later identifier may sort before an earlier one: nothing but the
  // entropy decides.
  lemma NotMonotonicWithinMs(ms: nat)
    requires ms < TIME_SPAN
    ensures exists first: Entropy, second: Entropy :: Before(Id(ms, second), Id(ms, first))
  {
    var first: Entropy, second: Entropy := [1, 0, 0, 0, 0, 0, 0, 0, 0, 0], [0, 0, 0, 0, 0, 0, 0, 0, 0, 0];
    SortsByTime(ms, second, ms, first);
    assert second[0] < first[0] && second[..0] == first[..0];
  }
}
