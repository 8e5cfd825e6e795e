/** src/control/fusion.rs: one driver temperature out of many sensors. */
module Fusion {
  import opened Floats

  datatype FusionMode = Hottest | Mean

  // f32::max: a NaN operand is ignored.
  function FMax(a: Float, b: Float): Float {
    match (a, b)
    case (NaN, _) => b
    case (_, NaN) => a
    case (PosInf, _) => PosInf
    case (_, PosInf) => PosInf
    case (NegInf, _) => b
    case (_, NegInf) => a
    case (Finite(x), Finite(y)) => Finite(Max(x, y))
  }

  function FAdd(a: Float, b: Float): Float {
    match (a, b)
    case (NaN, _) => NaN
    case (_, NaN) => NaN
    case (PosInf, NegInf) => NaN
    case (NegInf, PosInf) => NaN
    case (PosInf, _) => PosInf
    case (_, PosInf) => PosInf
    case (NegInf, _) => NegInf
    case (_, NegInf) => NegInf
    case (Finite(x), Finite(y)) => Finite(x + y)
  }

  // The zip stops at the shorter of the two lists.
  function Live(values: seq<Float>, dropouts: seq<bool>): (live: seq<Float>)
    ensures |live| <= |values|
  {
    if values == [] || dropouts == [] then []
    else (if dropouts[0] then [] else [values[0]]) + Live(values[1..], dropouts[1..])
  }

  function FoldMax(acc: Float, xs: seq<Float>): Float
    decreases xs
  {
    if xs == [] then acc else FoldMax(FMax(acc, xs[0]), xs[1..])
  }

  function FoldSum(acc: Float, xs: seq<Float>): Float
    decreases xs
  {
    if xs == [] then acc else FoldSum(FAdd(acc, xs[0]), xs[1..])
  }

  function Fuse(values: seq<Float>, dropouts: seq<bool>, mode: FusionMode, lastGood: real): real {
    var live := Live(values, dropouts);
    if live == [] then lastGood
    else
      var result := match mode
                    case Hottest => FoldMax(NegInf, live)
                    case Mean => FoldSum(Finite(0.0), live);
      match result
      case Finite(x) => if mode.Hottest? then x else x / (|live| as real)
      case _ => lastGood
  }

  ghost predicate FiniteIn(x: real, xs: seq<Float>) {
    Finite(x) in xs
  }

  lemma {:induction false} FoldMaxIsMax(acc: Float, xs: seq<Float>)
    requires PosInf !in xs && (acc.Finite? || acc == NegInf)
    ensures var r := FoldMax(acc, xs);
            && (r.Finite? || r == NegInf)
            && (r.Finite? ==> r == acc || FiniteIn(r.v, xs))
            && (acc.Finite? ==> r.Finite? && acc.v <= r.v)
            && (forall x :: FiniteIn(x, xs) ==> r.Finite? && x <= r.v)
    decreases xs
  {
    if xs != [] {
      var acc' := FMax(acc, xs[0]);
      FoldMaxIsMax(acc', xs[1..]);
      forall x | FiniteIn(x, xs)
        ensures FoldMax(acc, xs).Finite? && x <= FoldMax(acc, xs).v
      {
        if xs[0] != Finite(x) {
          assert FiniteIn(x, xs[1..]);
        }
      }
    }
  }

  // ---- the sensors by position ------------------------------------------------------------

  // Position `i` is in both lists and its sensor has not dropped out.
  predicate LiveAt(values: seq<Float>, dropouts: seq<bool>, i: nat) {
    i < |values| && i < |dropouts| && !dropouts[i]
  }

  ghost predicate ReadAt(values: seq<Float>, dropouts: seq<bool>, x: Float) {
    exists i: nat :: LiveAt(values, dropouts, i) && values[i] == x
  }

  // The live readings are those at the live positions, every one of them.
  lemma {:induction false} LiveMeans(values: seq<Float>, dropouts: seq<bool>)
    ensures forall x :: x in Live(values, dropouts) <==> ReadAt(values, dropouts, x)
    ensures Live(values, dropouts) == [] <==> forall i: nat :: !LiveAt(values, dropouts, i)
  {
    if values != [] && dropouts != [] {
      var vs, ds := values[1..], dropouts[1..];
      LiveMeans(vs, ds);
      assert forall i: nat :: LiveAt(values, dropouts, i + 1) <==> LiveAt(vs, ds, i);
      forall x ensures x in Live(values, dropouts) <==> ReadAt(values, dropouts, x) {
        Shifted(values, dropouts, x);
      }
      if Live(vs, ds) != [] {
        var i: nat :| LiveAt(vs, ds, i);
        assert LiveAt(values, dropouts, i + 1);
      } else if dropouts[0] {
        forall i: nat ensures !LiveAt(values, dropouts, i) {
          assert i > 0 ==> !LiveAt(vs, ds, i - 1);
        }
      } else {
        assert LiveAt(values, dropouts, 0);
      }
    }
  }

  lemma Shifted(values: seq<Float>, dropouts: seq<bool>, x: Float)
    requires values != [] && dropouts != []
    ensures ReadAt(values, dropouts, x) <==>
            (!dropouts[0] && values[0] == x) || ReadAt(values[1..], dropouts[1..], x)
  {
    if ReadAt(values, dropouts, x) {
      var i: nat :| LiveAt(values, dropouts, i) && values[i] == x;
      assert i > 0 ==> LiveAt(values[1..], dropouts[1..], i - 1) && values[1..][i - 1] == x;
    }
    if ReadAt(values[1..], dropouts[1..], x) {
      var i: nat :| LiveAt(values[1..], dropouts[1..], i) && values[1..][i] == x;
      assert LiveAt(values, dropouts, i + 1) && values[i + 1] == x;
    }
    if !dropouts[0] && values[0] == x {
      assert LiveAt(values, dropouts, 0);
    }
  }

  // In max mode the sample is usable if some live sensor reads a finite number and none plus infinity.
  ghost predicate UsableMax(values: seq<Float>, dropouts: seq<bool>) {
    && (exists i: nat :: LiveAt(values, dropouts, i) && values[i].Finite?)
    && !ReadAt(values, dropouts, PosInf)
  }

  // Then the fused temperature is the hottest finite live reading, and otherwise the last good one.
  lemma HottestWins(values: seq<Float>, dropouts: seq<bool>, lastGood: real)
    ensures var r := Fuse(values, dropouts, Hottest, lastGood);
            if UsableMax(values, dropouts)
            then && ReadAt(values, dropouts, Finite(r))
                 && forall i: nat :: LiveAt(values, dropouts, i) && values[i].Finite? ==> values[i].v <= r
            else r == lastGood
  {
    LiveMeans(values, dropouts);
    var live := Live(values, dropouts);
    if PosInf in live {
      FoldMaxInfinite(NegInf, live);
    } else {
      FoldMaxIsMax(NegInf, live);
      var r := FoldMax(NegInf, live);
      forall i: nat | LiveAt(values, dropouts, i) && values[i].Finite? ensures r.Finite? && values[i].v <= r.v {
        assert ReadAt(values, dropouts, values[i]);
        assert FiniteIn(values[i].v, live);
      }
      if r.Finite? {
        assert ReadAt(values, dropouts, r);
      }
    }
  }

  lemma {:induction false} FoldMaxInfinite(acc: Float, xs: seq<Float>)
    requires PosInf in xs || acc == PosInf
    ensures FoldMax(acc, xs) == PosInf
    decreases xs
  {
    if xs != [] {
      FoldMaxInfinite(FMax(acc, xs[0]), xs[1..]);
    }
  }

  // Every live sensor reads `t`, and at least one is live.
  ghost predicate Steady(values: seq<Float>, dropouts: seq<bool>, t: real) {
    && (exists i: nat :: LiveAt(values, dropouts, i))
    && forall i: nat :: LiveAt(values, dropouts, i) ==> values[i] == Finite(t)
  }

  lemma {:induction false} FoldSumSteady(acc: real, xs: seq<Float>, t: real)
    requires forall i :: 0 <= i < |xs| ==> xs[i] == Finite(t)
    ensures FoldSum(Finite(acc), xs) == Finite(acc + |xs| as real * t)
    decreases xs
  {
    if xs != [] {
      FoldSumSteady(acc + t, xs[1..], t);
      assert |xs| as real * t == t + (|xs| - 1) as real * t;
    }
  }

  lemma SteadyLive(values: seq<Float>, dropouts: seq<bool>, t: real)
    requires Steady(values, dropouts, t)
    ensures var live := Live(values, dropouts);
            live != [] && forall i :: 0 <= i < |live| ==> live[i] == Finite(t)
  {
    LiveMeans(values, dropouts);
    var live := Live(values, dropouts);
    forall i | 0 <= i < |live| ensures live[i] == Finite(t) {
      assert ReadAt(values, dropouts, live[i]);
    }
  }

  // Both modes agree on a steady reading.
  lemma SteadyFuses(values: seq<Float>, dropouts: seq<bool>, mode: FusionMode, lastGood: real, t: real)
    requires Steady(values, dropouts, t)
    ensures Fuse(values, dropouts, mode, lastGood) == t
  {
    SteadyLive(values, dropouts, t);
    hide Live, LiveAt;
    var live := Live(values, dropouts);
    if mode.Hottest? {
      FoldMaxIsMax(NegInf, live);
      assert FiniteIn(t, live);
    } else {
      var n := |live| as real;
      var total := n * t;
      FoldSumSteady(0.0, live, t);
      assert FoldSum(Finite(0.0), live) == Finite(total);
      DivisionCancels(n, t);
      assert total / n == t;
    }
  }

  // A live reading needs a sensor that has not dropped out.
  lemma {:induction false} LiveNeedsSensor(values: seq<Float>, dropouts: seq<bool>)
    ensures Live(values, dropouts) != [] ==> false in dropouts
    ensures false !in dropouts ==> Live(values, dropouts) == []
  {
    if values != [] && dropouts != [] {
      LiveNeedsSensor(values[1..], dropouts[1..]);
    }
  }

  // ---- the mean ---------------------------------------------------------------------------

  // In mean mode the sample is usable if some sensor is live and all live ones read finite numbers.
  ghost predicate UsableMean(values: seq<Float>, dropouts: seq<bool>) {
    && (exists i: nat :: LiveAt(values, dropouts, i))
    && forall i: nat :: LiveAt(values, dropouts, i) ==> values[i].Finite?
  }

  // The readings at the live positions among the first `n`, added up.
  function LiveSum(values: seq<Float>, dropouts: seq<bool>, n: nat): real {
    if n == 0 then 0.0
    else LiveSum(values, dropouts, n - 1)
         + if LiveAt(values, dropouts, n - 1) && values[n - 1].Finite? then values[n - 1].v else 0.0
  }

  // How many live positions there are among the first `n`.
  function LiveCount(values: seq<Float>, dropouts: seq<bool>, n: nat): nat {
    if n == 0 then 0
    else LiveCount(values, dropouts, n - 1) + if LiveAt(values, dropouts, n - 1) then 1 else 0
  }

  lemma {:induction false} CountShifts(values: seq<Float>, dropouts: seq<bool>, n: nat)
    requires values != [] && dropouts != []
    ensures LiveCount(values, dropouts, n + 1)
            == (if dropouts[0] then 0 else 1) + LiveCount(values[1..], dropouts[1..], n)
    ensures LiveSum(values, dropouts, n + 1)
            == (if !dropouts[0] && values[0].Finite? then values[0].v else 0.0)
               + LiveSum(values[1..], dropouts[1..], n)
  {
    if n > 0 {
      CountShifts(values, dropouts, n - 1);
      assert LiveAt(values, dropouts, n) <==> LiveAt(values[1..], dropouts[1..], n - 1);
    }
  }

  lemma {:induction false} NoneLive(values: seq<Float>, dropouts: seq<bool>, n: nat)
    requires values == [] || dropouts == []
    ensures LiveCount(values, dropouts, n) == 0 && LiveSum(values, dropouts, n) == 0.0
  {
    if n > 0 {
      NoneLive(values, dropouts, n - 1);
    }
  }

  lemma LiveHead(values: seq<Float>, dropouts: seq<bool>)
    requires values != [] && dropouts != []
    ensures var rest := Live(values[1..], dropouts[1..]);
            Live(values, dropouts) == if dropouts[0] then rest else [values[0]] + rest
  {
  }

  lemma FoldSumHead(acc: real, x: real, xs: seq<Float>)
    ensures FoldSum(Finite(acc), [Finite(x)] + xs) == FoldSum(Finite(acc + x), xs)
  {
    assert ([Finite(x)] + xs)[1..] == xs;
  }

  lemma {:induction false} SumOfLive(values: seq<Float>, dropouts: seq<bool>, acc: real)
    requires forall x :: x in Live(values, dropouts) ==> x.Finite?
    ensures |Live(values, dropouts)| == LiveCount(values, dropouts, |values|)
    ensures FoldSum(Finite(acc), Live(values, dropouts)) == Finite(acc + LiveSum(values, dropouts, |values|))
    decreases values
  {
    if values == [] || dropouts == [] {
      NoneLive(values, dropouts, |values|);
    } else {
      hide *;
      LiveHead(values, dropouts);
      CountShifts(values, dropouts, |values| - 1);
      var rest := Live(values[1..], dropouts[1..]);
      if dropouts[0] {
        SumOfLive(values[1..], dropouts[1..], acc);
      } else {
        assert values[0] in Live(values, dropouts);
        FoldSumHead(acc, values[0].v, rest);
        SumOfLive(values[1..], dropouts[1..], acc + values[0].v);
      }
    }
  }

  lemma {:induction false} FoldSumSpoilt(acc: Float, xs: seq<Float>)
    requires !acc.Finite? || exists x :: x in xs && !x.Finite?
    ensures !FoldSum(acc, xs).Finite?
    decreases xs
  {
    if xs != [] {
      FoldSumSpoilt(FAdd(acc, xs[0]), xs[1..]);
    }
  }

  function Times(r: real, n: nat): real {
    r * n as real
  }

  lemma Quotient(total: real, n: nat)
    requires n > 0
    ensures Times(total / n as real, n) == total
  {
  }

  // The fold as `Fuse` divides it.
  lemma MeanOf(values: seq<Float>, dropouts: seq<bool>, lastGood: real, total: real, n: nat)
    requires Live(values, dropouts) != [] && |Live(values, dropouts)| == n
    requires FoldSum(Finite(0.0), Live(values, dropouts)) == Finite(0.0 + total)
    ensures Times(Fuse(values, dropouts, Mean, lastGood), n) == total
  {
    hide Live, FoldSum, Times;
    Quotient(total, n);
  }

  lemma UsableMeanFuses(values: seq<Float>, dropouts: seq<bool>, lastGood: real)
    requires UsableMean(values, dropouts)
    ensures Times(Fuse(values, dropouts, Mean, lastGood), LiveCount(values, dropouts, |values|))
            == LiveSum(values, dropouts, |values|)
  {
    AllFinite(values, dropouts);
    hide *;
    SumOfLive(values, dropouts, 0.0);
    MeanOf(values, dropouts, lastGood, LiveSum(values, dropouts, |values|), LiveCount(values, dropouts, |values|));
  }

  lemma SpoiltMeanHolds(values: seq<Float>, dropouts: seq<bool>, lastGood: real)
    requires !UsableMean(values, dropouts)
    ensures Fuse(values, dropouts, Mean, lastGood) == lastGood
  {
    LiveMeans(values, dropouts);
    if i: nat :| LiveAt(values, dropouts, i) && !values[i].Finite? {
      assert ReadAt(values, dropouts, values[i]);
      FoldSumSpoilt(Finite(0.0), Live(values, dropouts));
    }
  }

  // The mean of the live readings: times their number it is their sum.
  lemma MeanIsMean(values: seq<Float>, dropouts: seq<bool>, lastGood: real)
    ensures var r := Fuse(values, dropouts, Mean, lastGood);
            if UsableMean(values, dropouts)
            then Times(r, LiveCount(values, dropouts, |values|)) == LiveSum(values, dropouts, |values|)
            else r == lastGood
  {
    hide *;
    if UsableMean(values, dropouts) {
      UsableMeanFuses(values, dropouts, lastGood);
    } else {
      SpoiltMeanHolds(values, dropouts, lastGood);
    }
  }

  lemma AllFinite(values: seq<Float>, dropouts: seq<bool>)
    requires UsableMean(values, dropouts)
    ensures Live(values, dropouts) != [] && forall x :: x in Live(values, dropouts) ==> x.Finite?
  {
    LiveMeans(values, dropouts);
  }
}
