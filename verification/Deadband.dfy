/** The one argument behind every "does not chatter" claim, on plain sequences. The functions
    look at the first `k` elements. */
module Deadband {
  import opened Floats

  function Count(flags: seq<bool>, k: nat): nat
    requires k <= |flags|
  {
    if k == 0 then 0 else Count(flags, k - 1) + if flags[k - 1] then 1 else 0
  }

  function Sum(xs: seq<real>, k: nat): real
    requires k <= |xs|
  {
    if k == 0 then 0.0 else Sum(xs, k - 1) + xs[k - 1]
  }

  // `m` for every flagged step.
  function Charge(flags: seq<bool>, m: real, k: nat): real
    requires k <= |flags|
  {
    if k == 0 then 0.0 else Charge(flags, m, k - 1) + if flags[k - 1] then m else 0.0
  }

  lemma {:induction false} ChargeIsCount(flags: seq<bool>, m: real, k: nat)
    requires k <= |flags|
    ensures Charge(flags, m, k) == Count(flags, k) as real * m
  {
    if k > 0 {
      ChargeIsCount(flags, m, k - 1);
      OneMore(Count(flags, k - 1), m);
    }
  }

  lemma CountBound(flags: seq<bool>, m: real, k: nat, total: real)
    requires k <= |flags| && Charge(flags, m, k) <= total
    ensures Count(flags, k) as real * m <= total
  {
    ChargeIsCount(flags, m, k);
  }

  lemma AllButOneBound(flags: seq<bool>, m: real, k: nat, total: real)
    requires k <= |flags| && Charge(flags, m, k) <= m + total
    ensures (Count(flags, k) - 1) as real * m <= total
  {
    ChargeIsCount(flags, m, k);
    OneMore(Count(flags, k) - 1, m);
  }

  // A bill below one step's price means no step was flagged.
  lemma {:induction false} TooCheap(flags: seq<bool>, m: real, k: nat)
    requires k <= |flags| && 0.0 <= Charge(flags, m, k) < m
    ensures Count(flags, k) == 0
  {
    if k > 0 {
      ChargeNonNegative(flags, m, k - 1);
      TooCheap(flags, m, k - 1);
    }
  }

  lemma {:induction false} ChargeNonNegative(flags: seq<bool>, m: real, k: nat)
    requires k <= |flags| && m >= 0.0
    ensures Charge(flags, m, k) >= 0.0
  {
    if k > 0 { ChargeNonNegative(flags, m, k - 1); }
  }

  // A flagged step uses up `m` of a reserve that only movement can refill.
  ghost predicate Pays(flag: bool, m: real, before: real, after: real, move: real) {
    (if flag then m else 0.0) + after <= before + move
  }

  // Then the flagged steps are paid for by the movement.
  lemma {:induction false} Law(flags: seq<bool>, reserve: seq<real>, moves: seq<real>, m: real, k: nat)
    requires k <= |flags| && |reserve| == |flags| + 1 && |moves| == |flags|
    requires forall i {:trigger flags[i]} :: 0 <= i < |flags| ==>
               Pays(flags[i], m, reserve[i], reserve[i + 1], moves[i])
    ensures Charge(flags, m, k) + reserve[k] <= reserve[0] + Sum(moves, k)
  {
    if k > 0 {
      Law(flags, reserve, moves, m, k - 1);
      assert Pays(flags[k - 1], m, reserve[k - 1], reserve[k], moves[k - 1]);
    }
  }

  // The same where every step has a price of its own.
  lemma {:induction false} BillLaw(prices: seq<real>, reserve: seq<real>, moves: seq<real>, k: nat)
    requires k <= |prices| && |reserve| == |prices| + 1 && |moves| == |prices|
    requires forall i {:trigger prices[i]} :: 0 <= i < |prices| ==> prices[i] + reserve[i + 1] <= reserve[i] + moves[i]
    ensures Sum(prices, k) + reserve[k] <= reserve[0] + Sum(moves, k)
  {
    if k > 0 {
      BillLaw(prices, reserve, moves, k - 1);
      assert prices[k - 1] + reserve[k] <= reserve[k - 1] + moves[k - 1];
    }
  }

  // Two kinds of flagged steps, one price each.
  lemma {:induction false} TwoPrices(prices: seq<real>, ups: seq<bool>, downs: seq<bool>, up: real, down: real, k: nat)
    requires k <= |prices| == |ups| == |downs|
    requires forall i {:trigger prices[i]} :: 0 <= i < |prices| ==>
               prices[i] == (if ups[i] then up else 0.0) + if downs[i] then down else 0.0
    ensures Sum(prices, k) == Charge(ups, up, k) + Charge(downs, down, k)
  {
    if k > 0 {
      TwoPrices(prices, ups, downs, up, down, k - 1);
      assert prices[k - 1] == (if ups[k - 1] then up else 0.0) + if downs[k - 1] then down else 0.0;
    }
  }

  // So many of the one at one price, so many of the other at the other.
  function Bill(ups: seq<bool>, downs: seq<bool>, up: real, down: real, k: nat): real
    requires k <= |ups| == |downs|
  {
    Count(ups, k) as real * up + Count(downs, k) as real * down
  }

  lemma BillIsCounts(prices: seq<real>, ups: seq<bool>, downs: seq<bool>, up: real, down: real, k: nat)
    requires k <= |prices| == |ups| == |downs|
    requires forall i {:trigger prices[i]} :: 0 <= i < |prices| ==>
               prices[i] == (if ups[i] then up else 0.0) + if downs[i] then down else 0.0
    ensures Sum(prices, k) == Bill(ups, downs, up, down, k)
  {
    hide Sum, Charge, Count;
    TwoPrices(prices, ups, downs, up, down, k);
    ChargeIsCount(ups, up, k);
    ChargeIsCount(downs, down, k);
  }

  lemma {:induction false} CountZero(flags: seq<bool>, k: nat)
    requires k <= |flags|
    ensures Count(flags, k) == 0 <==> forall i :: 0 <= i < k ==> !flags[i]
  {
    if k > 0 { CountZero(flags, k - 1); }
  }
}
