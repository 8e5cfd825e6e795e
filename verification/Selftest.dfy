/** src/smc/selftest.rs: medians and verdicts of the self-test. */
module Selftest {
  import opened Floats

  // ---- the median -------------------------------------------------------------------------

  function Insert(x: real, s: seq<real>): seq<real> {
    if s == [] || x <= s[0] then [x] + s else [s[0]] + Insert(x, s[1..])
  }

  // The sorted copy.
  function Sorted(s: seq<real>): seq<real> {
    if s == [] then [] else Insert(s[0], Sorted(s[1..]))
  }

  function Median(values: seq<real>): real {
    if values == [] then 0.0
    else
      SortedPermutes(values);
      var sorted, n := Sorted(values), |values|;
      if n % 2 == 1 then sorted[n / 2] else (sorted[n / 2 - 1] + sorted[n / 2]) / 2.0
  }

  ghost predicate Ascending(s: seq<real>) {
    forall i, j :: 0 <= i < j < |s| ==> s[i] <= s[j]
  }

  lemma {:induction false} InsertPermutes(x: real, s: seq<real>)
    ensures multiset(Insert(x, s)) == multiset{x} + multiset(s) && |Insert(x, s)| == |s| + 1
  {
    if s != [] && x > s[0] {
      InsertPermutes(x, s[1..]);
      assert s == [s[0]] + s[1..];
    }
  }

  lemma {:induction false} InsertAscends(x: real, s: seq<real>)
    requires Ascending(s)
    ensures Ascending(Insert(x, s))
  {
    if s != [] && x > s[0] {
      InsertAscends(x, s[1..]);
      var rest := Insert(x, s[1..]);
      forall i | 0 <= i < |rest| ensures s[0] <= rest[i] {
        InsertPermutes(x, s[1..]);
        assert rest[i] in multiset(rest);
      }
    }
  }

  lemma {:induction false} SortedPermutes(s: seq<real>)
    ensures multiset(Sorted(s)) == multiset(s) && |Sorted(s)| == |s| && Ascending(Sorted(s))
  {
    if s != [] {
      SortedPermutes(s[1..]);
      InsertPermutes(s[0], Sorted(s[1..]));
      InsertAscends(s[0], Sorted(s[1..]));
      assert s == [s[0]] + s[1..];
    }
  }

  lemma HeadIsLeast(a: seq<real>, y: real)
    requires Ascending(a) && y in multiset(a)
    ensures a != [] && a[0] <= y
  {
    assert y in a;
  }

  lemma SameTails(a: seq<real>, b: seq<real>)
    requires a != [] && b != [] && a[0] == b[0] && multiset(a) == multiset(b)
    ensures multiset(a[1..]) == multiset(b[1..])
  {
    assert a == [a[0]] + a[1..] && b == [b[0]] + b[1..];
    assert multiset(a[1..]) == multiset(a) - multiset{a[0]};
  }

  lemma SameHeads(a: seq<real>, b: seq<real>)
    requires Ascending(a) && Ascending(b) && multiset(a) == multiset(b) && a != [] && b != []
    ensures a[0] == b[0]
  {
    assert a[0] in multiset(a) && b[0] in multiset(b);
    HeadIsLeast(a, b[0]);
    HeadIsLeast(b, a[0]);
  }

  lemma {:induction false} AscendingUnique(a: seq<real>, b: seq<real>)
    requires Ascending(a) && Ascending(b) && multiset(a) == multiset(b) && |a| == |b|
    ensures a == b
  {
    if a != [] {
      SameHeads(a, b);
      SameTails(a, b);
      AscendingUnique(a[1..], b[1..]);
      assert a == [a[0]] + a[1..] && b == [b[0]] + b[1..];
    }
  }

  // The order in which the samples arrived does not matter.
  lemma MedianPermutes(a: seq<real>, b: seq<real>)
    requires multiset(a) == multiset(b)
    ensures Median(a) == Median(b)
  {
    hide Sorted, Insert;
    SortedPermutes(a);
    SortedPermutes(b);
    assert |multiset(a)| == |a| && |multiset(b)| == |b|;
    AscendingUnique(Sorted(a), Sorted(b));
  }

  function CountWhere(s: seq<real>, p: real -> bool): nat {
    if s == [] then 0 else (if p(s[0]) then 1 else 0) + CountWhere(s[1..], p)
  }

  lemma {:induction false} InsertCounts(x: real, s: seq<real>, p: real -> bool)
    ensures CountWhere(Insert(x, s), p) == (if p(x) then 1 else 0) + CountWhere(s, p)
  {
    if s != [] && x > s[0] {
      InsertCounts(x, s[1..], p);
    } else {
      assert ([x] + s)[1..] == s;
    }
  }

  lemma {:induction false} SortedCounts(s: seq<real>, p: real -> bool)
    ensures CountWhere(Sorted(s), p) == CountWhere(s, p)
  {
    if s != [] {
      SortedCounts(s[1..], p);
      InsertCounts(s[0], Sorted(s[1..]), p);
    }
  }

  // If the samples from position `lo` up to `hi` satisfy `p`, at least that many do.
  lemma {:induction false} CountRange(s: seq<real>, lo: nat, hi: nat, p: real -> bool)
    requires lo <= hi <= |s| && forall i :: lo <= i < hi ==> p(s[i])
    ensures CountWhere(s, p) >= hi - lo
  {
    if lo < hi {
      CountRange(s[1..], if lo == 0 then 0 else lo - 1, hi - 1, p);
    }
  }

  // Samples that satisfy `p` all sit at bad positions, so there are no more of them than bad positions.
  lemma {:induction false} CountBad(s: seq<real>, offset: nat, bad: set<nat>, p: real -> bool)
    requires forall i :: 0 <= i < |s| && p(s[i]) ==> offset + i in bad
    ensures CountWhere(s, p) <= |bad|
  {
    if s != [] {
      var rest := if p(s[0]) then bad - {offset} else bad;
      assert p(s[0]) ==> offset + 0 in bad;
      forall i | 0 <= i < |s[1..]| && p(s[1..][i]) ensures offset + 1 + i in rest {
        assert p(s[i + 1]);
      }
      CountBad(s[1..], offset + 1, rest, p);
    }
  }

  // As long as fewer than half the samples are corrupted, however badly, the median stays
  // within any bounds that hold for the rest.
  lemma MedianRobust(values: seq<real>, bad: set<nat>, lo: real, hi: real)
    requires values != [] && 2 * |bad| < |values|
    requires forall i :: 0 <= i < |values| && i !in bad ==> lo <= values[i] <= hi
    ensures lo <= Median(values) <= hi
  {
    SortedPermutes(values);
    var sorted, n := Sorted(values), |values|;
    var first := if n % 2 == 1 then n / 2 else n / 2 - 1;
    FewBelow(values, bad, lo, first);
    FewAbove(values, bad, hi, n / 2);
    assert first < n / 2 ==> sorted[first] <= sorted[n / 2];
  }

  lemma FewBelow(values: seq<real>, bad: set<nat>, lo: real, k: nat)
    requires forall i :: 0 <= i < |values| && i !in bad ==> lo <= values[i]
    requires |bad| <= k < |values| && |Sorted(values)| == |values| && Ascending(Sorted(values))
    ensures lo <= Sorted(values)[k]
  {
    var low := (x: real) => x < lo;
    CountBad(values, 0, bad, low);
    SortedCounts(values, low);
    if Sorted(values)[k] < lo {
      CountRange(Sorted(values), 0, k + 1, low);
    }
  }

  lemma FewAbove(values: seq<real>, bad: set<nat>, hi: real, k: nat)
    requires forall i :: 0 <= i < |values| && i !in bad ==> values[i] <= hi
    requires k < |values| && |bad| < |values| - k && |Sorted(values)| == |values| && Ascending(Sorted(values))
    ensures Sorted(values)[k] <= hi
  {
    var high := (x: real) => x > hi;
    CountBad(values, 0, bad, high);
    SortedCounts(values, high);
    if Sorted(values)[k] > hi {
      CountRange(Sorted(values), k, |values|, high);
    }
  }

  // The median lies between two of the samples.
  lemma MedianBetween(values: seq<real>) returns (i: nat, j: nat)
    requires values != []
    ensures i < |values| && j < |values| && values[i] <= Median(values) <= values[j]
  {
    SortedPermutes(values);
    var sorted, n := Sorted(values), |values|;
    assert sorted[0] in multiset(values) && sorted[n - 1] in multiset(values);
    i :| 0 <= i < n && values[i] == sorted[0];
    j :| 0 <= j < n && values[j] == sorted[n - 1];
  }

  // With fewer than half the samples bad there are good ones, and among them a least and a greatest.
  lemma {:induction false} Extremes(values: seq<real>, bad: set<nat>, n: nat, first: nat) returns (i: nat, j: nat)
    requires first < n <= |values| && first !in bad
    ensures i < n && j < n && i !in bad && j !in bad
    ensures forall k :: 0 <= k < n && k !in bad ==> values[i] <= values[k] <= values[j]
  {
    if n == first + 1 {
      i, j := first, first;
      for k := 0 to first
        invariant i <= first && j <= first && i !in bad && j !in bad
        invariant values[i] <= values[first] <= values[j]
        invariant forall m :: 0 <= m < k && m !in bad ==> values[i] <= values[m] <= values[j]
      {
        if k !in bad {
          i, j := if values[k] < values[i] then k else i, if values[k] > values[j] then k else j;
        }
      }
    } else {
      i, j := Extremes(values, bad, n - 1, first);
      var k := n - 1;
      if k !in bad {
        i, j := if values[k] < values[i] then k else i, if values[k] > values[j] then k else j;
      }
    }
  }

  lemma SomeGood(values: seq<real>, bad: set<nat>) returns (i: nat)
    requires |bad| < |values|
    ensures i < |values| && i !in bad
  {
    var any := (x: real) => true;
    if forall k :: 0 <= k < |values| ==> k in bad {
      CountBad(values, 0, bad, any);
      CountRange(values, 0, |values|, any);
    }
    i :| 0 <= i < |values| && i !in bad;
  }

  // The median then lies between two good samples.
  lemma MedianBetweenGood(values: seq<real>, bad: set<nat>) returns (i: nat, j: nat)
    requires 2 * |bad| < |values|
    ensures i < |values| && j < |values| && i !in bad && j !in bad
    ensures values[i] <= Median(values) <= values[j]
  {
    var first := SomeGood(values, bad);
    i, j := Extremes(values, bad, |values|, first);
    MedianRobust(values, bad, values[i], values[j]);
  }

  const DELTA_THRESHOLD_RPM := 500.0

  // ---- readings that failed and count as 0 --------------------------------------------------

  // The readings at the positions in `bad` failed.
  ghost predicate Zeroed(values: seq<real>, bad: set<nat>) {
    forall k :: 0 <= k < |values| && k in bad ==> values[k] == 0.0
  }

  function Positions(n: nat): (all: set<nat>)
    ensures |all| == n && forall k: nat :: k in all <==> k < n
  {
    if n == 0 then {} else Positions(n - 1) + {n - 1}
  }

  // The positions that did not fail.
  function Good(bad: set<nat>, n: nat): set<nat> { Positions(n) - bad }

  lemma GoodCount(bad: set<nat>, n: nat)
    requires forall k :: k in bad ==> k < n
    ensures |Good(bad, n)| + |bad| == n
  {
    assert Good(bad, n) + bad == Positions(n);
  }

  // If more than half failed, the median is 0.
  lemma MostFailed(values: seq<real>, bad: set<nat>)
    requires Zeroed(values, bad) && 2 * |bad| > |values| && forall k :: k in bad ==> k < |values|
    ensures Median(values) == 0.0
  {
    GoodCount(bad, |values|);
    if values != [] {
      MedianRobust(values, Good(bad, |values|), 0.0, 0.0);
    }
  }

  // If exactly half failed, twice the median lies between two readings that did not.
  lemma HalfFailed(values: seq<real>, bad: set<nat>) returns (i: nat, j: nat)
    requires Zeroed(values, bad) && 2 * |bad| == |values| > 0 && forall k :: k in bad ==> k < |values|
    ensures i < |values| && j < |values| && i !in bad && j !in bad
    ensures values[i] <= 2.0 * Median(values) <= values[j]
  {
    var good := Good(bad, |values|);
    GoodCount(bad, |values|);
    var first := SomeGood(values, bad);
    i, j := Extremes(values, bad, |values|, first);
    SortedPermutes(values);
    MiddlePair(values, |bad|);
    HalfAbove(values, bad, good, values[i]);
    HalfBelow(values, bad, good, values[j]);
  }

  lemma MiddlePair(values: seq<real>, m: nat)
    requires |values| == 2 * m > 0
    ensures |Sorted(values)| == |values|
    ensures 2.0 * Median(values) == Sorted(values)[m - 1] + Sorted(values)[m]
  {
    SortedPermutes(values);
  }

  lemma HalfBelow(values: seq<real>, bad: set<nat>, good: set<nat>, hi: real)
    requires Zeroed(values, bad) && |bad| == |good| > 0 && |values| == 2 * |bad|
    requires forall k :: 0 <= k < |values| ==> (k in good <==> k !in bad)
    requires forall k :: 0 <= k < |values| && k !in bad ==> values[k] <= hi
    requires |Sorted(values)| == |values| && Ascending(Sorted(values))
    ensures Sorted(values)[|bad| - 1] + Sorted(values)[|bad|] <= hi
  {
    var m := |bad|;
    FewAbove(values, {}, Max(hi, 0.0), m);
    if hi >= 0.0 {
      FewAbove(values, good, 0.0, m - 1);
    } else {
      FewAbove(values, bad, hi, m - 1);
    }
  }

  lemma HalfAbove(values: seq<real>, bad: set<nat>, good: set<nat>, lo: real)
    requires Zeroed(values, bad) && |bad| == |good| > 0 && |values| == 2 * |bad|
    requires forall k :: 0 <= k < |values| ==> (k in good <==> k !in bad)
    requires forall k :: 0 <= k < |values| && k !in bad ==> lo <= values[k]
    requires |Sorted(values)| == |values| && Ascending(Sorted(values))
    ensures lo <= Sorted(values)[|bad| - 1] + Sorted(values)[|bad|]
  {
    var m := |bad|;
    FewBelow(values, {}, Min(lo, 0.0), m - 1);
    if lo <= 0.0 {
      FewBelow(values, good, 0.0, m);
    } else {
      FewBelow(values, bad, lo, m);
    }
  }

  // Every reading that did not fail is `v`.
  function Uniform(bad: set<nat>, n: nat, v: real): (values: seq<real>)
    ensures |values| == n && Zeroed(values, bad)
    ensures forall k :: 0 <= k < n && k !in bad ==> values[k] == v
  {
    seq(n, k requires 0 <= k < n => if k in bad then 0.0 else v)
  }

  // Where the number of failures stands: under half, half, or over.
  datatype Share = Minority | Half | Majority

  function ShareOf(bad: set<nat>, n: nat): Share {
    if 2 * |bad| < n then Minority else if 2 * |bad| == n then Half else Majority
  }

  lemma UniformMedian(bad: set<nat>, n: nat, v: real)
    requires n > 0 && forall k :: k in bad ==> k < n
    ensures Median(Uniform(bad, n, v))
            == match ShareOf(bad, n) { case Minority => v case Half => v / 2.0 case Majority => 0.0 }
  {
    match ShareOf(bad, n) {
      case Minority => MedianRobust(Uniform(bad, n, v), bad, v, v);
      case Half => var _, _ := HalfFailed(Uniform(bad, n, v), bad);
      case Majority => MostFailed(Uniform(bad, n, v), bad);
    }
  }

  // Some automatic reading and some minimum reading that did not fail are 500 RPM apart.
  ghost predicate Borne(autos: seq<real>, badAuto: set<nat>, mins: seq<real>, badMin: set<nat>) {
    exists i, j ::
      && 0 <= i < |autos| && i !in badAuto && 0 <= j < |mins| && j !in badMin
      && autos[i] >= mins[j] + DELTA_THRESHOLD_RPM
  }

  // Whatever the readings that did not fail are, a pass is borne out by two of them.
  ghost predicate Reliable(n: nat, badAuto: set<nat>, badMin: set<nat>) {
    forall autos, mins ::
      && |autos| == |mins| == n && Zeroed(autos, badAuto) && Zeroed(mins, badMin)
      && Median(autos) - Median(mins) >= DELTA_THRESHOLD_RPM
      ==> Borne(autos, badAuto, mins, badMin)
  }

  lemma PassBorne(autos: seq<real>, badAuto: set<nat>, mins: seq<real>, badMin: set<nat>)
    requires |autos| == |mins| && Zeroed(autos, badAuto) && Zeroed(mins, badMin)
    requires (forall k :: k in badAuto ==> k < |autos|) && (forall k :: k in badMin ==> k < |mins|)
    requires ShareOf(badAuto, |autos|) == ShareOf(badMin, |mins|)
    requires Median(autos) - Median(mins) >= DELTA_THRESHOLD_RPM
    ensures Borne(autos, badAuto, mins, badMin)
  {
    match ShareOf(badAuto, |autos|) {
      case Minority =>
        var _, i := MedianBetweenGood(autos, badAuto);
        var j, _ := MedianBetweenGood(mins, badMin);
        assert autos[i] >= mins[j] + DELTA_THRESHOLD_RPM;
      case Half =>
        if autos != [] {
          var _, i := HalfFailed(autos, badAuto);
          var j, _ := HalfFailed(mins, badMin);
          assert autos[i] >= mins[j] + DELTA_THRESHOLD_RPM;
        }
      case Majority =>
        MostFailed(autos, badAuto);
        MostFailed(mins, badMin);
    }
  }

  // A pass is always borne out by readings that did not fail exactly if the failures of the two kinds
  // stand alike: both under half of the readings, both at half, or both over.
  lemma ReliableIff(n: nat, badAuto: set<nat>, badMin: set<nat>)
    requires (forall k :: k in badAuto ==> k < n) && (forall k :: k in badMin ==> k < n)
    ensures Reliable(n, badAuto, badMin) <==> ShareOf(badAuto, n) == ShareOf(badMin, n)
  {
    assert n == 0 ==> badAuto == {} == badMin;
    if ShareOf(badAuto, n) == ShareOf(badMin, n) {
      forall autos, mins |
        && |autos| == |mins| == n && Zeroed(autos, badAuto) && Zeroed(mins, badMin)
        && Median(autos) - Median(mins) >= DELTA_THRESHOLD_RPM
        ensures Borne(autos, badAuto, mins, badMin)
      {
        PassBorne(autos, badAuto, mins, badMin);
      }
    } else {
      NotBorne(n, badAuto, badMin);
    }
  }

  // One fan that never changes its speed, and passes: forward if more minimum readings failed, and with
  // the opposite sign if more automatic ones did.
  lemma NotBorne(n: nat, badAuto: set<nat>, badMin: set<nat>)
    requires (forall k :: k in badAuto ==> k < n) && (forall k :: k in badMin ==> k < n)
    requires n > 0 && ShareOf(badAuto, n) != ShareOf(badMin, n)
    ensures !Reliable(n, badAuto, badMin)
  {
    var v := if |badAuto| < |badMin| then 2300.0 else -2300.0;
    var autos, mins := Uniform(badAuto, n, v), Uniform(badMin, n, v);
    UniformMedian(badAuto, n, v);
    UniformMedian(badMin, n, v);
    assert Median(autos) - Median(mins) >= DELTA_THRESHOLD_RPM;
    assert !Borne(autos, badAuto, mins, badMin);
  }

  // ---- reports ----------------------------------------------------------------------------

  const SAMPLES_PER_HOLD: nat := 5

  datatype SelftestResult = Pass | Inconclusive | Fail | WatchdogTimeout | Conflict

  datatype IterationSample = IterationSample(iteration: nat, autoSamples: seq<real>, minSamples: seq<real>,
                                             autoMedian: real, minMedian: real, deltaRpm: real)

  datatype FanReport = FanReport(fanIndex: nat, iterationsCompleted: nat, iterationsRequested: nat,
                                 roundTripCount: nat, mismatchCount: nat, samples: seq<IterationSample>,
                                 medianAtMin: real, medianAtAuto: real, deltaRpm: real, result: SelftestResult)

  datatype Report = Report(perFan: seq<FanReport>, totalIterations: nat, totalRoundTrips: nat,
                           totalMismatches: nat, overall: SelftestResult)

  function ClassifyIteration(iteration: nat, autoSamples: seq<real>, minSamples: seq<real>): IterationSample {
    var autoMedian, minMedian := Median(autoSamples), Median(minSamples);
    IterationSample(iteration, autoSamples, minSamples, autoMedian, minMedian, autoMedian - minMedian)
  }

  // An iteration whose readings under automatic control are all at least `fast`, and at forced minimum at
  // most `slow`, shows at least the difference; and the readings are kept as they are.
  lemma IterationDelta(iteration: nat, autoSamples: seq<real>, minSamples: seq<real>, fast: real, slow: real)
    requires autoSamples != [] && minSamples != []
    requires (forall v :: v in autoSamples ==> v >= fast) && (forall v :: v in minSamples ==> v <= slow)
    ensures var s := ClassifyIteration(iteration, autoSamples, minSamples);
            && s.autoMedian >= fast && s.minMedian <= slow && s.deltaRpm >= fast - slow
            && s.autoSamples == autoSamples && s.minSamples == minSamples && s.iteration == iteration
  {
    var low, _ := MedianBetween(autoSamples);
    var _, high := MedianBetween(minSamples);
    assert autoSamples[low] in autoSamples && minSamples[high] in minSamples;
  }

  function MinReadings(samples: seq<IterationSample>): seq<real> {
    if samples == [] then [] else samples[0].minSamples + MinReadings(samples[1..])
  }

  function AutoReadings(samples: seq<IterationSample>): seq<real> {
    if samples == [] then [] else samples[0].autoSamples + AutoReadings(samples[1..])
  }

  function ClassifyFan(fan: nat, completed: nat, requested: nat, roundTrips: nat, mismatches: nat,
                       samples: seq<IterationSample>): FanReport {
    var atMin, atAuto := Median(MinReadings(samples)), Median(AutoReadings(samples));
    var delta := atAuto - atMin;
    var result := if mismatches > 0 then Fail
                  else if completed < requested then Fail
                  else if delta >= DELTA_THRESHOLD_RPM then Pass
                  else Inconclusive;
    FanReport(fan, completed, requested, roundTrips, mismatches, samples, atMin, atAuto, delta, result)
  }

  // A fan passes only if some reading under automatic control beat some reading at forced minimum by 500 RPM.
  lemma PassMeansFaster(fan: nat, completed: nat, requested: nat, roundTrips: nat, mismatches: nat,
                        samples: seq<IterationSample>)
    requires ClassifyFan(fan, completed, requested, roundTrips, mismatches, samples).result == Pass
    requires MinReadings(samples) != [] && AutoReadings(samples) != []
    ensures mismatches == 0 && completed >= requested
    ensures exists a, m :: a in AutoReadings(samples) && m in MinReadings(samples) && a >= m + 500.0
  {
    var lowMin, _ := MedianBetween(MinReadings(samples));
    var _, highAuto := MedianBetween(AutoReadings(samples));
    var a, m := AutoReadings(samples)[highAuto], MinReadings(samples)[lowMin];
    assert a in AutoReadings(samples) && m in MinReadings(samples) && a >= m + 500.0;
  }

  // The verdict on one fan, from its medians.
  lemma VerdictIff(fan: nat, completed: nat, requested: nat, roundTrips: nat, mismatches: nat,
                   samples: seq<IterationSample>)
    ensures var rise := Median(AutoReadings(samples)) - Median(MinReadings(samples));
            var r := ClassifyFan(fan, completed, requested, roundTrips, mismatches, samples).result;
            && (r == Pass <==> mismatches == 0 && completed >= requested && rise >= 500.0)
            && (r == Inconclusive <==> mismatches == 0 && completed >= requested && rise < 500.0)
            && (r == Fail <==> mismatches > 0 || completed < requested)
    ensures var report := ClassifyFan(fan, completed, requested, roundTrips, mismatches, samples);
            && report.medianAtMin == Median(MinReadings(samples))
            && report.medianAtAuto == Median(AutoReadings(samples))
            && report.medianAtMin + report.deltaRpm == report.medianAtAuto
  {
  }

  lemma {:induction false} SumConstant(perFan: seq<FanReport>, field: FanReport -> nat, each: nat)
    requires forall f :: f in perFan ==> field(f) == each
    ensures SumOf(perFan, field) == each * |perFan|
  {
    if perFan != [] {
      assert forall f :: f in perFan[1..] ==> f in perFan;
      assert perFan[0] in perFan;
      SumConstant(perFan[1..], field, each);
      Multiple(each, |perFan|);
    }
  }

  lemma Multiple(each: nat, n: nat)
    requires n > 0
    ensures each * n == each * (n - 1) + each
  {
  }

  function SumOf(perFan: seq<FanReport>, field: FanReport -> nat): nat {
    if perFan == [] then 0 else field(perFan[0]) + SumOf(perFan[1..], field)
  }

  function Classify(perFan: seq<FanReport>): Report {
    var mismatches := SumOf(perFan, (f: FanReport) => f.mismatchCount);
    var overall := if mismatches > 0 then Fail
                   else if exists f :: f in perFan && f.result == Inconclusive then Inconclusive
                   else if forall f :: f in perFan ==> f.result == Pass then Pass
                   else Pass;
    Report(perFan, SumOf(perFan, (f: FanReport) => f.iterationsCompleted),
           SumOf(perFan, (f: FanReport) => f.roundTripCount), mismatches, overall)
  }

  lemma {:induction false} SumZero(perFan: seq<FanReport>, field: FanReport -> nat)
    ensures SumOf(perFan, field) == 0 <==> forall f :: f in perFan ==> field(f) == 0
  {
    if perFan != [] {
      SumZero(perFan[1..], field);
      assert perFan == [perFan[0]] + perFan[1..];
    }
  }

  ghost predicate FromClassifyFan(f: FanReport) {
    f == ClassifyFan(f.fanIndex, f.iterationsCompleted, f.iterationsRequested, f.roundTripCount, f.mismatchCount,
                     f.samples)
  }

  // On reports of fans that completed what was asked, the run passes exactly when every fan
  // does. In general it also passes when every fan that does not pass merely stopped early: the
  // last branch, which the source calls impossible.
  lemma OverallPassIff(perFan: seq<FanReport>)
    requires forall f :: f in perFan ==> FromClassifyFan(f)
    ensures Classify(perFan).overall == Pass
            <==> forall f :: f in perFan ==>
                   f.result == Pass || (f.mismatchCount == 0 && f.iterationsCompleted < f.iterationsRequested)
    ensures (forall f :: f in perFan ==> f.iterationsCompleted >= f.iterationsRequested) ==>
              (Classify(perFan).overall == Pass <==> forall f :: f in perFan ==> f.result == Pass)
    ensures Classify(perFan).overall == Fail <==> exists f :: f in perFan && f.mismatchCount > 0
  {
    SumZero(perFan, (f: FanReport) => f.mismatchCount);
  }

  // One fan that failed by stopping early gives an overall pass.
  lemma EarlyStopPasses()
    ensures exists f :: FromClassifyFan(f) && f.result == Fail && Classify([f]).overall == Pass
  {
    var f := ClassifyFan(0, 0, 1, 0, 0, []);
    SumZero([f], (g: FanReport) => g.mismatchCount);
    assert FromClassifyFan(f) && Classify([f]).overall == Pass;
  }
}
