/** What a self-test that came back has done, exchange by exchange and record by record: every
    record stands for a write the SMC accepted and a read-back it answered, every sample for a
    reading that was tried while the fan's mode register could only hold the mode it is filed under. */
module Ledger {
  import opened Enumerate
  import opened Floats
  import opened Registers
  import opened Ring
  import opened Selftest
  import opened Singles
  import opened SmcConnection
  import opened SmcTypes
  import opened Trail

  function ActualKey(fan: nat): nat { FanKey(fan, 'A', 'c') }

  // `rec` shows `v` written to and read back from the fan's mode register.
  ghost predicate Shows(rec: Record, fan: nat, v: Byte) {
    && rec.fourcc == ModeKey(fan) && rec.outcome == Match
    && rec.writtenLen <= 4 && rec.Written() == [v] && rec.readbackLen <= 4 && rec.Readback() == [v]
  }

  // One reading of the tachometer: tried, and 0 only if it failed or the SMC said 0.
  ghost predicate Reading(before: seq<Exchange>, after: seq<Exchange>, fan: nat, v: real) {
    && ReadsOnly(before, after) && Tried(before, after, ActualKey(fan))
    && v == match FloatRead(before, after, ActualKey(fan))
            case Some(q) => Decoded(q)
            case None => 0.0
  }

  // These readings, one after the other, and nothing else.
  ghost predicate Sampled(before: seq<Exchange>, after: seq<Exchange>, fan: nat, samples: seq<real>)
    decreases |samples|
  {
    if samples == [] then after == before
    else
      var n := |samples| - 1;
      exists mid: seq<Exchange> :: Sampled(before, mid, fan, samples[..n]) && Reading(mid, after, fan, samples[n])
  }

  // `mode` written and verified, as `rec` says, and then sampled.
  ghost predicate Engaged(before: seq<Exchange>, after: seq<Exchange>, fan: nat, mode: Byte, rec: Record,
                          samples: seq<real>) {
    && Shows(rec, fan, mode) && |samples| == 5
    && exists wrote, checked ::
         && ReadBack(before, wrote, checked, ModeKey(fan), TYPE_UI8, [mode], Some([mode]))
         && Sampled(checked, after, fan, samples)
  }

  // Forced minimum, then automatic.
  ghost predicate Iterated(before: seq<Exchange>, after: seq<Exchange>, fan: nat, down: Record, up: Record,
                           sample: IterationSample) {
    && sample == ClassifyIteration(sample.iteration, sample.autoSamples, sample.minSamples)
    && exists mid ::
         && Engaged(before, mid, fan, 1, down, sample.minSamples)
         && Engaged(mid, after, fan, 0, up, sample.autoSamples)
  }

  // All iterations of one fan, with the records they left.
  ghost predicate Tested(before: seq<Exchange>, after: seq<Exchange>, records: seq<Record>, fan: nat,
                         samples: seq<IterationSample>)
    decreases |samples|
  {
    && |records| == 2 * |samples|
    && if samples == [] then after == before
       else
         var n := |samples| - 1;
         && samples[n].iteration == n
         && exists mid: seq<Exchange> ::
              && Tested(before, mid, records[..2 * n], fan, samples[..n])
              && Iterated(mid, after, fan, records[2 * n], records[2 * n + 1], samples[n])
  }

  // ---- runs that did not come back --------------------------------------------------------

  // The minimum could not be engaged, or it was and automatic could not: the last record says why, and the
  // write was attempted. `slot` is what the mode registers' shared slot said at the start.
  ghost predicate IterationFailed(kernel: Kernel, open: bool, slot: Option<KeyInfo>, records: seq<Record>,
                                  records': seq<Record>, before: seq<Exchange>, after: seq<Exchange>, fan: nat,
                                  e: SmcError) {
    || EngageFailed(kernel, open, slot, records, records', before, after, fan, 1, e)
    || exists mid, recs, samples ::
         && |recs| == |records| + 1 && records <= recs
         && Engaged(before, mid, fan, 1, recs[|records|], samples)
         && EngageFailed(kernel, open, Some(BYTE_INFO), recs, records', mid, after, fan, 0, e)
  }

  ghost predicate EngageFailed(kernel: Kernel, open: bool, slot: Option<KeyInfo>, records: seq<Record>,
                               records': seq<Record>, before: seq<Exchange>, after: seq<Exchange>, fan: nat,
                               mode: Byte, e: SmcError) {
    && Recorded(records, records', before, after, ModeKey(fan), TYPE_UI8, [mode], Err(e))
    && Attempt(kernel, open, slot, before, after, ModeKey(fan), [mode], Err(e))
  }

  // Some complete iterations, fewer than asked for, and one that failed.
  ghost predicate TestFailed(kernel: Kernel, open: bool, slot: Option<KeyInfo>, records: seq<Record>,
                             records': seq<Record>, before: seq<Exchange>, after: seq<Exchange>, fan: nat,
                             iterations: nat, e: SmcError) {
    exists mid, recs, samples ::
      && records <= recs && |samples| < iterations
      && Tested(before, mid, recs[|records|..], fan, samples)
      && IterationFailed(kernel, open, if samples == [] then slot else Some(BYTE_INFO),
                         recs, records', mid, after, fan, e)
  }

  lemma SomeIteration(kernel: Kernel, open: bool, slot: Option<KeyInfo>, records: seq<Record>,
                      records': seq<Record>, before: seq<Exchange>, after: seq<Exchange>, fan: nat,
                      iterations: nat, e: SmcError)
    requires TestFailed(kernel, open, slot, records, records', before, after, fan, iterations, e)
    ensures iterations > 0
  {
  }

  // Some fans tested completely, fewer than there are, and one on which the test failed.
  ghost predicate RunFailed(kernel: Kernel, open: bool, slot: Option<KeyInfo>, records: seq<Record>,
                            records': seq<Record>, before: seq<Exchange>, after: seq<Exchange>, fans: nat,
                            iterations: nat, e: SmcError) {
    exists mid, recs, perFan ::
      && records <= recs && |perFan| < fans
      && Ran(before, mid, recs[|records|..], perFan, iterations)
      && TestFailed(kernel, open, if perFan == [] then slot else Some(BYTE_INFO),
                    recs, records', mid, after, |perFan|, iterations, e)
  }

  // ---- composing --------------------------------------------------------------------------

  lemma {:induction false} SampledReadsOnly(before: seq<Exchange>, after: seq<Exchange>, fan: nat, samples: seq<real>)
    requires Sampled(before, after, fan, samples)
    ensures ReadsOnly(before, after)
    decreases |samples|
  {
    if samples != [] {
      var n := |samples| - 1;
      var mid: seq<Exchange> :| Sampled(before, mid, fan, samples[..n]) && Reading(mid, after, fan, samples[n]);
      SampledReadsOnly(before, mid, fan, samples[..n]);
    }
  }

  lemma SampledMore(before: seq<Exchange>, mid: seq<Exchange>, after: seq<Exchange>, fan: nat, samples: seq<real>,
                    v: real)
    requires Sampled(before, mid, fan, samples) && Reading(mid, after, fan, v)
    ensures Sampled(before, after, fan, samples + [v])
  {
    assert (samples + [v])[..|samples|] == samples;
  }

  lemma TestedMore(before: seq<Exchange>, mid: seq<Exchange>, after: seq<Exchange>, records: seq<Record>, fan: nat,
                   samples: seq<IterationSample>, down: Record, up: Record, sample: IterationSample)
    requires Tested(before, mid, records, fan, samples) && Iterated(mid, after, fan, down, up, sample)
    requires sample.iteration == |samples|
    ensures Tested(before, after, records + [down, up], fan, samples + [sample])
  {
    hide Iterated;
    var longer := records + [down, up];
    assert longer[..|records|] == records && longer[|records|] == down && longer[|records| + 1] == up;
    assert (samples + [sample])[..|samples|] == samples;
  }

  // What an accepted and read-back mode write leaves, and the window after it.
  lemma NowEngaged(records: seq<Record>, records': seq<Record>, before: seq<Exchange>, written: seq<Exchange>,
                   after: seq<Exchange>, fan: nat, mode: Byte, samples: seq<real>)
    requires Recorded(records, records', before, written, ModeKey(fan), TYPE_UI8, [mode], Ok(()))
    requires Sampled(written, after, fan, samples) && |samples| == SAMPLES_PER_HOLD
    ensures Engaged(before, after, fan, mode, records'[|records|], samples)
  {
    hide Sampled, ReadBack;
  }

  lemma NoneTested(log: seq<Exchange>, fan: nat)
    ensures Tested(log, log, [], fan, [])
  {
  }

  lemma NoneRan(log: seq<Exchange>, iterations: nat)
    ensures Ran(log, log, [], [], iterations)
  {
  }

  // The ring's history goes on from where it was.
  lemma Appended<T>(start: seq<T>, mid: seq<T>, after: seq<T>)
    requires start <= mid <= after
    ensures after[|start|..] == mid[|start|..] + after[|mid|..]
    ensures |after| == |mid| + 2 ==> after[|start|..] == mid[|start|..] + [after[|mid|], after[|mid| + 1]]
  {
  }

  // ---- consequences -----------------------------------------------------------------------

  ghost predicate AllMatch(records: seq<Record>) {
    forall k :: 0 <= k < |records| ==> records[k].outcome == Match
  }

  lemma IteratedMatches(before: seq<Exchange>, after: seq<Exchange>, fan: nat, down: Record, up: Record,
                        sample: IterationSample)
    requires Iterated(before, after, fan, down, up, sample)
    ensures Shows(down, fan, 1) && Shows(up, fan, 0)
  {
  }

  lemma {:induction false} TestedMatches(before: seq<Exchange>, after: seq<Exchange>, records: seq<Record>, fan: nat,
                                         samples: seq<IterationSample>)
    requires Tested(before, after, records, fan, samples)
    ensures AllMatch(records)
    decreases |samples|
  {
    hide Iterated;
    if samples != [] {
      var n := |samples| - 1;
      var mid: seq<Exchange> :|
        && Tested(before, mid, records[..2 * n], fan, samples[..n])
        && Iterated(mid, after, fan, records[2 * n], records[2 * n + 1], samples[n]);
      TestedMatches(before, mid, records[..2 * n], fan, samples[..n]);
      IteratedMatches(mid, after, fan, records[2 * n], records[2 * n + 1], samples[n]);
      forall k | 0 <= k < |records| ensures records[k].outcome == Match {
        assert k < 2 * n ==> records[..2 * n][k] == records[k];
      }
    }
  }

  // While the mode register could only hold `mode`, the SMC gave `v` as the fan's speed.
  ghost predicate ReportedIn(log: seq<Exchange>, fan: nat, mode: Byte, v: real) {
    exists i :: 0 <= i < |log| && ReportedAt(log, fan, mode, v, i)
  }

  ghost predicate ReportedAt(log: seq<Exchange>, fan: nat, mode: Byte, v: real, i: nat)
    requires i < |log|
  {
    && (forall w: Byte :: MayHold(log[..i], ModeKey(fan), w) <==> w == mode)
    && log[i].req == ReadKey(ActualKey(fan), 4, TYPE_FLT) && Succeeded(log[i].reply)
    && IsFinite(log[i].reply.bytes[..4]) && Decoded(log[i].reply.bytes[..4]) == v
  }

  // A reading that was not given by the SMC in its mode counts as 0.
  ghost predicate GivenOrZero(log: seq<Exchange>, fan: nat, mode: Byte, v: real) {
    v == 0.0 || ReportedIn(log, fan, mode, v)
  }

  lemma StillGiven(log: seq<Exchange>, later: seq<Exchange>, fan: nat, mode: Byte, v: real)
    requires log <= later && GivenOrZero(log, fan, mode, v)
    ensures GivenOrZero(later, fan, mode, v)
  {
    if v != 0.0 {
      var i :| 0 <= i < |log| && ReportedAt(log, fan, mode, v, i);
      assert later[..i] == log[..i] && later[i] == log[i];
      assert ReportedAt(later, fan, mode, v, i);
    }
  }

  lemma ReadingGiven(pinned: seq<Exchange>, before: seq<Exchange>, after: seq<Exchange>, fan: nat, mode: Byte, v: real)
    requires ReadsOnly(pinned, before) && Reading(before, after, fan, v)
    requires forall w: Byte :: MayHold(pinned, ModeKey(fan), w) <==> w == mode
    ensures GivenOrZero(after, fan, mode, v)
  {
    if FloatRead(before, after, ActualKey(fan)).Some? {
      var i := |after| - 1;
      assert ReadsOnly(pinned, after[..i]) by {
        assert pinned <= before <= after[..i];
      }
      forall w: Byte ensures MayHold(after[..i], ModeKey(fan), w) <==> w == mode {
        AfterReads(pinned, after[..i], ModeKey(fan), w);
      }
      assert ReportedAt(after, fan, mode, v, i);
    }
  }

  lemma {:induction false} SamplesGiven(before: seq<Exchange>, after: seq<Exchange>, fan: nat, mode: Byte,
                                        samples: seq<real>)
    requires Sampled(before, after, fan, samples)
    requires forall w: Byte :: MayHold(before, ModeKey(fan), w) <==> w == mode
    ensures forall k :: 0 <= k < |samples| ==> GivenOrZero(after, fan, mode, samples[k])
    decreases |samples|
  {
    if samples != [] {
      var n := |samples| - 1;
      var mid: seq<Exchange> :| Sampled(before, mid, fan, samples[..n]) && Reading(mid, after, fan, samples[n]);
      SamplesGiven(before, mid, fan, mode, samples[..n]);
      SampledReadsOnly(before, mid, fan, samples[..n]);
      ReadingGiven(before, mid, after, fan, mode, samples[n]);
      forall k | 0 <= k < n ensures GivenOrZero(after, fan, mode, samples[k]) {
        assert samples[..n][k] == samples[k];
        StillGiven(mid, after, fan, mode, samples[k]);
      }
    }
  }

  lemma EngagedPins(before: seq<Exchange>, after: seq<Exchange>, fan: nat, mode: Byte, rec: Record, samples: seq<real>)
    requires Engaged(before, after, fan, mode, rec, samples)
    ensures before <= after
    ensures forall w: Byte :: MayHold(after, ModeKey(fan), w) <==> w == mode
    ensures forall k :: 0 <= k < |samples| ==> GivenOrZero(after, fan, mode, samples[k])
  {
    var wrote, checked :|
      && ReadBack(before, wrote, checked, ModeKey(fan), TYPE_UI8, [mode], Some([mode]))
      && Sampled(checked, after, fan, samples);
    forall w: Byte ensures MayHold(checked, ModeKey(fan), w) <==> w == mode {
      Pinned(wrote, checked, ModeKey(fan), mode, w);
    }
    SampledReadsOnly(checked, after, fan, samples);
    forall w: Byte ensures MayHold(after, ModeKey(fan), w) <==> w == mode {
      AfterReads(checked, after, ModeKey(fan), w);
    }
    SamplesGiven(checked, after, fan, mode, samples);
  }

  // What is filed as read at forced minimum was read there or failed, and likewise for automatic.
  ghost predicate Honest(log: seq<Exchange>, fan: nat, samples: seq<IterationSample>) {
    && (forall k :: 0 <= k < |MinReadings(samples)| ==> GivenOrZero(log, fan, 1, MinReadings(samples)[k]))
    && (forall k :: 0 <= k < |AutoReadings(samples)| ==> GivenOrZero(log, fan, 0, AutoReadings(samples)[k]))
  }

  lemma IteratedHonest(before: seq<Exchange>, after: seq<Exchange>, fan: nat, down: Record, up: Record,
                       sample: IterationSample)
    requires Iterated(before, after, fan, down, up, sample)
    ensures before <= after && |sample.minSamples| == |sample.autoSamples| == SAMPLES_PER_HOLD
    ensures forall k :: 0 <= k < |sample.minSamples| ==> GivenOrZero(after, fan, 1, sample.minSamples[k])
    ensures forall k :: 0 <= k < |sample.autoSamples| ==> GivenOrZero(after, fan, 0, sample.autoSamples[k])
    ensures Cleared(after, ModeKey(fan))
  {
    var mid :|
      && Engaged(before, mid, fan, 1, down, sample.minSamples)
      && Engaged(mid, after, fan, 0, up, sample.autoSamples);
    EngagedPins(before, mid, fan, 1, down, sample.minSamples);
    EngagedPins(mid, after, fan, 0, up, sample.autoSamples);
    forall k | 0 <= k < |sample.minSamples| ensures GivenOrZero(after, fan, 1, sample.minSamples[k]) {
      StillGiven(mid, after, fan, 1, sample.minSamples[k]);
    }
  }

  lemma {:induction false} ReadingsGrow(samples: seq<IterationSample>, sample: IterationSample)
    ensures MinReadings(samples + [sample]) == MinReadings(samples) + sample.minSamples
    ensures AutoReadings(samples + [sample]) == AutoReadings(samples) + sample.autoSamples
  {
    if samples == [] {
      assert samples + [sample] == [sample];
    } else {
      ReadingsGrow(samples[1..], sample);
      assert (samples + [sample])[1..] == samples[1..] + [sample];
    }
  }

  lemma {:induction false} TestedHonest(before: seq<Exchange>, after: seq<Exchange>, records: seq<Record>, fan: nat,
                                        samples: seq<IterationSample>)
    requires Tested(before, after, records, fan, samples)
    ensures before <= after && Honest(after, fan, samples)
    ensures |MinReadings(samples)| == |AutoReadings(samples)| == SAMPLES_PER_HOLD * |samples|
    ensures samples != [] ==> Cleared(after, ModeKey(fan))
    decreases |samples|
  {
    hide Iterated;
    if samples != [] {
      var n := |samples| - 1;
      var mid: seq<Exchange> :|
        && Tested(before, mid, records[..2 * n], fan, samples[..n])
        && Iterated(mid, after, fan, records[2 * n], records[2 * n + 1], samples[n]);
      TestedHonest(before, mid, records[..2 * n], fan, samples[..n]);
      IteratedHonest(mid, after, fan, records[2 * n], records[2 * n + 1], samples[n]);
      HonestGrows(mid, after, fan, samples[..n], samples[n]);
      assert samples == samples[..n] + [samples[n]];
    }
  }

  // A fan that has been tested is automatic again, if it was before.
  lemma TestedEndsAuto(before: seq<Exchange>, after: seq<Exchange>, records: seq<Record>, fan: nat,
                       samples: seq<IterationSample>, n: nat)
    requires Tested(before, after, records, fan, samples) && AllAuto(before, n) && OthersAuto(after, n, fan)
    ensures AllAuto(after, n)
  {
    hide Iterated, Cleared;
    TestedHonest(before, after, records, fan, samples);
    if samples == [] {
      assert after == before;
    }
  }

  lemma HonestGrows(log: seq<Exchange>, later: seq<Exchange>, fan: nat, samples: seq<IterationSample>,
                    sample: IterationSample)
    requires log <= later && Honest(log, fan, samples)
    requires |MinReadings(samples)| == |AutoReadings(samples)| == SAMPLES_PER_HOLD * |samples|
    requires |sample.minSamples| == |sample.autoSamples| == SAMPLES_PER_HOLD
    requires forall k :: 0 <= k < |sample.minSamples| ==> GivenOrZero(later, fan, 1, sample.minSamples[k])
    requires forall k :: 0 <= k < |sample.autoSamples| ==> GivenOrZero(later, fan, 0, sample.autoSamples[k])
    ensures Honest(later, fan, samples + [sample])
    ensures |MinReadings(samples + [sample])| == SAMPLES_PER_HOLD * (|samples| + 1)
    ensures |AutoReadings(samples + [sample])| == SAMPLES_PER_HOLD * (|samples| + 1)
  {
    ReadingsGrow(samples, sample);
    forall k | 0 <= k < |MinReadings(samples)| ensures GivenOrZero(later, fan, 1, MinReadings(samples)[k]) {
      StillGiven(log, later, fan, 1, MinReadings(samples)[k]);
    }
    forall k | 0 <= k < |AutoReadings(samples)| ensures GivenOrZero(later, fan, 0, AutoReadings(samples)[k]) {
      StillGiven(log, later, fan, 0, AutoReadings(samples)[k]);
    }
  }

  // ---- the run over all fans --------------------------------------------------------------

  // Nothing asked of the fan was skipped, and nothing went wrong on the way.
  ghost predicate Conserved(report: FanReport, fan: nat, iterations: nat) {
    && report.fanIndex == fan && report.iterationsCompleted == iterations && report.iterationsRequested == iterations
    && report.roundTripCount == 2 * iterations && report.mismatchCount == 0 && FromClassifyFan(report)
    && |report.samples| == iterations
  }

  // Fan after fan, with the records each left.
  ghost predicate Ran(before: seq<Exchange>, after: seq<Exchange>, records: seq<Record>, perFan: seq<FanReport>,
                      iterations: nat)
    decreases |perFan|
  {
    if perFan == [] then after == before && records == []
    else
      var n := |perFan| - 1;
      && Conserved(perFan[n], n, iterations) && |records| >= 2 * iterations
      && var done := |records| - 2 * iterations;
         exists mid: seq<Exchange> ::
           && Ran(before, mid, records[..done], perFan[..n], iterations)
           && Tested(mid, after, records[done..], n, perFan[n].samples)
  }

  lemma RanMore(before: seq<Exchange>, mid: seq<Exchange>, after: seq<Exchange>, records: seq<Record>,
                more: seq<Record>, perFan: seq<FanReport>, report: FanReport, iterations: nat)
    requires Ran(before, mid, records, perFan, iterations) && Tested(mid, after, more, |perFan|, report.samples)
    requires Conserved(report, |perFan|, iterations)
    ensures Ran(before, after, records + more, perFan + [report], iterations)
  {
    hide Iterated;
    assert |more| == 2 * iterations;
    assert (records + more)[..|records|] == records && (records + more)[|records|..] == more;
    assert (perFan + [report])[..|perFan|] == perFan;
  }

  lemma NextMultiple(m: nat, n: nat)
    requires n > 0
    ensures m * n == m * (n - 1) + m
  {
  }

  // Conservation: every fan is accounted for, the ring grew by exactly two matching records for each
  // iteration of each fan, and every reading is one the SMC gave in its mode, or failed and counts 0.
  lemma {:induction false} RanConserves(before: seq<Exchange>, after: seq<Exchange>, records: seq<Record>,
                                        perFan: seq<FanReport>, iterations: nat)
    requires Ran(before, after, records, perFan, iterations)
    ensures before <= after && |records| == 2 * iterations * |perFan| && AllMatch(records)
    ensures forall k :: 0 <= k < |perFan| ==>
              && Conserved(perFan[k], k, iterations) && Honest(after, k, perFan[k].samples)
              && |MinReadings(perFan[k].samples)| == SAMPLES_PER_HOLD * iterations
              && |AutoReadings(perFan[k].samples)| == SAMPLES_PER_HOLD * iterations
    decreases |perFan|
  {
    hide Tested, Honest, FromClassifyFan;
    if perFan != [] {
      var n := |perFan| - 1;
      var done := |records| - 2 * iterations;
      var mid: seq<Exchange> :|
        && Ran(before, mid, records[..done], perFan[..n], iterations)
        && Tested(mid, after, records[done..], n, perFan[n].samples);
      RanConserves(before, mid, records[..done], perFan[..n], iterations);
      TestedMatches(mid, after, records[done..], n, perFan[n].samples);
      TestedHonest(mid, after, records[done..], n, perFan[n].samples);
      NextMultiple(2 * iterations, |perFan|);
      forall k | 0 <= k < |records| ensures records[k].outcome == Match {
        assert k < done ==> records[..done][k] == records[k];
        assert k >= done ==> records[done..][k - done] == records[k];
      }
      forall k | 0 <= k < n ensures Conserved(perFan[k], k, iterations) && Honest(after, k, perFan[k].samples) {
        assert perFan[..n][k] == perFan[k];
        StaysHonest(mid, after, k, perFan[k].samples);
      }
    }
  }

  lemma StaysHonest(log: seq<Exchange>, later: seq<Exchange>, fan: nat, samples: seq<IterationSample>)
    requires log <= later && Honest(log, fan, samples)
    ensures Honest(later, fan, samples)
  {
    forall k | 0 <= k < |MinReadings(samples)| ensures GivenOrZero(later, fan, 1, MinReadings(samples)[k]) {
      StillGiven(log, later, fan, 1, MinReadings(samples)[k]);
    }
    forall k | 0 <= k < |AutoReadings(samples)| ensures GivenOrZero(later, fan, 0, AutoReadings(samples)[k]) {
      StillGiven(log, later, fan, 0, AutoReadings(samples)[k]);
    }
  }

  // ---- every record of a self-test tells the truth ------------------------------------------

  lemma EngagedTold(before: seq<Exchange>, after: seq<Exchange>, fan: nat, mode: Byte, rec: Record, samples: seq<real>)
    requires Engaged(before, after, fan, mode, rec, samples)
    ensures Told(before, after, [rec])
  {
    hide Sampled;
    var wrote, checked :|
      && ReadBack(before, wrote, checked, ModeKey(fan), TYPE_UI8, [mode], Some([mode]))
      && Sampled(checked, after, fan, samples);
    SampledReadsOnly(checked, after, fan, samples);
    ToldMore(before, before, checked, [], rec);
    assert [] + [rec] == [rec];
    ToldLater(before, checked, after, [rec]);
  }

  lemma IteratedTold(before: seq<Exchange>, after: seq<Exchange>, fan: nat, down: Record, up: Record,
                     sample: IterationSample)
    requires Iterated(before, after, fan, down, up, sample)
    ensures Told(before, after, [down, up])
  {
    hide Engaged, Told;
    var mid :|
      && Engaged(before, mid, fan, 1, down, sample.minSamples)
      && Engaged(mid, after, fan, 0, up, sample.autoSamples);
    EngagedTold(before, mid, fan, 1, down, sample.minSamples);
    EngagedTold(mid, after, fan, 0, up, sample.autoSamples);
    ToldJoins(before, mid, after, [down], [up]);
    assert [down] + [up] == [down, up];
  }

  lemma LastTwo(records: seq<Record>, k: nat)
    requires |records| == k + 2
    ensures records[..k] + [records[k], records[k + 1]] == records
  {
  }

  lemma {:induction false} TestedTold(before: seq<Exchange>, after: seq<Exchange>, records: seq<Record>, fan: nat,
                                      samples: seq<IterationSample>)
    requires Tested(before, after, records, fan, samples)
    ensures Told(before, after, records)
    decreases |samples|
  {
    hide Iterated;
    if samples == [] {
      assert records == [];
    } else {
      hide Told;
      var n := |samples| - 1;
      var mid: seq<Exchange> :|
        && Tested(before, mid, records[..2 * n], fan, samples[..n])
        && Iterated(mid, after, fan, records[2 * n], records[2 * n + 1], samples[n]);
      TestedTold(before, mid, records[..2 * n], fan, samples[..n]);
      IteratedTold(mid, after, fan, records[2 * n], records[2 * n + 1], samples[n]);
      ToldJoins(before, mid, after, records[..2 * n], [records[2 * n], records[2 * n + 1]]);
      LastTwo(records, 2 * n);
    }
  }

  lemma {:induction false} RanTold(before: seq<Exchange>, after: seq<Exchange>, records: seq<Record>,
                                   perFan: seq<FanReport>, iterations: nat)
    requires Ran(before, after, records, perFan, iterations)
    ensures Told(before, after, records)
    decreases |perFan|
  {
    hide Tested, Conserved;
    if perFan != [] {
      hide Told;
      var n := |perFan| - 1;
      var done := |records| - 2 * iterations;
      var mid: seq<Exchange> :|
        && Ran(before, mid, records[..done], perFan[..n], iterations)
        && Tested(mid, after, records[done..], n, perFan[n].samples);
      RanTold(before, mid, records[..done], perFan[..n], iterations);
      TestedTold(mid, after, records[done..], n, perFan[n].samples);
      ToldJoins(before, mid, after, records[..done], records[done..]);
      assert records[..done] + records[done..] == records;
    }
  }

  lemma IterationFailedGrown(kernel: Kernel, open: bool, slot: Option<KeyInfo>, records: seq<Record>,
                             records': seq<Record>, before: seq<Exchange>, after: seq<Exchange>, fan: nat, e: SmcError)
    requires IterationFailed(kernel, open, slot, records, records', before, after, fan, e)
    ensures Grown(records, records', before, after)
  {
    hide Engaged, Recorded, Told, Attempt;
    if EngageFailed(kernel, open, slot, records, records', before, after, fan, 1, e) {
      OneAdded(records, records', before, after, ModeKey(fan), [1], Err(e));
    } else {
      var mid, recs, samples :|
        && |recs| == |records| + 1 && records <= recs
        && Engaged(before, mid, fan, 1, recs[|records|], samples)
        && EngageFailed(kernel, open, Some(BYTE_INFO), recs, records', mid, after, fan, 0, e);
      EngagedTold(before, mid, fan, 1, recs[|records|], samples);
      assert recs[|records|..] == [recs[|records|]];
      OneAdded(recs, records', mid, after, ModeKey(fan), [0], Err(e));
      GrownJoins(records, recs, records', before, mid, after);
    }
  }

  lemma TestFailedGrown(kernel: Kernel, open: bool, slot: Option<KeyInfo>, records: seq<Record>,
                        records': seq<Record>, before: seq<Exchange>, after: seq<Exchange>, fan: nat, iterations: nat,
                        e: SmcError)
    requires TestFailed(kernel, open, slot, records, records', before, after, fan, iterations, e)
    ensures Grown(records, records', before, after)
  {
    hide Tested, IterationFailed, Told;
    var mid, recs, samples :|
      && records <= recs && |samples| < iterations
      && Tested(before, mid, recs[|records|..], fan, samples)
      && IterationFailed(kernel, open, if samples == [] then slot else Some(BYTE_INFO),
                         recs, records', mid, after, fan, e);
    TestedTold(before, mid, recs[|records|..], fan, samples);
    IterationFailedGrown(kernel, open, if samples == [] then slot else Some(BYTE_INFO),
                         recs, records', mid, after, fan, e);
    GrownJoins(records, recs, records', before, mid, after);
  }

  lemma RunFailedGrown(kernel: Kernel, open: bool, slot: Option<KeyInfo>, records: seq<Record>,
                       records': seq<Record>, before: seq<Exchange>, after: seq<Exchange>, fans: nat, iterations: nat,
                       e: SmcError)
    requires RunFailed(kernel, open, slot, records, records', before, after, fans, iterations, e)
    ensures Grown(records, records', before, after)
  {
    hide Ran, TestFailed, Told;
    var mid, recs, perFan :|
      && records <= recs && |perFan| < fans
      && Ran(before, mid, recs[|records|..], perFan, iterations)
      && TestFailed(kernel, open, if perFan == [] then slot else Some(BYTE_INFO),
                    recs, records', mid, after, |perFan|, iterations, e);
    RanTold(before, mid, recs[|records|..], perFan, iterations);
    TestFailedGrown(kernel, open, if perFan == [] then slot else Some(BYTE_INFO),
                    recs, records', mid, after, |perFan|, iterations, e);
    GrownJoins(records, recs, records', before, mid, after);
  }

  // ---- verdicts ---------------------------------------------------------------------------

  // The verdict on a run that came back: no mismatch, and a pass only if every fan passes.
  lemma SelftestVerdict(perFan: seq<FanReport>, iterations: nat)
    requires forall k :: 0 <= k < |perFan| ==> Conserved(perFan[k], k, iterations)
    ensures Classify(perFan).totalMismatches == 0
    ensures Classify(perFan).totalIterations == iterations * |perFan|
    ensures Classify(perFan).totalRoundTrips == 2 * iterations * |perFan|
    ensures Classify(perFan).overall == Pass <==> forall k :: 0 <= k < |perFan| ==> perFan[k].result == Pass
  {
    SumConstant(perFan, (f: FanReport) => f.iterationsCompleted, iterations);
    SumConstant(perFan, (f: FanReport) => f.roundTripCount, 2 * iterations);
    SumZero(perFan, (f: FanReport) => f.mismatchCount);
    OverallPassIff(perFan);
  }

  // The readings the SMC did not give in the mode they are filed under: they failed.
  ghost function Failed(log: seq<Exchange>, fan: nat, mode: Byte, readings: seq<real>): (bad: set<nat>)
    ensures forall k :: k in bad <==> 0 <= k < |readings| && !ReportedIn(log, fan, mode, readings[k])
  {
    set k: nat | k < |readings| && !ReportedIn(log, fan, mode, readings[k])
  }

  // A passing fan whose failed readings stand alike in both modes (both under half, both at half or both
  // over) was given, by the SMC, an automatic speed at least 500 RPM above a speed at forced minimum. By
  // Selftest.ReliableIff no weaker condition on the failures is enough.
  lemma PassMeansReportedFaster(log: seq<Exchange>, report: FanReport, fan: nat, iterations: nat)
    requires Conserved(report, fan, iterations) && report.result == Pass && Honest(log, fan, report.samples)
    requires |MinReadings(report.samples)| == |AutoReadings(report.samples)| == SAMPLES_PER_HOLD * iterations
    requires var n := SAMPLES_PER_HOLD * iterations;
             ShareOf(Failed(log, fan, 0, AutoReadings(report.samples)), n)
             == ShareOf(Failed(log, fan, 1, MinReadings(report.samples)), n)
    ensures exists a, m :: ReportedIn(log, fan, 0, a) && ReportedIn(log, fan, 1, m) && a >= m + 500.0
  {
    hide ReportedIn;
    var mins, autos := MinReadings(report.samples), AutoReadings(report.samples);
    var badMin, badAuto := Failed(log, fan, 1, mins), Failed(log, fan, 0, autos);
    assert forall k :: 0 <= k < |mins| ==> GivenOrZero(log, fan, 1, mins[k]);
    assert forall k :: 0 <= k < |autos| ==> GivenOrZero(log, fan, 0, autos[k]);
    PassBorne(autos, badAuto, mins, badMin);
    var i, j :|
      && 0 <= i < |autos| && i !in badAuto && 0 <= j < |mins| && j !in badMin
      && autos[i] >= mins[j] + DELTA_THRESHOLD_RPM;
    assert ReportedIn(log, fan, 0, autos[i]) && ReportedIn(log, fan, 1, mins[j]);
  }

  // Five failed readings at forced minimum, and 2300 RPM under automatic, pass.
  lemma FailedReadingsPass()
    ensures var sample := ClassifyIteration(0, [2300.0, 2300.0, 2300.0, 2300.0, 2300.0], [0.0, 0.0, 0.0, 0.0, 0.0]);
            ClassifyFan(0, 1, 1, 2, 0, [sample]).result == Pass
  {
    var up, down := [2300.0, 2300.0, 2300.0, 2300.0, 2300.0], [0.0, 0.0, 0.0, 0.0, 0.0];
    var sample := ClassifyIteration(0, up, down);
    MedianRobust(up, {}, 2300.0, 2300.0);
    MedianRobust(down, {}, 0.0, 0.0);
    assert MinReadings([sample]) == down && AutoReadings([sample]) == up by {
      assert [sample][1..] == [];
    }
  }
}
