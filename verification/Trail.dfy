/** The record ring against the conversation: every record stands for a stretch of its own in which
    the SMC did what the record says, and the stretches follow each other in the order of the records. */
module Trail {
  import opened Floats
  import opened Registers
  import opened Ring
  import opened SmcConnection
  import opened SmcTypes

  ghost predicate Told(before: seq<Exchange>, after: seq<Exchange>, records: seq<Record>)
    decreases |records|
  {
    if records == [] then before <= after
    else
      var n := |records| - 1;
      exists a, b :: Told(before, a, records[..n]) && a <= b <= after && Tells(a, b, records[n], TYPE_UI8)
  }

  // The ring only grew, by records of what has happened since.
  ghost predicate Grown(records: seq<Record>, records': seq<Record>, before: seq<Exchange>, after: seq<Exchange>) {
    records <= records' && Told(before, after, records'[|records|..])
  }

  lemma {:induction false} ToldGrows(before: seq<Exchange>, after: seq<Exchange>, records: seq<Record>)
    requires Told(before, after, records)
    ensures before <= after
    decreases |records|
  {
    hide Tells;
    if records != [] {
      var n := |records| - 1;
      var a, b :| Told(before, a, records[..n]) && a <= b <= after && Tells(a, b, records[n], TYPE_UI8);
      ToldGrows(before, a, records[..n]);
    }
  }

  lemma ToldLater(before: seq<Exchange>, after: seq<Exchange>, later: seq<Exchange>, records: seq<Record>)
    requires Told(before, after, records) && after <= later
    ensures Told(before, later, records)
  {
    hide Tells;
    if records != [] {
      var n := |records| - 1;
      var a, b :| Told(before, a, records[..n]) && a <= b <= after && Tells(a, b, records[n], TYPE_UI8);
      assert b <= later;
    }
  }

  lemma ToldMore(before: seq<Exchange>, a: seq<Exchange>, b: seq<Exchange>, records: seq<Record>, rec: Record)
    requires Told(before, a, records) && a <= b && Tells(a, b, rec, TYPE_UI8)
    ensures Told(before, b, records + [rec])
  {
    hide Tells;
    var longer := records + [rec];
    assert longer[..|records|] == records && longer[|records|] == rec;
    assert Told(before, a, longer[..|records|]) && a <= b <= b && Tells(a, b, longer[|records|], TYPE_UI8);
  }

  lemma {:induction false} ToldJoins(before: seq<Exchange>, mid: seq<Exchange>, after: seq<Exchange>,
                                     xs: seq<Record>, ys: seq<Record>)
    requires Told(before, mid, xs) && Told(mid, after, ys)
    ensures Told(before, after, xs + ys)
    decreases |ys|
  {
    hide Tells;
    if ys == [] {
      assert xs + ys == xs;
      ToldLater(before, mid, after, xs);
    } else {
      var n := |ys| - 1;
      var a, b :| Told(mid, a, ys[..n]) && a <= b <= after && Tells(a, b, ys[n], TYPE_UI8);
      ToldJoins(before, mid, a, xs, ys[..n]);
      ToldMore(before, a, b, xs + ys[..n], ys[n]);
      assert xs + ys[..n] + [ys[n]] == xs + ys;
      ToldLater(before, b, after, xs + ys);
    }
  }

  // Every record tells what happened in some stretch since `before`, and its outcome is exact: Match
  // exactly if the write was accepted and read back equal, Mismatch exactly if it was read back different.
  lemma {:induction false} ToldExactly(before: seq<Exchange>, after: seq<Exchange>, records: seq<Record>, k: nat)
    requires Told(before, after, records) && k < |records|
    ensures exists a, b ::
              && before <= a <= b <= after
              && Tells(a, b, records[k], TYPE_UI8) && Exact(a, b, records[k], TYPE_UI8)
    decreases |records|
  {
    hide Tells, Exact;
    var n := |records| - 1;
    var a, b :| Told(before, a, records[..n]) && a <= b <= after && Tells(a, b, records[n], TYPE_UI8);
    if k == n {
      ToldGrows(before, a, records[..n]);
      OutcomeExact(a, b, records[n], TYPE_UI8);
    } else {
      ToldExactly(before, a, records[..n], k);
      assert records[..n][k] == records[k];
      var c, d :| before <= c <= d <= a && Tells(c, d, records[k], TYPE_UI8) && Exact(c, d, records[k], TYPE_UI8);
    }
  }

  lemma TellsOnwards(before: seq<Exchange>, after: seq<Exchange>, rec: Record, typ: nat)
    requires Tells(before, after, rec, typ)
    ensures before <= after
  {
  }

  // ---- rings ------------------------------------------------------------------------------

  lemma NothingAdded(records: seq<Record>, before: seq<Exchange>, after: seq<Exchange>)
    requires before <= after
    ensures Grown(records, records, before, after)
  {
    assert records[|records|..] == [];
  }

  // One verified write.
  lemma OneAdded(records: seq<Record>, records': seq<Record>, before: seq<Exchange>, after: seq<Exchange>,
                 key: nat, written: seq<Byte>, r: Result<()>)
    requires Recorded(records, records', before, after, key, TYPE_UI8, written, r)
    ensures Grown(records, records', before, after)
  {
    TellsOnwards(before, after, records'[|records|], TYPE_UI8);
    hide Tells;
    assert records'[|records|..] == [records'[|records|]];
    ToldMore(before, before, after, [], records'[|records|]);
    assert [] + [records'[|records|]] == [records'[|records|]];
  }

  lemma GrownJoins(records: seq<Record>, recs: seq<Record>, records': seq<Record>,
                   before: seq<Exchange>, mid: seq<Exchange>, after: seq<Exchange>)
    requires Grown(records, recs, before, mid) && Grown(recs, records', mid, after)
    ensures Grown(records, records', before, after)
  {
    hide Told;
    ToldJoins(before, mid, after, recs[|records|..], records'[|recs|..]);
    assert recs[|records|..] + records'[|recs|..] == records'[|records|..];
  }

  // More may be said to the SMC before and after.
  lemma GrownWider(records: seq<Record>, records': seq<Record>, before: seq<Exchange>, a: seq<Exchange>,
                   b: seq<Exchange>, after: seq<Exchange>)
    requires before <= a && Grown(records, records', a, b) && b <= after
    ensures Grown(records, records', before, after)
  {
    hide Told;
    NothingAdded(records, before, a);
    GrownJoins(records, records, records', before, a, b);
    ToldLater(before, b, after, records'[|records|..]);
  }
}
