/** src/smc/round_trip.rs: the record of one write and read-back, and the 256-slot ring that
    remembers the latest of them. */
module Ring {
  import opened SmcTypes

  const CAPACITY := 256
  const U64_MAX: nat := 0xFFFF_FFFF_FFFF_FFFF

  datatype Outcome = Match | WriteFailed | ReadbackFailed | Mismatch

  type Quad = s: seq<Byte> | |s| == 4 witness [0, 0, 0, 0]

  datatype Record = Record(timestamp: nat, fourcc: nat, writtenBytes: Quad, readbackBytes: Quad,
                           writtenLen: Byte, readbackLen: Byte, outcome: Outcome)
  {
    // What a reader of the record sees.
    function Written(): seq<Byte>
      requires writtenLen <= 4
    {
      writtenBytes[..writtenLen]
    }

    function Readback(): seq<Byte>
      requires readbackLen <= 4
    {
      readbackBytes[..readbackLen]
    }
  }

  function Least(a: nat, b: nat): nat { if a <= b then a else b }

  function Pad(s: seq<Byte>): Quad {
    var kept := if |s| <= 4 then s else s[..4];
    kept + seq(4 - |kept|, _ => 0)
  }

  function NewRecord(timestamp: nat, fourcc: nat, written: seq<Byte>, readback: seq<Byte>, outcome: Outcome): Record {
    Record(timestamp, fourcc, Pad(written), Pad(readback), Least(|written|, 4), Least(|readback|, 4), outcome)
  }

  // Payloads of up to four bytes are kept whole; longer ones lose everything past the fourth.
  lemma RecordKeeps(timestamp: nat, fourcc: nat, written: seq<Byte>, readback: seq<Byte>, outcome: Outcome)
    ensures var r := NewRecord(timestamp, fourcc, written, readback, outcome);
            && r.writtenLen <= 4 && r.readbackLen <= 4
            && r.Written() <= written && r.Readback() <= readback
            && (r.Written() == written <==> |written| <= 4)
            && (r.Readback() == readback <==> |readback| <= 4)
  {
    var r := NewRecord(timestamp, fourcc, written, readback, outcome);
    assert r.Written() == if |written| <= 4 then written else written[..4];
    assert r.Readback() == if |readback| <= 4 then readback else readback[..4];
  }

  // The last `n` entries of a history, oldest first.
  function LastOf<T>(history: seq<T>, n: nat): (tail: seq<T>)
    ensures |tail| == Least(n, |history|)
  {
    history[|history| - Least(n, |history|)..]
  }

  // The `i`-th of the last `take` of `pushed` records sits where the reader looks for it.
  lemma SlotOf(pushed: nat, take: nat, i: nat)
    requires i < take <= CAPACITY && take <= pushed
    ensures ((pushed % CAPACITY + CAPACITY - take) % CAPACITY + i) % CAPACITY == (pushed - take + i) % CAPACITY
  {
  }

  class RoundTripRing {
    const records: array<Record>
    var next: nat
    var count: nat
    // Every record ever pushed.
    ghost var history: seq<Record>

    ghost predicate Valid()
      reads this, records
    {
      && records.Length == CAPACITY
      && next == |history| % CAPACITY
      && count == Least(|history|, U64_MAX)
      && forall k :: |history| - CAPACITY <= k < |history| && 0 <= k ==> records[k % CAPACITY] == history[k]
    }

    constructor ()
      ensures Valid() && history == [] && fresh(records)
    {
      records := new Record[CAPACITY](_ => Record(0, 0, [0, 0, 0, 0], [0, 0, 0, 0], 0, 0, Match));
      next := 0;
      count := 0;
      history := [];
    }

    method Push(record: Record)
      requires Valid()
      modifies this, records
      ensures Valid() && history == old(history) + [record]
    {
      records[next] := record;
      next := (next + 1) % CAPACITY;
      count := if count == U64_MAX then U64_MAX else count + 1;
      history := history + [record];
    }

    // The latest records, oldest first, whatever has been pushed and however often the ring wrapped.
    method Recent(n: nat) returns (latest: seq<Record>)
      requires Valid()
      ensures latest == LastOf(history, Least(n, 256))
      ensures |latest| <= |history| && latest == history[|history| - |latest|..]
    {
      var available := if count < CAPACITY then count else CAPACITY;
      var take := if n < available then n else available;
      var start := (next + CAPACITY - take) % CAPACITY;
      latest := [];
      for i := 0 to take
        invariant |latest| == i
        invariant forall j :: 0 <= j < i ==> latest[j] == history[|history| - take + j]
      {
        SlotOf(|history|, take, i);
        assert records[(|history| - take + i) % CAPACITY] == history[|history| - take + i];
        latest := latest + [records[(start + i) % CAPACITY]];
      }
      assert latest == LastOf(history, take);
    }
  }
}
