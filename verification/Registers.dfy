/** What a history of exchanges says about the one-byte registers it wrote. */
module Registers {
  import opened SmcTypes

  predicate Succeeded(r: Reply) {
    r.kr.KernSuccess? && r.result == 0
  }

  predicate Writes(x: Exchange, key: nat) {
    x.req.WriteKey? && x.req.key == key
  }

  // Register `key` may hold the one-byte value `v` after `log`, everything having been 0 at
  // the start. A write that reported failure may or may not have taken effect.
  ghost predicate MayHold(log: seq<Exchange>, key: nat, v: Byte) {
    if log == [] then v == 0
    else
      var x, before := log[|log| - 1], log[..|log| - 1];
      if Writes(x, key) then x.req.bytes == [v] || (!Succeeded(x.reply) && MayHold(before, key, v))
      else MayHold(before, key, v)
  }

  // The continuation asks but never writes.
  ghost predicate ReadsOnly(before: seq<Exchange>, after: seq<Exchange>) {
    before <= after && forall i :: |before| <= i < |after| ==> !after[i].req.WriteKey?
  }

  // The continuation writes nothing but `bytes` to `key`.
  ghost predicate WritesOnly(before: seq<Exchange>, after: seq<Exchange>, key: nat, bytes: seq<Byte>) {
    before <= after
    && forall i :: |before| <= i < |after| && after[i].req.WriteKey? ==>
         after[i].req.key == key && after[i].req.bytes == bytes
  }

  lemma WritesOnlyJoins(a: seq<Exchange>, b: seq<Exchange>, c: seq<Exchange>, key: nat, bytes: seq<Byte>)
    requires WritesOnly(a, b, key, bytes) && WritesOnly(b, c, key, bytes)
    ensures WritesOnly(a, c, key, bytes)
  {
    assert forall i :: 0 <= i < |b| ==> c[i] == b[i];
  }

  lemma {:induction false} AfterReads(before: seq<Exchange>, after: seq<Exchange>, key: nat, w: Byte)
    requires ReadsOnly(before, after)
    ensures MayHold(after, key, w) <==> MayHold(before, key, w)
    decreases |after|
  {
    if |after| == |before| {
      assert after == before;
    } else {
      var shorter := after[..|after| - 1];
      assert before <= shorter;
      AfterReads(before, shorter, key, w);
    }
  }

  // A write that reported success, followed by nothing but reads, pins the register.
  lemma Pinned(log: seq<Exchange>, after: seq<Exchange>, key: nat, v: Byte, w: Byte)
    requires log != [] && Writes(log[|log| - 1], key) && log[|log| - 1].req.bytes == [v]
    requires Succeeded(log[|log| - 1].reply) && ReadsOnly(log, after)
    ensures MayHold(after, key, w) <==> w == v
  {
    AfterReads(log, after, key, w);
  }

  // ---- scopes: what a stretch of history may write ---------------------------------------

  // Values allowed to be written to the mode registers of some fans, and to `Ftst`.
  datatype Scope = Scope(fans: set<nat>, modes: set<Byte>, ftst: set<Byte>)

  function FansBelow(n: nat): (fans: set<nat>)
    ensures forall i: nat :: i in fans <==> i < n
  {
    if n == 0 then {} else FansBelow(n - 1) + {n - 1}
  }

  function ModeKey(fan: nat): nat { FanMode(fan).Fourcc() }

  const FTST_KEY: nat := Ftst.Fourcc()

  // Everything a session of `n` fans is ever allowed to write.
  function Whitelist(n: nat): Scope { Scope(FansBelow(n), {0, 1}, {0, 1}) }

  // What a release of `n` fans writes.
  function Releases(n: nat): Scope { Scope(FansBelow(n), {0}, {0}) }

  ghost predicate InScope(req: Request, s: Scope)
    requires req.WriteKey?
  {
    || (exists i, v :: i in s.fans && v in s.modes && req.key == ModeKey(i) && req.bytes == [v])
    || (exists v :: v in s.ftst && req.key == FTST_KEY && req.bytes == [v])
  }

  ghost predicate WritesIn(before: seq<Exchange>, after: seq<Exchange>, s: Scope) {
    before <= after
    && forall i :: |before| <= i < |after| && after[i].req.WriteKey? ==> InScope(after[i].req, s)
  }

  lemma OneFanScope(before: seq<Exchange>, after: seq<Exchange>, fan: nat, v: Byte, s: Scope)
    requires WritesOnly(before, after, ModeKey(fan), [v]) && fan in s.fans && v in s.modes
    ensures WritesIn(before, after, s)
  {
  }

  lemma FtstScope(before: seq<Exchange>, after: seq<Exchange>, v: Byte, s: Scope)
    requires WritesOnly(before, after, FTST_KEY, [v]) && v in s.ftst
    ensures WritesIn(before, after, s)
  {
  }

  lemma ScopesJoin(a: seq<Exchange>, b: seq<Exchange>, c: seq<Exchange>, s: Scope, t: Scope, u: Scope)
    requires WritesIn(a, b, s) && WritesIn(b, c, t)
    requires s.fans + t.fans <= u.fans && s.modes + t.modes <= u.modes && s.ftst + t.ftst <= u.ftst
    ensures WritesIn(a, c, u)
  {
    assert forall i :: 0 <= i < |b| ==> c[i] == b[i];
  }

  // ---- what a stretch of history leaves behind --------------------------------------------

  // The register cannot hold anything but 0.
  ghost predicate Cleared(log: seq<Exchange>, key: nat) {
    forall v :: MayHold(log, key, v) ==> v == 0
  }

  ghost predicate AllAuto(log: seq<Exchange>, n: nat) {
    forall i :: 0 <= i < n ==> Cleared(log, ModeKey(i))
  }

  // Since `before` the SMC has accepted a write to `key`.
  ghost predicate Accepted(before: seq<Exchange>, after: seq<Exchange>, key: nat) {
    exists i :: |before| <= i < |after| && Writes(after[i], key) && Succeeded(after[i].reply)
  }

  lemma StillAccepted(before: seq<Exchange>, mid: seq<Exchange>, after: seq<Exchange>, later: seq<Exchange>, key: nat)
    requires before <= mid <= after <= later && Accepted(mid, after, key)
    ensures Accepted(before, later, key)
  {
    var i :| |mid| <= i < |after| && Writes(after[i], key) && Succeeded(after[i].reply);
    assert later[i] == after[i];
  }

  lemma AcceptedSplits(before: seq<Exchange>, mid: seq<Exchange>, after: seq<Exchange>, key: nat)
    requires before <= mid <= after
    ensures Accepted(before, after, key) <==> Accepted(before, mid, key) || Accepted(mid, after, key)
  {
    if Accepted(before, after, key) {
      var i :| |before| <= i < |after| && Writes(after[i], key) && Succeeded(after[i].reply);
      assert i < |mid| ==> mid[i] == after[i];
    }
    if Accepted(before, mid, key) {
      StillAccepted(before, before, mid, after, key);
    }
  }

  // Whatever is written to `key` is zero.
  ghost predicate ZerosTo(before: seq<Exchange>, after: seq<Exchange>, key: nat) {
    before <= after && forall i :: |before| <= i < |after| && Writes(after[i], key) ==> after[i].req.bytes == [0]
  }

  // Zeros that the SMC did not accept add nothing but 0 to what the register may hold.
  lemma {:induction false} RefusedZeros(before: seq<Exchange>, after: seq<Exchange>, key: nat, v: Byte)
    requires ZerosTo(before, after, key) && !Accepted(before, after, key) && v != 0
    ensures MayHold(after, key, v) <==> MayHold(before, key, v)
    decreases |after|
  {
    if |after| == |before| {
      assert after == before;
    } else {
      var last := |after| - 1;
      var shorter := after[..last];
      assert before <= shorter;
      AcceptedSplits(before, shorter, after, key);
      RefusedZeros(before, shorter, key, v);
      assert Writes(after[last], key) ==> !Succeeded(after[last].reply) && after[last].req.bytes == [0];
    }
  }

  lemma {:induction false} AcceptedZero(before: seq<Exchange>, after: seq<Exchange>, key: nat)
    requires ZerosTo(before, after, key) && Accepted(before, after, key)
    ensures Cleared(after, key)
    decreases |after|
  {
    var last := |after| - 1;
    var shorter := after[..last];
    assert before <= shorter;
    if Writes(after[last], key) && Succeeded(after[last].reply) {
      assert after[last].req.bytes == [0];
    } else {
      var i :| |before| <= i < |after| && Writes(after[i], key) && Succeeded(after[i].reply);
      assert shorter[i] == after[i];
      AcceptedZero(before, shorter, key);
      assert Writes(after[last], key) ==> after[last].req.bytes == [0];
    }
  }

  // Zeros clear a register exactly if one was accepted, or it was cleared before.
  lemma ClearedIff(before: seq<Exchange>, after: seq<Exchange>, key: nat)
    requires ZerosTo(before, after, key)
    ensures Cleared(after, key) <==> Accepted(before, after, key) || Cleared(before, key)
  {
    if Accepted(before, after, key) {
      AcceptedZero(before, after, key);
    } else {
      forall v: Byte | v != 0 ensures MayHold(after, key, v) <==> MayHold(before, key, v) {
        RefusedZeros(before, after, key, v);
      }
    }
  }

  // Nothing but zero is written, by whoever and in whatever order; once one such write to `key`
  // has been accepted, the register stays cleared.
  lemma ZeroSticks(before: seq<Exchange>, after: seq<Exchange>, n: nat, key: nat)
    requires WritesIn(before, after, Releases(n)) && Accepted(before, after, key)
    ensures Cleared(after, key)
  {
    ClearedIff(before, after, key);
  }

  // A write of 1 that was asked for leaves the register marked, whether or not it was accepted.
  lemma {:induction false} OneSticks(before: seq<Exchange>, after: seq<Exchange>, key: nat)
    requires WritesOnly(before, after, key, [1]) && !ReadsOnly(before, after)
    ensures MayHold(after, key, 1)
    decreases |after|
  {
    var last := |after| - 1;
    if !Writes(after[last], key) {
      var shorter := after[..last];
      assert before <= shorter;
      OneSticks(before, shorter, key);
    }
  }

  lemma ForcedIff(before: seq<Exchange>, after: seq<Exchange>, key: nat)
    requires WritesOnly(before, after, key, [1])
    ensures Cleared(after, key) <==> Cleared(before, key) && ReadsOnly(before, after)
  {
    if ReadsOnly(before, after) {
      forall v: Byte ensures MayHold(after, key, v) <==> MayHold(before, key, v) {
        AfterReads(before, after, key, v);
      }
    } else {
      OneSticks(before, after, key);
    }
  }

  // Writes to one register leave the others as they were.
  lemma {:induction false} OthersKeep(before: seq<Exchange>, after: seq<Exchange>, key: nat, bytes: seq<Byte>,
                                      other: nat, v: Byte)
    requires WritesOnly(before, after, key, bytes) && other != key
    ensures MayHold(after, other, v) <==> MayHold(before, other, v)
    decreases |after|
  {
    if |after| == |before| {
      assert after == before;
    } else {
      var shorter := after[..|after| - 1];
      assert before <= shorter;
      OthersKeep(before, shorter, key, bytes, other, v);
    }
  }

  // Registers nobody writes keep whatever they may hold, at every moment.
  lemma {:induction false} Untouched(before: seq<Exchange>, after: seq<Exchange>, s: Scope, key: nat, p: nat, v: Byte)
    requires WritesIn(before, after, s) && |before| <= p <= |after|
    requires key != FTST_KEY || s.ftst == {}
    requires forall i :: i in s.fans ==> key != ModeKey(i)
    ensures MayHold(after[..p], key, v) <==> MayHold(before, key, v)
  {
    if p == |before| {
      assert after[..p] == before;
    } else {
      Untouched(before, after, s, key, p - 1, v);
      assert after[..p][..p - 1] == after[..p - 1];
      assert !Writes(after[p - 1], key);
    }
  }

  // At every moment since `before`, some one fan is the only one that may not be automatic.
  ghost predicate OneForced(before: seq<Exchange>, after: seq<Exchange>, n: nat) {
    forall p :: |before| <= p <= |after| ==> ForcedAtMost(after[..p], n)
  }

  ghost predicate ForcedAtMost(log: seq<Exchange>, n: nat) {
    exists k: nat :: OthersAuto(log, n, k)
  }

  ghost predicate OthersAuto(log: seq<Exchange>, n: nat, k: nat) {
    forall i :: 0 <= i < n && i != k ==> Cleared(log, ModeKey(i))
  }

  lemma AutoFromTheStart(log: seq<Exchange>, n: nat)
    requires AllAuto(log, n)
    ensures OneForced(log, log, n)
  {
    assert log[..|log|] == log;
    assert OthersAuto(log, n, 0);
  }

  // Working on one fan while all the others are automatic.
  lemma OneForcedExtends(start: seq<Exchange>, before: seq<Exchange>, after: seq<Exchange>, n: nat, fan: nat, s: Scope)
    requires start <= before && OneForced(start, before, n) && AllAuto(before, n)
    requires WritesIn(before, after, s) && s.fans <= {fan} && Nameable(fan) && n <= 208
    ensures OneForced(start, after, n)
    ensures OthersAuto(after, n, fan)
  {
    forall p | |before| <= p <= |after| ensures OthersAuto(after[..p], n, fan) {
      forall i | 0 <= i < n && i != fan ensures Cleared(after[..p], ModeKey(i)) {
        forall v | MayHold(after[..p], ModeKey(i), v) ensures v == 0 {
          Untouched(before, after, s, ModeKey(i), p, v);
        }
      }
    }
    forall p | |start| <= p <= |after| ensures ForcedAtMost(after[..p], n) {
      if p <= |before| {
        assert after[..p] == before[..p];
      } else {
        assert OthersAuto(after[..p], n, fan);
      }
    }
    assert after[..|after|] == after;
  }
}
