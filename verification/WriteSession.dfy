/** src/smc/write_session.rs with the two other release arms, src/smc/signal.rs and
    src/smc/panic_hook.rs: who writes what to the SMC, against arbitrary replies. */
module WriteSession {
  import opened Enumerate
  import opened Floats
  import opened Ledger
  import opened Registers
  import opened Release
  import opened Ring
  import opened SmcConnection
  import opened SmcTypes
  import opened Selftest
  import opened Trail
  import opened Watchdog
  import KeyCache

  // Any value: the wall clock.
  method WallClockNs() returns (now: nat) {
    now := *;
  }

  // ---- what the session's operations leave in the log and in the ring ---------------------

  // `Ftst := 1` came back with `r`. The write was attempted; if the SMC has no such key the session goes on
  // without; if it did not take the write, that is the error; and if it did, the read-back decides. A
  // record is left exactly by a write that was read back as 1.
  ghost predicate Unlocked(kernel: Kernel, open: bool, slots: KeyCache.Slots, records: seq<Record>,
                           records': seq<Record>, before: seq<Exchange>, after: seq<Exchange>, r: Result<()>) {
    && Asks(kernel, open, slots[KeyCache.Slot(FTST_KEY)], before, after, FTST_KEY, [1])
    && if Missing(before, after) then r.Ok? && records' == records
       else if !Accepted(before, after, FTST_KEY) then
         records' == records && UnlockStopped(kernel, open, slots, before, after, r)
       else if r.Ok? then
         |records'| > |records| && Recorded(records, records', before, after, FTST_KEY, TYPE_UI8, [1], r)
       else records' == records && Unconfirmed(before, after, r.error)
  }

  // The SMC denied that there is an `Ftst`.
  ghost predicate Missing(before: seq<Exchange>, after: seq<Exchange>) {
    Denied(before, after, FTST_KEY) && !Accepted(before, after, FTST_KEY)
  }

  function Rejection(e: SmcError): SmcError {
    if e.SmcResult? then UnlockRejected(e.result) else e
  }

  ghost predicate UnlockStopped(kernel: Kernel, open: bool, slots: KeyCache.Slots, before: seq<Exchange>,
                                after: seq<Exchange>, r: Result<()>) {
    exists wrote: Result<()>, slots' ::
      && Wrote(kernel, open, FTST_KEY, [1], wrote, slots, before, slots', after)
      && wrote.Err? && r == Err(Rejection(wrote.error))
  }

  ghost predicate Unconfirmed(before: seq<Exchange>, after: seq<Exchange>, e: SmcError) {
    if e.UnlockMismatch? then
      e.readback != 1 && Echoed(before, after, FTST_KEY, TYPE_UI8, [1], Some([e.readback]))
    else Plain(e) && Echoed(before, after, FTST_KEY, TYPE_UI8, [1], None)
  }

  lemma UnlockRefused(kernel: Kernel, open: bool, slots: KeyCache.Slots, slots': KeyCache.Slots, records: seq<Record>,
                      before: seq<Exchange>, after: seq<Exchange>, wrote: Result<()>)
    requires Wrote(kernel, open, FTST_KEY, [1], wrote, slots, before, slots', after) && wrote.Err?
    requires !Accepted(before, after, FTST_KEY) && (!open ==> after == before && !wrote.error.KeyNotFound?)
    ensures Unlocked(kernel, open, slots, records, records, before, after,
                     if wrote.error.KeyNotFound? then Ok(()) else Err(Rejection(wrote.error)))
  {
    if open {
      SentIff(kernel, FTST_KEY, [1], wrote, slots, before, slots', after);
    }
    hide Wrote, Sent, SaysWidth;
  }

  lemma UnlockAnswered(kernel: Kernel, open: bool, slots: KeyCache.Slots, slots1: KeyCache.Slots,
                       records: seq<Record>, records': seq<Record>, before: seq<Exchange>, mid: seq<Exchange>,
                       after: seq<Exchange>, wrote: Result<()>, answer: Option<seq<Byte>>, r: Result<()>)
    requires Wrote(kernel, open, FTST_KEY, [1], wrote, slots, before, slots1, mid) && open
    requires WritesOnly(before, mid, FTST_KEY, [1]) && EndsAccepted(before, mid, FTST_KEY, [1])
    requires ReadsOnly(mid, after) && Tried(mid, after, FTST_KEY) && Answered(mid, after, FTST_KEY, TYPE_UI8) == answer
    requires if r.Ok? then
               |records'| > |records| && Recorded(records, records', before, after, FTST_KEY, TYPE_UI8, [1], r)
             else records' == records
                  && if answer == None then Plain(r.error)
                     else r.error.UnlockMismatch? && r.error.readback != 1 && answer == Some([r.error.readback])
    ensures Unlocked(kernel, open, slots, records, records', before, after, r)
    ensures r.Ok? ==> forall w: Byte :: MayHold(after, FTST_KEY, w) <==> w == 1
  {
    assert Accepted(before, mid, FTST_KEY);
    AttemptAnswered(kernel, open, FTST_KEY, [1], wrote, slots, before, slots1, mid, after, r);
    StillAccepted(before, before, mid, after, FTST_KEY);
    assert ReadBack(before, mid, after, FTST_KEY, TYPE_UI8, [1], answer);
    hide Wrote, Sent, SaysWidth, Stopped;
    forall w: Byte ensures MayHold(after, FTST_KEY, w) <==> w == 1 {
      Pinned(mid, after, FTST_KEY, 1, w);
    }
  }

  // A 1 was written to the fan's mode register and read back.
  ghost predicate Engages(before: seq<Exchange>, after: seq<Exchange>, fan: nat) {
    exists since, mid ::
      before <= since && ReadBack(since, mid, after, ModeKey(fan), TYPE_UI8, [1], Some([1]))
  }

  lemma UnlockedGrown(kernel: Kernel, open: bool, slots: KeyCache.Slots, records: seq<Record>,
                      records': seq<Record>, before: seq<Exchange>, after: seq<Exchange>, r: Result<()>)
    requires Unlocked(kernel, open, slots, records, records', before, after, r) && before <= after
    ensures Grown(records, records', before, after)
  {
    hide Recorded, Grown, Asks, UnlockStopped, Missing, Unconfirmed;
    if |records'| > |records| {
      OneAdded(records, records', before, after, FTST_KEY, [1], r);
    } else {
      NothingAdded(records, before, after);
    }
  }

  // A commit to an existing fan: the unlock, if it is not held already; one reading for the log; and, unless
  // the request is refused for being away from the minimum, one verified write that decides the outcome.
  // `slots` is what the cache said at the start.
  ghost predicate Commits(kernel: Kernel, open: bool, slots: KeyCache.Slots, records: seq<Record>,
                          records': seq<Record>, before: seq<Exchange>, after: seq<Exchange>,
                          unlocked: bool, fan: nat, refused: bool, r: Result<()>) {
    exists mid, recs, begun ::
      && Began(kernel, open, slots, records, recs, before, mid, unlocked, begun)
      && if begun.Err? then after == mid && records' == recs && r == begun
         else Decided(kernel, open, slots[MODE_SLOT], recs, records', mid, after, fan, refused, r)
  }

  ghost predicate Began(kernel: Kernel, open: bool, slots: KeyCache.Slots, records: seq<Record>,
                        records': seq<Record>, before: seq<Exchange>, after: seq<Exchange>,
                        unlocked: bool, r: Result<()>) {
    if unlocked then after == before && records' == records && r == Ok(())
    else before <= after && Unlocked(kernel, open, slots, records, records', before, after, r)
  }

  ghost predicate Decided(kernel: Kernel, open: bool, slot: Option<KeyInfo>, records: seq<Record>,
                          records': seq<Record>, before: seq<Exchange>, after: seq<Exchange>,
                          fan: nat, refused: bool, r: Result<()>) {
    exists since ::
      && ReadsOnly(before, since) && (open ==> Tried(before, since, ActualKey(fan)))
      && if refused then after == since && records' == records && r == Err(WriteRefused(ModeKey(fan), 0x86))
         else && Recorded(records, records', since, after, ModeKey(fan), TYPE_UI8, [1], r)
              && Attempt(kernel, open, slot, since, after, ModeKey(fan), [1], r)
  }

  // So a commit that is not refused is Ok exactly if, once the unlock is held, the SMC took a 1 for the fan's
  // mode register and read it back as 1; and it was asked to, unless the shared slot, or else its own
  // description, says that the register is not one byte wide.
  lemma CommitOkIff(kernel: Kernel, open: bool, slot: Option<KeyInfo>, records: seq<Record>, records': seq<Record>,
                    before: seq<Exchange>, after: seq<Exchange>, fan: nat, r: Result<()>)
    requires Decided(kernel, open, slot, records, records', before, after, fan, false, r)
    ensures exists since ::
              && ReadsOnly(before, since)
              && (r.Ok? <==> Echoed(since, after, ModeKey(fan), TYPE_UI8, [1], Some([1])))
              && Asks(kernel, open, slot, since, after, ModeKey(fan), [1])
  {
    var since :|
      && ReadsOnly(before, since)
      && Recorded(records, records', since, after, ModeKey(fan), TYPE_UI8, [1], r)
      && Attempt(kernel, open, slot, since, after, ModeKey(fan), [1], r);
    VerifiedIff(records, records', since, after, ModeKey(fan), TYPE_UI8, [1], r);
    AttemptAsks(kernel, open, slot, since, after, ModeKey(fan), [1], r);
  }

  lemma CommitsGrown(kernel: Kernel, open: bool, slots: KeyCache.Slots, records: seq<Record>,
                     records': seq<Record>, before: seq<Exchange>, after: seq<Exchange>,
                     unlocked: bool, fan: nat, refused: bool, r: Result<()>)
    requires Commits(kernel, open, slots, records, records', before, after, unlocked, fan, refused, r)
    ensures Grown(records, records', before, after)
  {
    hide Recorded, Unlocked, Grown, Decided;
    var mid, recs, begun :|
      && Began(kernel, open, slots, records, recs, before, mid, unlocked, begun)
      && if begun.Err? then after == mid && records' == recs && r == begun
         else Decided(kernel, open, slots[MODE_SLOT], recs, records', mid, after, fan, refused, r);
    if unlocked {
      NothingAdded(records, before, before);
    } else {
      UnlockedGrown(kernel, open, slots, records, recs, before, mid, begun);
    }
    if begun.Ok? {
      DecidedGrown(kernel, open, slots[MODE_SLOT], recs, records', mid, after, fan, refused, r);
      GrownJoins(records, recs, records', before, mid, after);
    }
  }

  lemma DecidedGrown(kernel: Kernel, open: bool, slot: Option<KeyInfo>, records: seq<Record>,
                     records': seq<Record>, before: seq<Exchange>, after: seq<Exchange>,
                     fan: nat, refused: bool, r: Result<()>)
    requires Decided(kernel, open, slot, records, records', before, after, fan, refused, r)
    ensures Grown(records, records', before, after)
  {
    hide Recorded, Grown, Attempt;
    var since :|
      && ReadsOnly(before, since)
      && if refused then after == since && records' == records
         else Recorded(records, records', since, after, ModeKey(fan), TYPE_UI8, [1], r);
    if refused {
      NothingAdded(records, before, after);
    } else {
      OneAdded(records, records', since, after, ModeKey(fan), [1], r);
      RecordedOnwards(records, records', since, after, ModeKey(fan), [1], r);
      GrownWider(records, records', before, since, after, after);
    }
  }

  lemma RecordedOnwards(records: seq<Record>, records': seq<Record>, before: seq<Exchange>, after: seq<Exchange>,
                        key: nat, written: seq<Byte>, r: Result<()>)
    requires Recorded(records, records', before, after, key, TYPE_UI8, written, r)
    ensures before <= after && records <= records'
  {
    TellsOnwards(before, after, records'[|records|], TYPE_UI8);
  }

  // Neither the unlock nor the reading touches the slot of the mode registers.
  lemma ModeSlotKept(slots: KeyCache.Slots, slots1: KeyCache.Slots, slots2: KeyCache.Slots, fan: nat)
    requires OneSlot(slots, slots1, FTST_KEY) && OneSlot(slots1, slots2, ActualKey(fan))
    ensures slots2[MODE_SLOT] == slots[MODE_SLOT] && KeyCache.Slot(ModeKey(fan)) == MODE_SLOT
  {
    FtstSlotApart();
    ModeSlotShared(fan);
    SlotIsLastCharacter(fan, 'A', 'c');
  }

  lemma NoSlot(slots: KeyCache.Slots, key: nat)
    ensures OneSlot(slots, slots, key)
  {
  }

  lemma CommitEnds(kernel: Kernel, open: bool, slots: KeyCache.Slots, records: seq<Record>, recs: seq<Record>,
                   records': seq<Record>, before: seq<Exchange>, mid: seq<Exchange>, after: seq<Exchange>,
                   unlocked: bool, begun: Result<()>, fan: nat, refused: bool, r: Result<()>)
    requires Began(kernel, open, slots, records, recs, before, mid, unlocked, begun)
    requires if begun.Err? then after == mid && records' == recs && r == begun
             else Decided(kernel, open, slots[MODE_SLOT], recs, records', mid, after, fan, refused, r)
    ensures Commits(kernel, open, slots, records, records', before, after, unlocked, fan, refused, r)
  {
    hide Began, Decided;
  }

  // The record of the verified release of `Ftst`, if there was an unlock to release.
  ghost predicate Relocks(records: seq<Record>, records': seq<Record>, before: seq<Exchange>, after: seq<Exchange>,
                          unlocked: bool) {
    if unlocked then
      exists a, b, r :: before <= a && b <= after && Recorded(records, records', a, b, FTST_KEY, TYPE_UI8, [0], r)
    else records' == records
  }

  lemma RelocksWithin(records: seq<Record>, records': seq<Record>, before: seq<Exchange>, a: seq<Exchange>,
                      b: seq<Exchange>, after: seq<Exchange>, unlocked: bool)
    requires before <= a && b <= after
    requires if unlocked then exists r :: Recorded(records, records', a, b, FTST_KEY, TYPE_UI8, [0], r)
             else records' == records
    ensures Relocks(records, records', before, after, unlocked)
  {
    hide Recorded;
  }

  lemma RelocksGrown(records: seq<Record>, records': seq<Record>, before: seq<Exchange>, after: seq<Exchange>,
                     unlocked: bool)
    requires Relocks(records, records', before, after, unlocked) && before <= after
    ensures Grown(records, records', before, after)
  {
    hide Recorded, Grown;
    if unlocked {
      var a, b, r :| before <= a && b <= after && Recorded(records, records', a, b, FTST_KEY, TYPE_UI8, [0], r);
      OneAdded(records, records', a, b, FTST_KEY, [0], r);
      GrownWider(records, records', before, a, b, after);
    } else {
      NothingAdded(records, before, after);
    }
  }

  // `Ftst` zeroed with read-back and then once more, as a teardown of an unlocked session does.
  lemma FtstTwice(kernel: Kernel, before: seq<Exchange>, slots: KeyCache.Slots, mid: seq<Exchange>,
                  slots1: KeyCache.Slots, after: seq<Exchange>)
    requires before <= mid <= after
    requires FtstForced(kernel, before, slots, mid) && FtstForced(kernel, mid, slots1, after)
    requires Willing(kernel, FTST_KEY) ==> (ByteSized(slots1, FTST_KEY) <==> ByteSized(slots, FTST_KEY))
    ensures FtstForced(kernel, before, slots, after)
  {
    AcceptedSplits(before, mid, after, FTST_KEY);
    if Asked(before, mid, FTST_KEY) {
      StillAsked(before, before, mid, after, FTST_KEY);
    }
  }

  // The steps of a winning teardown: the fans, the unlock if there is one, `Ftst` once more.
  lemma TeardownCompletes(kernel: Kernel, open: bool, n: nat, slots: KeyCache.Slots, start: seq<Exchange>,
                          slots1: KeyCache.Slots, auto: seq<Exchange>, unlocked: bool, slots2: KeyCache.Slots,
                          relocked: seq<Exchange>, ok: bool, slots3: KeyCache.Slots, after: seq<Exchange>)
    requires n <= 208 && FansForced(kernel, open, n, slots, start, slots1, auto) && Listed(start, auto, n, n)
    requires WritesOnly(auto, relocked, FTST_KEY, [0]) && OneSlot(slots1, slots2, FTST_KEY)
    requires !open || !unlocked ==> relocked == auto
    requires !unlocked ==> slots2 == slots1
    requires unlocked && open ==> FtstForced(kernel, auto, slots1, relocked)
    requires unlocked && open && Willing(kernel, FTST_KEY) ==>
               (ByteSized(slots2, FTST_KEY) <==> ByteSized(slots1, FTST_KEY))
    requires WritesOnly(relocked, after, FTST_KEY, [0]) && (ok <==> Accepted(relocked, after, FTST_KEY))
    requires ByteWrite(kernel, open, FTST_KEY, ok, slots2, relocked, slots3, after)
    ensures Released(kernel, open, n, slots, start, slots3, after)
    ensures WritesIn(start, after, Releases(n)) && (!open ==> after == start)
    ensures Listed(start, after, n, n + if unlocked then 2 else 1)
  {
    hide FansForced, Willing, FtstForced, ByteSized, Accepted, Listed;
    if unlocked {
      ListedMore(start, auto, relocked, n, n);
      ListedMore(start, relocked, after, n, n + 1);
    } else {
      ListedMore(start, auto, after, n, n);
    }
    FtstTried(kernel, open, ok, slots2, relocked, slots3, after);
    WritesOnlyJoins(auto, relocked, after, FTST_KEY, [0]);
    if open && unlocked {
      FtstTwice(kernel, auto, slots1, relocked, slots2, after);
    }
    ReleaseCompletes(kernel, open, n, slots, start, slots1, auto, slots3, after);
    ReleasedWrites(kernel, open, n, slots, start, slots3, after);
  }

  // A session unlocked by `unlocked`, one reading for the log, and then the verified write.
  lemma CommitJoins(kernel: Kernel, open: bool, slots: KeyCache.Slots, records: seq<Record>, recs: seq<Record>,
                    records': seq<Record>, before: seq<Exchange>, unlocked: seq<Exchange>, since: seq<Exchange>,
                    after: seq<Exchange>, was: bool, begun: Result<()>, fan: nat, r: Result<()>)
    requires Began(kernel, open, slots, records, recs, before, unlocked, was, begun) && begun.Ok?
    requires WritesOnly(before, unlocked, FTST_KEY, [1])
    requires ReadsOnly(unlocked, since) && (open ==> Tried(unlocked, since, ActualKey(fan)))
    requires WritesOnly(since, after, ModeKey(fan), [1])
    requires Recorded(recs, records', since, after, ModeKey(fan), TYPE_UI8, [1], r)
    requires Attempt(kernel, open, slots[MODE_SLOT], since, after, ModeKey(fan), [1], r)
    ensures Commits(kernel, open, slots, records, records', before, after, was, fan, false, r)
    ensures WritesIn(before, after, Scope({fan}, {1}, {1}))
    ensures WritesOnly(unlocked, after, ModeKey(fan), [1])
    ensures r.Ok? ==> Engages(before, after, fan) && records' != [] && Shows(records'[|records'| - 1], fan, 1)
  {
    hide Began, ReadBack, InScope, Attempt, Tried;
    var s := Scope({fan}, {1}, {1});
    FtstScope(before, unlocked, 1, s);
    OneFanScope(unlocked, since, fan, 1, s);
    OneFanScope(since, after, fan, 1, s);
    ScopesJoin(before, unlocked, since, s, s, s);
    ScopesJoin(before, since, after, s, s, s);
    WritesOnlyJoins(unlocked, since, after, ModeKey(fan), [1]);
    assert Decided(kernel, open, slots[MODE_SLOT], recs, records', unlocked, after, fan, false, r);
    CommitEnds(kernel, open, slots, records, recs, records', before, unlocked, after, was, begun, fan, false, r);
  }

  // The same session with a request that is refused after the reading.
  lemma CommitRefused(kernel: Kernel, open: bool, slots: KeyCache.Slots, records: seq<Record>, recs: seq<Record>,
                      before: seq<Exchange>, unlocked: seq<Exchange>, since: seq<Exchange>, was: bool,
                      begun: Result<()>, fan: nat)
    requires Began(kernel, open, slots, records, recs, before, unlocked, was, begun) && begun.Ok?
    requires WritesOnly(before, unlocked, FTST_KEY, [1])
    requires ReadsOnly(unlocked, since) && (open ==> Tried(unlocked, since, ActualKey(fan)))
    ensures Commits(kernel, open, slots, records, recs, before, since, was, fan, true,
                    Err(WriteRefused(ModeKey(fan), 0x86)))
    ensures WritesOnly(before, since, FTST_KEY, [1]) && WritesIn(before, since, Scope({fan}, {1}, {1}))
  {
    hide Began, InScope, Tried;
    var r: Result<()> := Err(WriteRefused(ModeKey(fan), 0x86));
    WritesOnlyJoins(before, unlocked, since, FTST_KEY, [1]);
    FtstScope(before, since, 1, Scope({fan}, {1}, {1}));
    assert Decided(kernel, open, slots[MODE_SLOT], recs, recs, unlocked, since, fan, true, r);
    CommitEnds(kernel, open, slots, records, recs, recs, before, unlocked, since, was, begun, fan, true, r);
  }

  // ---- the session ------------------------------------------------------------------------

  class Session {
    const conn: Connection
    const fans: seq<Fan>
    const ring: RoundTripRing
    const tearDownOnce: AtomicFlag
    var unlock: DiagnosticUnlockSession?

    ghost predicate Valid()
      reads this, conn.cache, conn.cache.slots, ring, ring.records
    {
      && conn.Valid() && ring.Valid() && |fans| <= 208
      && (forall k :: 0 <= k < |fans| ==> fans[k].index == k)
      && (unlock != null ==> unlock.release == tearDownOnce)
    }

    constructor (conn: Connection, fans: seq<Fan>, flag: AtomicFlag)
      requires conn.Valid() && |fans| <= 208 && forall k :: 0 <= k < |fans| ==> fans[k].index == k
      ensures Valid() && this.conn == conn && this.fans == fans && tearDownOnce == flag
      ensures unlock == null && ring.history == [] && fresh(ring) && fresh(ring.records)
    {
      this.conn := conn;
      this.fans := fans;
      ring := new RoundTripRing();
      tearDownOnce := flag;
      unlock := null;
    }

    // `Ftst := 1` with its own read-back; a SoC without the key goes on without it.
    method BeginDiagnosticUnlock() returns (r: Result<()>)
      requires Valid()
      modifies this`unlock, conn.smc`log, conn.cache.slots, ring, ring.records
      ensures Valid()
      ensures old(unlock) != null ==>
                && r.Ok? && unlock == old(unlock)
                && conn.smc.log == old(conn.smc.log) && ring.history == old(ring.history)
      ensures old(unlock) == null ==>
                && Unlocked(conn.smc.kernel, conn.open, old(conn.Slots()), old(ring.history), ring.history,
                            old(conn.smc.log), conn.smc.log, r)
                && (r.Ok? <==> unlock != null)
                && (r.Ok? ==> fresh(unlock) && unlock.watchdogRunning && !unlock.watchdogStop)
                && (r.Ok? ==> unlock.beatAt == |conn.smc.log|)
      ensures WritesOnly(old(conn.smc.log), conn.smc.log, FTST_KEY, [1])
      ensures |ring.history| <= |old(ring.history)| + 1 && old(ring.history) <= ring.history
      ensures |ring.history| > |old(ring.history)| ==> forall w: Byte :: MayHold(conn.smc.log, FTST_KEY, w) <==> w == 1
      ensures !conn.open ==> conn.smc.log == old(conn.smc.log) && (old(unlock) == null ==> r.Err?)
      ensures OneSlot(old(conn.Slots()), conn.Slots(), FTST_KEY)
    {
      hide FollowsLookup, MayHold, Willing, Recorded, Accepted, ByteWrite, ByteSized, Unlocked, Tried;
      hide EndsAbsent, EndsAccepted, ByteRead, Wrote;
      if unlock != null {
        return Ok(());
      }
      ghost var kernel, slots := conn.smc.kernel, conn.Slots();
      ghost var before, records := conn.smc.log, ring.history;
      var wrote := conn.WriteU8(Ftst, 1);
      ghost var slots1 := conn.Slots();
      var ftstPresent := true;
      if wrote.Err? {
        UnlockRefused(kernel, conn.open, slots, slots1, records, before, conn.smc.log, wrote);
        if wrote.error.KeyNotFound? {
          ftstPresent := false;
        } else if wrote.error.SmcResult? {
          return Err(UnlockRejected(wrote.error.result));
        } else {
          return wrote;
        }
      }
      if ftstPresent {
        ghost var accepted := conn.smc.log;
        var readback := conn.ReadU8(FTST_KEY);
        WritesOnlyJoins(before, accepted, conn.smc.log, FTST_KEY, [1]);
        ghost var answer := if readback.Ok? then Some([readback.value]) else None;
        if readback.Err? {
          UnlockAnswered(kernel, conn.open, slots, slots1, records, records, before, accepted, conn.smc.log, wrote,
                         answer, Err(readback.error));
          return Err(readback.error);
        }
        if readback.value != 1 {
          UnlockAnswered(kernel, conn.open, slots, slots1, records, records, before, accepted, conn.smc.log, wrote,
                         answer, Err(UnlockMismatch(readback.value)));
          return Err(UnlockMismatch(readback.value));
        }
        var stamp := WallClockNs();
        conn.Note(ring, stamp, FTST_KEY, [1], [1], Match);
        Filed(records, ring.history, before, accepted, conn.smc.log, FTST_KEY, TYPE_UI8, [1], answer, Ok(()));
        UnlockAnswered(kernel, conn.open, slots, slots1, records, ring.history, before, accepted, conn.smc.log, wrote,
                       answer, Ok(()));
      }
      var now := WallClockNs();
      var session := new DiagnosticUnlockSession(tearDownOnce, now);
      session.Heartbeat(now, |conn.smc.log|);
      session.StartWatchdog();
      unlock := session;
      r := Ok(());
    }

    method Beat()
      modifies unlock
      ensures unlock != null ==> unlock.release == old(unlock.release) && unlock.beatAt == |conn.smc.log|
    {
      if unlock != null {
        var now := WallClockNs();
        unlock.Heartbeat(now, |conn.smc.log|);
      }
    }

    // Engage forced minimum on one fan. The only request the SoC honours is its minimum,
    // within 5 % of the range.
    method CommitSetFan(fan: nat, target: real) returns (r: Result<()>)
      requires Valid()
      modifies this`unlock, conn.smc`log, conn.cache.slots, ring, ring.records, unlock
      ensures Valid()
      ensures fan >= |fans| ==> r == Err(if Nameable(fan) then KeyNotFound(FanKey(fan, 'T', 'g')) else ArithmeticPanic)
      ensures fan >= |fans| ==>
                conn.smc.log == old(conn.smc.log) && ring.history == old(ring.history) && unlock == old(unlock)
      ensures !conn.open ==> r.Err? && conn.smc.log == old(conn.smc.log)
      ensures fan < |fans| ==>
                var refused := Abs(target - fans[fan].minRpm) > (fans[fan].maxRpm - fans[fan].minRpm) * 0.05;
                Commits(conn.smc.kernel, conn.open, old(conn.Slots()), old(ring.history), ring.history,
                        old(conn.smc.log), conn.smc.log, old(unlock) != null, fan, refused, r)
      ensures r.Ok? ==>
                && fan < |fans| && unlock != null && unlock.beatAt == |conn.smc.log|
                && Abs(target - fans[fan].minRpm) <= (fans[fan].maxRpm - fans[fan].minRpm) * 0.05
                && (forall w: Byte :: MayHold(conn.smc.log, ModeKey(fan), w) <==> w == 1)
                && Engages(old(conn.smc.log), conn.smc.log, fan)
                && ring.history != [] && Shows(ring.history[|ring.history| - 1], fan, 1)
      ensures fan < |fans| && Abs(target - fans[fan].minRpm) > (fans[fan].maxRpm - fans[fan].minRpm) * 0.05 ==>
                && r.Err? && WritesOnly(old(conn.smc.log), conn.smc.log, FTST_KEY, [1])
                && (old(unlock) != null ==> r.error == WriteRefused(ModeKey(fan), 0x86))
      ensures WritesIn(old(conn.smc.log), conn.smc.log, Scope({fan}, {1}, {1}))
      ensures old(ring.history) <= ring.history
      ensures unlock == old(unlock) || (old(unlock) == null && unlock != null && fresh(unlock))
      ensures r.Ok? && old(unlock) != null ==> WritesOnly(old(conn.smc.log), conn.smc.log, ModeKey(fan), [1])
    {
      hide Willing, ByteSized, Unlocked, ReadBack, MayHold, InScope, FloatRead, Tried;
      hide OneSlot, EndsAbsent, Accepted, FanKey, ReadsOnly, Attempt, ByteVerified, Tells, Commits, Engages;
      if fan >= |fans| {
        return Err(if Nameable(fan) then KeyNotFound(FanKey(fan, 'T', 'g')) else ArithmeticPanic);
      }
      ghost var before, kernel, slots := conn.smc.log, conn.smc.kernel, conn.Slots();
      NoSlot(slots, FTST_KEY);
      ghost var records0, was, begunAs: Result<()> := ring.history, unlock != null, Ok(());
      if unlock == null {
        var begun := BeginDiagnosticUnlock();
        begunAs := begun;
        FtstScope(before, conn.smc.log, 1, Scope({fan}, {1}, {1}));
        if begun.Err? {
          CommitEnds(kernel, conn.open, slots, records0, ring.history, ring.history, before, conn.smc.log,
                     conn.smc.log, was, begun, fan,
                     Abs(target - fans[fan].minRpm) > (fans[fan].maxRpm - fans[fan].minRpm) * 0.05, begun);
          return begun;
        }
      }
      ghost var unlocked, recs, slots1 := conn.smc.log, ring.history, conn.Slots();
      var _ := conn.ReadF32(FanKey(fan, 'A', 'c'));
      ghost var diagnosed := conn.smc.log;
      ModeSlotKept(slots, slots1, conn.Slots(), fan);
      var tolerance := (fans[fan].maxRpm - fans[fan].minRpm) * 0.05;
      if !(Abs(target - fans[fan].minRpm) <= tolerance) {
        CommitRefused(kernel, conn.open, slots, records0, recs, before, unlocked, diagnosed, was, begunAs, fan);
        return Err(WriteRefused(ModeKey(fan), 0x86));
      }
      var stamp := WallClockNs();
      r := conn.WriteU8Verified(FanMode(fan), 1, stamp, ring);
      CommitJoins(kernel, conn.open, slots, records0, recs, ring.history, before, unlocked, diagnosed, conn.smc.log,
                  was, begunAs, fan, r);
      if r.Err? {
        return;
      }
      Beat();
    }

    // Five readings of the fan; one that fails counts as 0.
    method HoldAndSample(fan: nat) returns (samples: seq<real>)
      requires conn.Valid() && Nameable(fan)
      modifies conn.smc`log, conn.cache.slots
      ensures conn.Valid() && ReadsOnly(old(conn.smc.log), conn.smc.log)
      ensures |samples| == 5
      ensures if conn.open then Sampled(old(conn.smc.log), conn.smc.log, fan, samples)
              else conn.smc.log == old(conn.smc.log)
      ensures conn.Slots()[MODE_SLOT] == old(conn.Slots())[MODE_SLOT]
    {
      SlotIsLastCharacter(fan, 'A', 'c');
      samples := [];
      ghost var start := conn.smc.log;
      for k := 0 to SAMPLES_PER_HOLD
        invariant conn.Valid() && ReadsOnly(start, conn.smc.log) && |samples| == k
        invariant if conn.open then Sampled(start, conn.smc.log, fan, samples) else conn.smc.log == start
        invariant conn.Slots()[MODE_SLOT] == old(conn.Slots())[MODE_SLOT]
      {
        ghost var before := conn.smc.log;
        var rpm := ReadFloat(conn, ActualKey(fan));
        var sample := if rpm.Ok? then rpm.value else 0.0;
        if conn.open {
          assert Reading(before, conn.smc.log, fan, sample);
          SampledMore(start, before, conn.smc.log, fan, samples, sample);
        }
        samples := samples + [sample];
      }
    }

    // One verified mode write followed by one hold window.
    method EngageAndSample(fan: nat, mode: Byte) returns (r: Result<seq<real>>)
      requires Valid() && fan < |fans| && mode <= 1
      modifies conn.smc`log, conn.cache.slots, ring, ring.records, unlock
      ensures Valid()
      ensures WritesOnly(old(conn.smc.log), conn.smc.log, ModeKey(fan), [mode])
      ensures old(ring.history) <= ring.history && |ring.history| == |old(ring.history)| + 1
      ensures match r
              case Ok(samples) =>
                Engaged(old(conn.smc.log), conn.smc.log, fan, mode, ring.history[|old(ring.history)|], samples)
              case Err(e) =>
                EngageFailed(conn.smc.kernel, conn.open, old(conn.Slots())[MODE_SLOT], old(ring.history), ring.history,
                             old(conn.smc.log), conn.smc.log, fan, mode, e)
      ensures r.Ok? ==> conn.Slots()[MODE_SLOT] == Some(BYTE_INFO)
      // The watchdog is told between the write and the readings.
      ensures r.Ok? && unlock != null ==>
                && unlock.beatAt <= |conn.smc.log|
                && Sampled(conn.smc.log[..unlock.beatAt], conn.smc.log, fan, r.value)
      ensures !conn.open ==> r.Err? && conn.smc.log == old(conn.smc.log)
    {
      hide MayHold, Willing, Attempt;
      ModeSlotShared(fan);
      ghost var before, records := conn.smc.log, ring.history;
      var stamp := WallClockNs();
      var wrote := conn.WriteU8Verified(FanMode(fan), mode, stamp, ring);
      if wrote.Err? {
        return Err(wrote.error);
      }
      ghost var written := conn.smc.log;
      Beat();
      var samples := HoldAndSample(fan);
      WritesOnlyJoins(before, written, conn.smc.log, ModeKey(fan), [mode]);
      NowEngaged(records, ring.history, before, written, conn.smc.log, fan, mode, samples);
      assert conn.smc.log[..|written|] == written;
      r := Ok(samples);
    }

    // One iteration: forced minimum, sample, automatic, sample.
    method Iterate(fan: nat, iter: nat) returns (r: Result<IterationSample>)
      requires Valid() && fan < |fans|
      modifies conn.smc`log, conn.cache.slots, ring, ring.records, unlock
      ensures Valid()
      ensures WritesIn(old(conn.smc.log), conn.smc.log, Scope({fan}, {0, 1}, {}))
      ensures old(ring.history) <= ring.history
      ensures r.Ok? ==>
                && r.value.iteration == iter && |ring.history| == |old(ring.history)| + 2
                && Iterated(old(conn.smc.log), conn.smc.log, fan, ring.history[|old(ring.history)|],
                            ring.history[|old(ring.history)| + 1], r.value)
      ensures r.Err? ==>
                IterationFailed(conn.smc.kernel, conn.open, old(conn.Slots())[MODE_SLOT], old(ring.history),
                                ring.history, old(conn.smc.log), conn.smc.log, fan, r.error)
      ensures r.Ok? ==> conn.Slots()[MODE_SLOT] == Some(BYTE_INFO)
      ensures !conn.open ==> r.Err? && conn.smc.log == old(conn.smc.log)
    {
      hide Engaged, Recorded, EngageFailed;
      ghost var s := Scope({fan}, {0, 1}, {});
      ghost var l0 := conn.smc.log;
      var atMin := EngageAndSample(fan, 1);
      OneFanScope(l0, conn.smc.log, fan, 1, s);
      if atMin.Err? {
        return Err(atMin.error);
      }
      ghost var l1 := conn.smc.log;
      var atAuto := EngageAndSample(fan, 0);
      OneFanScope(l1, conn.smc.log, fan, 0, s);
      ScopesJoin(l0, l1, conn.smc.log, s, s, s);
      if atAuto.Err? {
        return Err(atAuto.error);
      }
      r := Ok(ClassifyIteration(iter, atAuto.value, atMin.value));
    }

    // All iterations of one fan.
    method TestFan(fan: nat, iterations: Byte) returns (r: Result<FanReport>)
      requires Valid() && fan < |fans|
      modifies conn.smc`log, conn.cache.slots, ring, ring.records, unlock
      ensures Valid()
      ensures WritesIn(old(conn.smc.log), conn.smc.log, Scope({fan}, {0, 1}, {}))
      ensures old(ring.history) <= ring.history
      ensures r.Ok? ==>
                && Conserved(r.value, fan, iterations)
                && Tested(old(conn.smc.log), conn.smc.log, ring.history[|old(ring.history)|..], fan, r.value.samples)
      ensures r.Err? ==>
                TestFailed(conn.smc.kernel, conn.open, old(conn.Slots())[MODE_SLOT], old(ring.history),
                           ring.history, old(conn.smc.log), conn.smc.log, fan, iterations, r.error)
      ensures r.Ok? && iterations > 0 ==> conn.Slots()[MODE_SLOT] == Some(BYTE_INFO)
      ensures !conn.open ==> conn.smc.log == old(conn.smc.log)
    {
      hide Iterated, Tested, Cleared, IterationFailed;
      var samples: seq<IterationSample> := [];
      var roundTrips: nat, mismatches: nat, completed: nat := 0, 0, 0;
      ghost var start, log0 := ring.history, conn.smc.log;
      ghost var s := Scope({fan}, {0, 1}, {});
      NoneTested(log0, fan);
      assert start[|start|..] == [];
      for iter := 0 to iterations
        invariant Valid() && WritesIn(log0, conn.smc.log, s) && start <= ring.history
        invariant roundTrips == 2 * iter && mismatches == 0 && completed == iter && |samples| == iter
        invariant Tested(log0, conn.smc.log, ring.history[|start|..], fan, samples)
        invariant conn.Slots()[MODE_SLOT] == if iter > 0 then Some(BYTE_INFO) else old(conn.Slots())[MODE_SLOT]
        invariant !conn.open ==> conn.smc.log == log0
      {
        ghost var h, l := ring.history, conn.smc.log;
        var sample := Iterate(fan, iter);
        ScopesJoin(log0, l, conn.smc.log, s, s, s);
        if sample.Err? {
          return Err(sample.error);
        }
        Appended(start, h, ring.history);
        TestedMore(log0, l, conn.smc.log, h[|start|..], fan, samples, ring.history[|h|], ring.history[|h| + 1],
                   sample.value);
        roundTrips := roundTrips + 2;
        samples := samples + [sample.value];
        completed := completed + 1;
      }
      r := Ok(ClassifyFan(fan, completed, iterations, roundTrips, mismatches, samples));
    }

    // Every fan in turn; the first error ends the run.
    method RunSelftest(iterations: Byte) returns (r: Result<Report>)
      requires Valid()
      modifies conn.smc`log, conn.cache.slots, ring, ring.records, unlock
      ensures Valid()
      ensures WritesIn(old(conn.smc.log), conn.smc.log, Scope(FansBelow(|fans|), {0, 1}, {}))
      ensures old(ring.history) <= ring.history
      ensures AllAuto(old(conn.smc.log), |fans|) ==> OneForced(old(conn.smc.log), conn.smc.log, |fans|)
      ensures r.Ok? ==>
                && |r.value.perFan| == |fans| && r.value == Classify(r.value.perFan)
                && Ran(old(conn.smc.log), conn.smc.log, ring.history[|old(ring.history)|..], r.value.perFan, iterations)
      ensures r.Err? ==>
                RunFailed(conn.smc.kernel, conn.open, old(conn.Slots())[MODE_SLOT], old(ring.history),
                          ring.history, old(conn.smc.log), conn.smc.log, |fans|, iterations, r.error)
      ensures r.Ok? && AllAuto(old(conn.smc.log), |fans|) ==> AllAuto(conn.smc.log, |fans|)
      ensures !conn.open ==> conn.smc.log == old(conn.smc.log)
    {
      hide Tested, Cleared, Ran, Conserved, TestFailed;
      var perFan: seq<FanReport> := [];
      ghost var start, log0, n := ring.history, conn.smc.log, |fans|;
      ghost var s := Scope(FansBelow(n), {0, 1}, {});
      ghost var allAuto := AllAuto(log0, n);
      if allAuto {
        AutoFromTheStart(log0, n);
      }
      NoneRan(log0, iterations);
      assert start[|start|..] == [];
      for f := 0 to |fans|
        invariant Valid() && WritesIn(log0, conn.smc.log, s) && start <= ring.history && |perFan| == f
        invariant Ran(log0, conn.smc.log, ring.history[|start|..], perFan, iterations)
        invariant iterations > 0 ==>
          conn.Slots()[MODE_SLOT] == if f > 0 then Some(BYTE_INFO) else old(conn.Slots())[MODE_SLOT]
        invariant allAuto ==> AllAuto(conn.smc.log, n) && OneForced(log0, conn.smc.log, n)
        invariant !conn.open ==> conn.smc.log == log0
      {
        ghost var h, l, slot := ring.history, conn.smc.log, conn.Slots()[MODE_SLOT];
        var report := TestFan(f, iterations);
        ScopesJoin(log0, l, conn.smc.log, s, Scope({f}, {0, 1}, {}), s);
        if allAuto {
          OneForcedExtends(log0, l, conn.smc.log, n, f, Scope({f}, {0, 1}, {}));
        }
        if report.Err? {
          SomeIteration(conn.smc.kernel, conn.open, slot, h, ring.history, l, conn.smc.log, f, iterations,
                        report.error);
          return Err(report.error);
        }
        if allAuto {
          TestedEndsAuto(l, conn.smc.log, ring.history[|h|..], f, report.value.samples, n);
        }
        Appended(start, h, ring.history);
        RanMore(log0, l, conn.smc.log, h[|start|..], ring.history[|h|..], perFan, report.value, iterations);
        perFan := perFan + [report.value];
      }
      r := Ok(Classify(perFan));
    }

    // `Ftst := 0` with read-back, the watchdog stopped first. Errors are swallowed.
    method ReleaseDiagnosticUnlock()
      requires Valid()
      modifies this`unlock, conn.smc`log, conn.cache.slots, ring, ring.records, unlock
      ensures Valid() && unlock == null && old(ring.history) <= ring.history
      ensures old(unlock) == null ==>
                && conn.smc.log == old(conn.smc.log) && ring.history == old(ring.history)
                && conn.Slots() == old(conn.Slots())
      ensures old(unlock) != null ==>
                && old(unlock).watchdogStop && old(unlock).stoppedAt == Some(|old(conn.smc.log)|)
                && exists r :: Recorded(old(ring.history), ring.history, old(conn.smc.log), conn.smc.log,
                                        FTST_KEY, TYPE_UI8, [0], r)
      ensures old(unlock) != null ==>
                Asks(conn.smc.kernel, conn.open, old(conn.Slots())[KeyCache.Slot(FTST_KEY)], old(conn.smc.log),
                     conn.smc.log, FTST_KEY, [0])
      ensures old(unlock) != null && conn.open ==>
                && FtstForced(conn.smc.kernel, old(conn.smc.log), old(conn.Slots()), conn.smc.log)
                && (Willing(conn.smc.kernel, FTST_KEY) ==>
                      (ByteSized(conn.Slots(), FTST_KEY) <==> ByteSized(old(conn.Slots()), FTST_KEY)))
      ensures OneSlot(old(conn.Slots()), conn.Slots(), FTST_KEY)
      ensures WritesOnly(old(conn.smc.log), conn.smc.log, FTST_KEY, [0])
      ensures !conn.open ==> conn.smc.log == old(conn.smc.log)
    {
      hide Willing, MayHold;
      if unlock == null {
        return;
      }
      ghost var before, records := conn.smc.log, ring.history;
      if unlock != null {
        unlock.StopWatchdog(|conn.smc.log|);
      }
      var stamp := WallClockNs();
      var r := conn.WriteU8Verified(Ftst, 0, stamp, ring);
      assert Recorded(records, ring.history, before, conn.smc.log, FTST_KEY, TYPE_UI8, [0], r);
      if conn.smc.log != before {
        assert Asked(before, conn.smc.log, FTST_KEY);
      }
      unlock := null;
    }

    // Only the caller that wins the flag does anything.
    method Teardown()
      requires Valid()
      modifies this`unlock, conn`open, conn.smc`log, conn.cache.slots, ring, ring.records, unlock, tearDownOnce
      ensures Valid() && tearDownOnce.raised && old(ring.history) <= ring.history
      ensures old(tearDownOnce.raised) ==>
                && conn.smc.log == old(conn.smc.log) && ring.history == old(ring.history)
                && unlock == old(unlock) && conn.open == old(conn.open)
      ensures !old(tearDownOnce.raised) ==>
                && !conn.open && unlock == null
                && Released(conn.smc.kernel, old(conn.open), |fans|, old(conn.Slots()), old(conn.smc.log),
                            conn.Slots(), conn.smc.log)
                && Listed(old(conn.smc.log), conn.smc.log, |fans|, |fans| + if old(unlock) != null then 2 else 1)
      ensures Relocks(old(ring.history), ring.history, old(conn.smc.log), conn.smc.log,
                      old(unlock) != null && !old(tearDownOnce.raised))
      ensures WritesIn(old(conn.smc.log), conn.smc.log, Releases(|fans|))
      ensures !old(conn.open) ==> conn.smc.log == old(conn.smc.log) && !conn.open
    {
      hide FtstForced, FansForced, Released, Recorded, Willing, MayHold, Accepted;
      hide InScope, Asked, ByteWrite, OneSlot, ByteSized, Listed;
      var won := tearDownOnce.CompareExchange();
      if !won {
        return;
      }
      ghost var start, slots, n, records, unlocked := conn.smc.log, conn.Slots(), |fans|, ring.history, unlock != null;
      ForceAuto(conn, |fans|);
      ghost var auto, slots1 := conn.smc.log, conn.Slots();
      ReleaseDiagnosticUnlock();
      ghost var relocked, slots2 := conn.smc.log, conn.Slots();
      var ok := conn.ForceWriteFtstZero();
      TeardownCompletes(conn.smc.kernel, conn.open, n, slots, start, slots1, auto, unlocked, slots2, relocked,
                        ok.Ok?, conn.Slots(), conn.smc.log);
      RelocksWithin(records, ring.history, start, auto, relocked, conn.smc.log, unlocked);
      conn.Close();
    }
  }

  // ---- every run --------------------------------------------------------------------------

  datatype Call = Unlock | Commit(fan: nat, target: real) | Test(iterations: Byte) | Release | TearDown

  // Whatever is asked of a session, in whatever order, whatever the SMC answers: it writes 0 or
  // 1 to the mode registers of its fans and to `Ftst`, nothing else, and forgets no record.
  method AnyRun(session: Session, calls: seq<Call>)
    requires session.Valid() && (session.unlock == null)
    modifies session`unlock, session.conn`open, session.conn.smc`log, session.conn.cache.slots
    modifies session.ring, session.ring.records, session.tearDownOnce
    ensures session.Valid()
    ensures WritesIn(old(session.conn.smc.log), session.conn.smc.log, Whitelist(|session.fans|))
    ensures Grown(old(session.ring.history), session.ring.history,
                  old(session.conn.smc.log), session.conn.smc.log)
    ensures !old(session.conn.open) ==> session.conn.smc.log == old(session.conn.smc.log)
  {
    hide Unlocked, Released, Ran, Engages, Shows, FtstForced, Recorded, OneForced, ByteSized;
    hide Commits, Relocks, RunFailed, Told, Willing, MayHold;
    ghost var start, records, n := session.conn.smc.log, session.ring.history, |session.fans|;
    NothingAdded(records, start, start);
    for i := 0 to |calls|
      invariant session.Valid() && WritesIn(start, session.conn.smc.log, Whitelist(n))
      invariant session.unlock == null || fresh(session.unlock)
      invariant Grown(records, session.ring.history, start, session.conn.smc.log)
      invariant !old(session.conn.open) ==> session.conn.smc.log == start && !session.conn.open
    {
      ghost var before, h := session.conn.smc.log, session.ring.history;
      ghost var kernel, open, slots := session.conn.smc.kernel, session.conn.open, session.conn.Slots();
      ghost var unlocked, lost := session.unlock != null, session.tearDownOnce.raised;
      match calls[i] {
        case Unlock =>
          var r := session.BeginDiagnosticUnlock();
          FtstScope(before, session.conn.smc.log, 1, Whitelist(n));
          if unlocked {
            NothingAdded(h, before, before);
          } else {
            UnlockedGrown(kernel, open, slots, h, session.ring.history, before, session.conn.smc.log, r);
          }
        case Commit(fan, target) =>
          var r := session.CommitSetFan(fan, target);
          if fan < n {
            ghost var fan' := session.fans[fan];
            ghost var refused := Abs(target - fan'.minRpm) > (fan'.maxRpm - fan'.minRpm) * 0.05;
            CommitsGrown(kernel, open, slots, h, session.ring.history, before, session.conn.smc.log, unlocked, fan,
                         refused, r);
          } else {
            NothingAdded(h, before, before);
          }
        case Test(iterations) =>
          var r := session.RunSelftest(iterations);
          if r.Ok? {
            RanTold(before, session.conn.smc.log, session.ring.history[|h|..], r.value.perFan, iterations);
          } else {
            RunFailedGrown(kernel, open, slots[MODE_SLOT], h, session.ring.history, before, session.conn.smc.log, n,
                           iterations, r.error);
          }
        case Release =>
          session.ReleaseDiagnosticUnlock();
          FtstScope(before, session.conn.smc.log, 0, Whitelist(n));
          RelocksWithin(h, session.ring.history, before, before, session.conn.smc.log, session.conn.smc.log, unlocked);
          RelocksGrown(h, session.ring.history, before, session.conn.smc.log, unlocked);
        case TearDown =>
          session.Teardown();
          RelocksGrown(h, session.ring.history, before, session.conn.smc.log, unlocked && !lost);
      }
      GrownJoins(records, h, session.ring.history, start, before, session.conn.smc.log);
      assert WritesIn(before, session.conn.smc.log, Whitelist(n));
      ScopesJoin(start, before, session.conn.smc.log, Whitelist(n), Whitelist(n), Whitelist(n));
    }
  }

  // After a teardown that won, whatever is still asked of the session says nothing to the SMC.
  method TeardownIsFinal(session: Session, calls: seq<Call>) returns (ghost released: seq<Exchange>)
    requires session.Valid() && !session.tearDownOnce.raised && session.unlock == null
    modifies session`unlock, session.conn`open, session.conn.smc`log, session.conn.cache.slots
    modifies session.ring, session.ring.records, session.tearDownOnce
    ensures session.Valid() && session.conn.smc.log == released
    ensures exists slots' :: Released(session.conn.smc.kernel, old(session.conn.open), |session.fans|,
                                      old(session.conn.Slots()), old(session.conn.smc.log), slots', released)
  {
    hide Released;
    session.Teardown();
    released := session.conn.smc.log;
    AnyRun(session, calls);
  }

  // src/smc/signal.rs: the thread that answers SIGTERM and SIGINT, on its own connection.
  class SignalThread {
    const conn: Connection
    const fans: nat
    const releaseInProgress: AtomicFlag
    var reloadRequested: bool

    ghost predicate Valid()
      reads conn.cache, conn.cache.slots
    {
      conn.Valid() && fans <= 208
    }

    constructor (conn: Connection, fans: nat, flag: AtomicFlag)
      requires conn.Valid() && fans <= 208
      ensures Valid() && this.conn == conn && this.fans == fans && releaseInProgress == flag
    {
      this.conn := conn;
      this.fans := fans;
      releaseInProgress := flag;
      reloadRequested := false;
    }

    // The dispatch loop. A hangup is noted, an info request reads nothing and writes nothing;
    // the first terminate or interrupt ends the process.
    method Serve(signals: seq<PosixSignal>) returns (exit: Option<nat>)
      requires Valid()
      modifies this`reloadRequested, conn.smc`log, conn.cache.slots, releaseInProgress
      ensures Valid()
      ensures exit.Some? <==> Terminate in signals || Interrupt in signals
      ensures exit.None? ==>
                conn.smc.log == old(conn.smc.log) && releaseInProgress.raised == old(releaseInProgress.raised)
      ensures exit.None? ==> reloadRequested == (old(reloadRequested) || Hangup in signals)
      ensures exit.Some? ==> exit.value == if old(releaseInProgress.raised) then 1 else 0
      ensures exit == Some(0) ==>
                && Listed(old(conn.smc.log), conn.smc.log, fans, fans + 1)
                && Released(conn.smc.kernel, conn.open, fans, old(conn.Slots()), old(conn.smc.log),
                            conn.Slots(), conn.smc.log)
      ensures exit == Some(1) ==> conn.smc.log == old(conn.smc.log)
    {
      for i := 0 to |signals|
        invariant Terminate !in signals[..i] && Interrupt !in signals[..i]
        invariant reloadRequested == (old(reloadRequested) || Hangup in signals[..i])
        invariant Valid() && conn.smc.log == old(conn.smc.log) && conn.Slots() == old(conn.Slots())
        invariant releaseInProgress.raised == old(releaseInProgress.raised)
      {
        match signals[i] {
          case Hangup => reloadRequested := true;
          case Info =>
          case Terminate =>
            var code := TeardownAndExit();
            return Some(code);
          case Interrupt =>
            var code := TeardownAndExit();
            return Some(code);
        }
      }
      exit := None;
    }

    // The process exit code: 0 after the release list, 1 at once when someone else has the flag.
    method TeardownAndExit() returns (exit: nat)
      requires Valid()
      modifies conn.smc`log, conn.cache.slots, releaseInProgress
      ensures Valid() && releaseInProgress.raised
      ensures exit == if old(releaseInProgress.raised) then 1 else 0
      ensures exit == 1 ==> conn.smc.log == old(conn.smc.log)
      ensures exit == 0 ==>
                && Listed(old(conn.smc.log), conn.smc.log, fans, fans + 1)
                && Released(conn.smc.kernel, conn.open, fans, old(conn.Slots()), old(conn.smc.log),
                            conn.Slots(), conn.smc.log)
    {
      var won := releaseInProgress.CompareExchange();
      if !won {
        return 1;
      }
      ForceRelease(conn, fans);
      exit := 0;
    }
  }

  // src/smc/panic_hook.rs: its own connection and its own guard; the shared flag is not consulted.
  class PanicHook {
    const conn: Connection
    const fans: nat
    var active: bool

    ghost predicate Valid()
      reads conn.cache, conn.cache.slots
    {
      conn.Valid() && fans <= 208
    }

    constructor (conn: Connection, fans: nat)
      requires conn.Valid() && fans <= 208
      ensures Valid() && this.conn == conn && this.fans == fans && !active
    {
      this.conn := conn;
      this.fans := fans;
      active := false;
    }

    method Body()
      requires Valid()
      modifies this`active, conn.smc`log, conn.cache.slots
      ensures Valid() && active
      ensures old(active) ==> conn.smc.log == old(conn.smc.log)
      ensures !old(active) ==>
                && Listed(old(conn.smc.log), conn.smc.log, fans, fans + 1)
                && Released(conn.smc.kernel, conn.open, fans, old(conn.Slots()), old(conn.smc.log),
                            conn.Slots(), conn.smc.log)
    {
      if active {
        return;
      }
      active := true;
      ForceRelease(conn, fans);
    }
  }

  datatype PosixSignal = Hangup | Info | Terminate | Interrupt

  datatype Acquired = Acquired(session: Session, signal: SignalThread, hook: PanicHook)

  // Lock, three connections, enumeration. Nothing is written. `opens` is how many of the
  // three user clients the system grants.
  method Acquire(smc: Smc, lockFree: bool, opens: nat) returns (r: Result<Acquired>)
    modifies smc`log
    ensures ReadsOnly(old(smc.log), smc.log)
    ensures !lockFree ==> r == Err(ConflictDetected) && smc.log == old(smc.log)
    ensures lockFree && opens < 3 ==> r == Err(ServiceNotFound) && smc.log == old(smc.log)
    ensures r.Ok? ==>
              var Acquired(session, signal, hook) := r.value;
              && session.Valid() && signal.Valid() && hook.Valid()
              && session.conn.smc == smc && signal.conn.smc == smc && hook.conn.smc == smc
              && session.conn != signal.conn && signal.conn != hook.conn && hook.conn != session.conn
              && session.conn.open && signal.conn.open && hook.conn.open && !hook.active
              && signal.conn.Slots() == hook.conn.Slots() == KeyCache.Blank()
              && signal.fans == hook.fans == |session.fans|
              && session.tearDownOnce == signal.releaseInProgress && !session.tearDownOnce.raised
              && session.unlock == null && session.ring.history == []
              && Numbered(old(smc.log), smc.log, session.fans) && Counted(old(smc.log), smc.log, |session.fans|)
              && ModeKeysFound(false, old(smc.log), smc.log, session.fans)
  {
    if !lockFree {
      return Err(ConflictDetected);
    }
    if opens < 3 {
      return Err(ServiceNotFound);
    }
    var mainConn := new Connection(smc);
    var teardownConn := new Connection(smc);
    var panicConn := new Connection(smc);
    var fans := EnumerateFans(mainConn);
    if fans.Err? {
      return Err(fans.error);
    }
    var hook := new PanicHook(panicConn, |fans.value|);
    var flag := new AtomicFlag();
    var signal := new SignalThread(teardownConn, |fans.value|, flag);
    var session := new Session(mainConn, fans.value, flag);
    r := Ok(Acquired(session, signal, hook));
  }
}
