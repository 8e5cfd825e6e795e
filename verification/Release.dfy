/** The release list shared by src/smc/write_session.rs, src/smc/signal.rs and src/smc/panic_hook.rs:
    a zero to every mode register, then one to `Ftst`, each tried whatever happened to the others. */
module Release {
  import opened Enumerate
  import opened Floats
  import opened Registers
  import opened SmcConnection
  import opened SmcTypes
  import KeyCache

  // Since `before`, the SMC has been asked about `key`.
  ghost predicate Asked(before: seq<Exchange>, after: seq<Exchange>, key: nat) {
    exists i :: |before| <= i < |after| && after[i].req.key == key
  }

  lemma StillAsked(before: seq<Exchange>, mid: seq<Exchange>, after: seq<Exchange>, later: seq<Exchange>, key: nat)
    requires before <= mid <= after <= later && Asked(mid, after, key)
    ensures Asked(before, later, key)
  {
    var i :| |mid| <= i < |after| && after[i].req.key == key;
    assert later[i] == after[i];
  }

  lemma ModeSlotShared(fan: nat)
    ensures KeyCache.Slot(ModeKey(fan)) == MODE_SLOT
  {
    SlotIsLastCharacter(fan, 'm', 'd');
    SlotIsLastCharacter(0, 'm', 'd');
  }

  // ---- the order of the writes ------------------------------------------------------------

  // The fans, and `Ftst` from then on.
  function RegisterKey(n: nat, k: nat): nat { if k < n then ModeKey(k) else FTST_KEY }

  // The first `length` entries of the list, one stretch of the conversation each, in order.
  ghost predicate Listed(before: seq<Exchange>, after: seq<Exchange>, n: nat, length: nat)
    decreases length
  {
    if length == 0 then after == before
    else
      var k := length - 1;
      exists mid: seq<Exchange> :: Listed(before, mid, n, k) && WritesOnly(mid, after, RegisterKey(n, k), [0])
  }

  lemma ListedMore(before: seq<Exchange>, mid: seq<Exchange>, after: seq<Exchange>, n: nat, k: nat)
    requires Listed(before, mid, n, k) && WritesOnly(mid, after, RegisterKey(n, k), [0])
    ensures Listed(before, after, n, k + 1)
  {
  }

  // ---- the loop over the fans -------------------------------------------------------------

  // The slot all mode registers share does not speak against one-byte writes.
  ghost predicate NarrowSlot(slots: KeyCache.Slots) {
    slots[MODE_SLOT].Some? ==> slots[MODE_SLOT].value.size == 1
  }

  // The cache after looking up the first `n` mode registers.
  ghost function ModeLookups(slots: KeyCache.Slots, table: KeyCache.Table, n: nat): KeyCache.Slots {
    if n == 0 then slots
    else KeyCache.Next(ModeLookups(slots, table, n - 1), table, KeyCache.Lookup(ModeKey(n - 1)))
  }

  // Fan by fan: the SMC is asked unless the shared slot forbids it, and a register that is willing
  // takes its zero exactly unless the shared slot forbids it, whatever the other registers do. The
  // slot forbids nothing as long as no register describes itself as other than one byte.
  ghost predicate FansForced(kernel: Kernel, open: bool, n: nat, slots: KeyCache.Slots, before: seq<Exchange>,
                             slots': KeyCache.Slots, after: seq<Exchange>) {
    && WritesIn(before, after, Scope(FansBelow(n), {0}, {}))
    && (!open ==> after == before)
    && OneSlot(slots, slots', ModeKey(0))
    && (slots[MODE_SLOT].Some? ==> slots' == slots)
    && ((forall i :: 0 <= i < n ==> Harmless(kernel, ModeKey(i))) && NarrowSlot(slots) ==> NarrowSlot(slots'))
    && (open ==> forall table :: Answers(kernel, table) ==> slots' == ModeLookups(slots, table, n))
    && (open ==> forall i :: 0 <= i < n ==> FanForced(kernel, i, before, slots', after))
  }

  ghost predicate FanForced(kernel: Kernel, fan: nat, before: seq<Exchange>,
                            slots': KeyCache.Slots, after: seq<Exchange>) {
    && (NarrowSlot(slots') ==> Asked(before, after, ModeKey(fan)))
    && (Willing(kernel, ModeKey(fan)) ==>
          slots'[MODE_SLOT].Some? && (Accepted(before, after, ModeKey(fan)) <==> NarrowSlot(slots')))
  }

  lemma NoneForced(kernel: Kernel, open: bool, slots: KeyCache.Slots, log: seq<Exchange>)
    ensures FansForced(kernel, open, 0, slots, log, slots, log)
  {
  }

  lemma NotWritten(before: seq<Exchange>, after: seq<Exchange>, n: nat, fan: nat)
    requires WritesIn(before, after, Scope(FansBelow(n), {0}, {})) && n <= fan < 208 && n <= 208
    ensures !Accepted(before, after, ModeKey(fan))
  {
    forall i | |before| <= i < |after| && after[i].req.WriteKey? ensures after[i].req.key != ModeKey(fan) {
      assert InScope(after[i].req, Scope(FansBelow(n), {0}, {}));
      var j :| j in FansBelow(n) && after[i].req.key == ModeKey(j);
      KeysDistinct(FanMode(j), FanMode(fan));
    }
  }

  // An earlier fan keeps its standing through the next one's turn.
  lemma EarlierFan(kernel: Kernel, n: nat, fan: nat, ok: bool, before: seq<Exchange>, slots: KeyCache.Slots,
                   mid: seq<Exchange>, slots': KeyCache.Slots, after: seq<Exchange>)
    requires fan < n < 208 && before <= mid && FanForced(kernel, fan, before, slots, mid)
    requires ByteWrite(kernel, true, ModeKey(n), ok, slots, mid, slots', after)
    requires WritesOnly(mid, after, ModeKey(n), [0])
    ensures FanForced(kernel, fan, before, slots', after)
  {
    ModeSlotShared(n);
    if Asked(before, mid, ModeKey(fan)) {
      StillAsked(before, before, mid, after, ModeKey(fan));
    }
    KeysDistinct(FanMode(fan), FanMode(n));
    AcceptedSplits(before, mid, after, ModeKey(fan));
  }

  // The fan whose turn it is.
  lemma CurrentFan(kernel: Kernel, n: nat, ok: bool, before: seq<Exchange>, slots: KeyCache.Slots,
                   mid: seq<Exchange>, slots': KeyCache.Slots, after: seq<Exchange>)
    requires n < 208 && WritesIn(before, mid, Scope(FansBelow(n), {0}, {}))
    requires ByteWrite(kernel, true, ModeKey(n), ok, slots, mid, slots', after)
    requires WritesOnly(mid, after, ModeKey(n), [0])
    requires ok <==> Accepted(mid, after, ModeKey(n))
    ensures FanForced(kernel, n, before, slots', after)
  {
    ModeSlotShared(n);
    NotWritten(before, mid, n, n);
    if mid != after {
      assert Asked(mid, after, ModeKey(n));
      StillAsked(before, mid, after, after, ModeKey(n));
    }
    AcceptedSplits(before, mid, after, ModeKey(n));
  }

  lemma OneMoreFan(kernel: Kernel, open: bool, n: nat, ok: bool, slots0: KeyCache.Slots, before: seq<Exchange>,
                   slots: KeyCache.Slots, mid: seq<Exchange>, slots': KeyCache.Slots, after: seq<Exchange>)
    requires n < 208 && FansForced(kernel, open, n, slots0, before, slots, mid)
    requires ByteWrite(kernel, open, ModeKey(n), ok, slots, mid, slots', after)
    requires WritesOnly(mid, after, ModeKey(n), [0])
    requires ok <==> Accepted(mid, after, ModeKey(n))
    requires open ==> FollowsLookup(kernel, slots, slots', ModeKey(n))
    ensures FansForced(kernel, open, n + 1, slots0, before, slots', after)
  {
    ModeSlotShared(n);
    ModeSlotShared(0);
    OneFanScope(mid, after, n, 0, Scope({n}, {0}, {}));
    ScopesJoin(before, mid, after, Scope(FansBelow(n), {0}, {}), Scope({n}, {0}, {}), Scope(FansBelow(n + 1), {0}, {}));
    if open {
      CurrentFan(kernel, n, ok, before, slots, mid, slots', after);
      forall i | 0 <= i < n ensures FanForced(kernel, i, before, slots', after) {
        EarlierFan(kernel, n, i, ok, before, slots, mid, slots', after);
      }
    }
    if (forall i :: 0 <= i < n + 1 ==> Harmless(kernel, ModeKey(i))) && NarrowSlot(slots0) {
      assert Harmless(kernel, ModeKey(n));
    }
  }

  method ForceAuto(conn: Connection, n: nat)
    requires conn.Valid() && n <= 208
    modifies conn.smc`log, conn.cache.slots
    ensures conn.Valid()
    ensures FansForced(conn.smc.kernel, conn.open, n, old(conn.Slots()), old(conn.smc.log), conn.Slots(), conn.smc.log)
    ensures old(conn.smc.log) <= conn.smc.log && Listed(old(conn.smc.log), conn.smc.log, n, n)
  {
    ghost var start, slots := conn.smc.log, conn.Slots();
    NoneForced(conn.smc.kernel, conn.open, slots, start);
    for f := 0 to n
      invariant conn.Valid()
      invariant FansForced(conn.smc.kernel, conn.open, f, slots, start, conn.Slots(), conn.smc.log)
      invariant Listed(start, conn.smc.log, n, f)
    {
      ghost var mid, was := conn.smc.log, conn.Slots();
      var ok := conn.ForceWriteAutoMode(f);
      OneMoreFan(conn.smc.kernel, conn.open, f, ok.Ok?, slots, start, was, mid, conn.Slots(), conn.smc.log);
      ListedMore(start, mid, conn.smc.log, n, f);
    }
  }

  // ---- the whole list ---------------------------------------------------------------------

  // The same for a complete release: every mode register and `Ftst`, which has a slot of its own.
  ghost predicate Released(kernel: Kernel, open: bool, n: nat, slots: KeyCache.Slots, before: seq<Exchange>,
                           slots': KeyCache.Slots, after: seq<Exchange>) {
    && WritesIn(before, after, Releases(n))
    && (!open ==> after == before)
    && ((forall i :: 0 <= i < n ==> Harmless(kernel, ModeKey(i))) && NarrowSlot(slots) ==> NarrowSlot(slots'))
    && (open ==> forall table :: Answers(kernel, table) ==>
          slots'[MODE_SLOT] == ModeLookups(slots, table, n)[MODE_SLOT])
    && (open ==> forall i :: 0 <= i < n ==> FanForced(kernel, i, before, slots', after))
    && (open ==> FtstForced(kernel, before, slots, after))
  }

  ghost predicate FtstForced(kernel: Kernel, before: seq<Exchange>, slots: KeyCache.Slots, after: seq<Exchange>) {
    && (ByteSized(slots, FTST_KEY) ==> Asked(before, after, FTST_KEY))
    && (Willing(kernel, FTST_KEY) ==> (Accepted(before, after, FTST_KEY) <==> ByteSized(slots, FTST_KEY)))
  }

  lemma FtstSlotApart()
    ensures KeyCache.Slot(FTST_KEY) != MODE_SLOT
  {
  }

  // Writes to `Ftst` disturb no fan's standing.
  lemma FanThenFtst(kernel: Kernel, fan: nat, before: seq<Exchange>, slots: KeyCache.Slots, mid: seq<Exchange>,
                    slots': KeyCache.Slots, after: seq<Exchange>)
    requires Nameable(fan) && before <= mid && FanForced(kernel, fan, before, slots, mid)
    requires WritesOnly(mid, after, FTST_KEY, [0]) && slots'[MODE_SLOT] == slots[MODE_SLOT]
    ensures FanForced(kernel, fan, before, slots', after)
  {
    if Asked(before, mid, ModeKey(fan)) {
      StillAsked(before, before, mid, after, ModeKey(fan));
    }
    KeysDistinct(FanMode(fan), Ftst);
    AcceptedSplits(before, mid, after, ModeKey(fan));
  }

  lemma FansLeaveFtst(before: seq<Exchange>, mid: seq<Exchange>, n: nat)
    requires WritesIn(before, mid, Scope(FansBelow(n), {0}, {})) && n <= 208
    ensures !Accepted(before, mid, FTST_KEY)
  {
    forall i | |before| <= i < |mid| && mid[i].req.WriteKey? ensures mid[i].req.key != FTST_KEY {
      assert InScope(mid[i].req, Scope(FansBelow(n), {0}, {}));
      var j :| j in FansBelow(n) && mid[i].req.key == ModeKey(j);
      KeysDistinct(FanMode(j), Ftst);
    }
  }

  // The fans' loop, then anything that tried `Ftst` and wrote nothing but zeros to it.
  lemma ReleaseCompletes(kernel: Kernel, open: bool, n: nat, slots: KeyCache.Slots, before: seq<Exchange>,
                         slots1: KeyCache.Slots, mid: seq<Exchange>, slots': KeyCache.Slots, after: seq<Exchange>)
    requires n <= 208 && FansForced(kernel, open, n, slots, before, slots1, mid)
    requires WritesOnly(mid, after, FTST_KEY, [0]) && OneSlot(slots1, slots', FTST_KEY)
    requires !open ==> after == mid
    requires open ==> FtstForced(kernel, mid, slots1, after)
    ensures Released(kernel, open, n, slots, before, slots', after)
  {
    FtstSlotApart();
    ModeSlotShared(0);
    FtstScope(mid, after, 0, Scope({}, {}, {0}));
    ScopesJoin(before, mid, after, Scope(FansBelow(n), {0}, {}), Scope({}, {}, {0}), Releases(n));
    if open {
      forall i | 0 <= i < n ensures FanForced(kernel, i, before, slots', after) {
        FanThenFtst(kernel, i, before, slots1, mid, slots', after);
      }
      FansLeaveFtst(before, mid, n);
      if Asked(mid, after, FTST_KEY) {
        StillAsked(before, mid, after, after, FTST_KEY);
      }
      AcceptedSplits(before, mid, after, FTST_KEY);
    }
  }

  lemma ReleasedWrites(kernel: Kernel, open: bool, n: nat, slots: KeyCache.Slots, before: seq<Exchange>,
                       slots': KeyCache.Slots, after: seq<Exchange>)
    requires Released(kernel, open, n, slots, before, slots', after)
    ensures WritesIn(before, after, Releases(n)) && (!open ==> after == before)
  {
  }

  lemma FtstTried(kernel: Kernel, open: bool, ok: bool, slots: KeyCache.Slots, before: seq<Exchange>,
                  slots': KeyCache.Slots, after: seq<Exchange>)
    requires ByteWrite(kernel, open, FTST_KEY, ok, slots, before, slots', after)
    requires ok <==> Accepted(before, after, FTST_KEY)
    requires before <= after
    ensures open ==> FtstForced(kernel, before, slots, after)
  {
    if before != after {
      assert Asked(before, after, FTST_KEY);
    }
  }

  // The list of the signal thread and of the panic hook.
  method ForceRelease(conn: Connection, n: nat)
    requires conn.Valid() && n <= 208
    modifies conn.smc`log, conn.cache.slots
    ensures conn.Valid()
    ensures Released(conn.smc.kernel, conn.open, n, old(conn.Slots()), old(conn.smc.log), conn.Slots(), conn.smc.log)
    ensures Listed(old(conn.smc.log), conn.smc.log, n, n + 1)
  {
    ghost var start, slots := conn.smc.log, conn.Slots();
    ForceAuto(conn, n);
    ghost var mid, slots1 := conn.smc.log, conn.Slots();
    var ok := conn.ForceWriteFtstZero();
    ListedMore(start, mid, conn.smc.log, n, n);
    FtstTried(conn.smc.kernel, conn.open, ok.Ok?, slots1, mid, conn.Slots(), conn.smc.log);
    ReleaseCompletes(conn.smc.kernel, conn.open, n, slots, start, slots1, mid, conn.Slots(), conn.smc.log);
  }

  // ---- what a release leaves behind -------------------------------------------------------

  // Isolation: a willing register takes its zero whatever the others refuse, exactly unless the shared
  // slot ends up describing a register of another width; it ends cleared exactly then, or if it was.
  lemma WillingFanCleared(kernel: Kernel, n: nat, slots: KeyCache.Slots, before: seq<Exchange>,
                          slots': KeyCache.Slots, after: seq<Exchange>, fan: nat)
    requires Released(kernel, true, n, slots, before, slots', after) && fan < n && Willing(kernel, ModeKey(fan))
    ensures Accepted(before, after, ModeKey(fan)) <==> NarrowSlot(slots')
    ensures Cleared(after, ModeKey(fan)) <==> NarrowSlot(slots') || Cleared(before, ModeKey(fan))
  {
    assert FanForced(kernel, fan, before, slots', after);
    ClearedIff(before, after, ModeKey(fan));
  }

  lemma WillingFtstCleared(kernel: Kernel, n: nat, slots: KeyCache.Slots, before: seq<Exchange>,
                           slots': KeyCache.Slots, after: seq<Exchange>)
    requires Released(kernel, true, n, slots, before, slots', after) && Willing(kernel, FTST_KEY)
    ensures Accepted(before, after, FTST_KEY) <==> ByteSized(slots, FTST_KEY)
    ensures Cleared(after, FTST_KEY) <==> ByteSized(slots, FTST_KEY) || Cleared(before, FTST_KEY)
  {
    ClearedIff(before, after, FTST_KEY);
  }

  // What the shared slot says in the end can be told beforehand: what it said, or what the first
  // register that describes itself says.
  ghost predicate FirstDescribedNarrow(slots: KeyCache.Slots, table: KeyCache.Table, n: nat) {
    if slots[MODE_SLOT].Some? then slots[MODE_SLOT].value.size == 1
    else forall j :: 0 <= j < n && table(ModeKey(j)).Ok? && (forall i :: 0 <= i < j ==> table(ModeKey(i)).Err?) ==>
      table(ModeKey(j)).value.size == 1
  }

  lemma {:induction false} ModeSlotIs(slots: KeyCache.Slots, table: KeyCache.Table, n: nat)
    ensures var end := ModeLookups(slots, table, n);
            if slots[MODE_SLOT].Some? then end == slots
            else match end[MODE_SLOT]
                 case None => forall i :: 0 <= i < n ==> table(ModeKey(i)).Err?
                 case Some(info) => exists j :: 0 <= j < n && table(ModeKey(j)) == Ok(info)
                                                && forall i :: 0 <= i < j ==> table(ModeKey(i)).Err?
  {
    if n > 0 {
      ModeSlotIs(slots, table, n - 1);
      ModeSlotShared(n - 1);
    }
  }

  // With fixed descriptions: a willing fan takes its zero exactly if the cached description, or else
  // that of the first fan that has one, is one byte wide.
  lemma WillingFanAcceptedIff(kernel: Kernel, table: KeyCache.Table, n: nat, slots: KeyCache.Slots,
                              before: seq<Exchange>, slots': KeyCache.Slots, after: seq<Exchange>, fan: nat)
    requires Released(kernel, true, n, slots, before, slots', after) && fan < n && Willing(kernel, ModeKey(fan))
    requires Answers(kernel, table)
    ensures Accepted(before, after, ModeKey(fan)) <==> FirstDescribedNarrow(slots, table, n)
  {
    ModeSlotIs(slots, table, n);
    assert FanForced(kernel, fan, before, slots', after);
    if slots[MODE_SLOT].None? && slots'[MODE_SLOT].Some? {
      var j :| 0 <= j < n && table(ModeKey(j)) == Ok(slots'[MODE_SLOT].value)
               && forall i :: 0 <= i < j ==> table(ModeKey(i)).Err?;
      forall k | 0 <= k < n && table(ModeKey(k)).Ok? && (forall i :: 0 <= i < k ==> table(ModeKey(i)).Err?)
        ensures k == j
      {
      }
    }
  }

  // The failing case: fan 0 describes its mode register as four bytes wide, and fan 1, whose own
  // register would take anything, is left as it was.
  lemma WideNeighbourBlocks(kernel: Kernel, table: KeyCache.Table, n: nat, before: seq<Exchange>,
                            slots': KeyCache.Slots, after: seq<Exchange>)
    requires n >= 2 && Released(kernel, true, n, KeyCache.Blank(), before, slots', after)
    requires Answers(kernel, table) && table(ModeKey(0)) == Ok(KeyInfo(4, TYPE_FLT)) && Willing(kernel, ModeKey(1))
    ensures !Accepted(before, after, ModeKey(1))
  {
    WillingFanAcceptedIff(kernel, table, n, KeyCache.Blank(), before, slots', after, 1);
    assert !FirstDescribedNarrow(KeyCache.Blank(), table, n);
  }

  // The SMC does as it is told on every register a release touches.
  ghost predicate Cooperative(kernel: Kernel, slots: KeyCache.Slots, n: nat) {
    && (forall i :: 0 <= i < n ==> Willing(kernel, ModeKey(i)))
    && NarrowSlot(slots) && Willing(kernel, FTST_KEY) && ByteSized(slots, FTST_KEY)
  }

  // Then nothing is left forced, even if other arms wrote their zeros in between or afterwards.
  lemma CooperativeRelease(kernel: Kernel, n: nat, slots: KeyCache.Slots, before: seq<Exchange>,
                           slots': KeyCache.Slots, after: seq<Exchange>, later: seq<Exchange>)
    requires Released(kernel, true, n, slots, before, slots', after) && Cooperative(kernel, slots, n)
    requires WritesIn(after, later, Releases(n))
    ensures AllAuto(later, n) && Cleared(later, FTST_KEY)
  {
    forall i | 0 <= i < n ensures Harmless(kernel, ModeKey(i)) {
      WillingIsHarmless(kernel, ModeKey(i));
    }
    ScopesJoin(before, after, later, Releases(n), Releases(n), Releases(n));
    forall i | 0 <= i < n ensures Cleared(later, ModeKey(i)) {
      WillingFanCleared(kernel, n, slots, before, slots', after, i);
      StillAccepted(before, before, after, later, ModeKey(i));
      ZeroSticks(before, later, n, ModeKey(i));
    }
    WillingFtstCleared(kernel, n, slots, before, slots', after);
    StillAccepted(before, before, after, later, FTST_KEY);
    ZeroSticks(before, later, n, FTST_KEY);
  }
}
