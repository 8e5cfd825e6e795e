/** src/smc/ffi.rs: one user-client connection to the SMC. Several connections may share the
    same SMC; each has its own key-info cache. The kernel's replies are arbitrary. */
module SmcConnection {
  import opened Floats
  import opened Registers
  import opened Ring
  import opened Singles
  import opened SmcTypes
  import KeyCache

  // ---- one request and its retries --------------------------------------------------------

  predicate Transient(reply: Reply) {
    reply.kr.KernBusy? || reply.kr.KernTimeout?
  }

  // The dual check: the IOKit return first, the SMC's own result byte second.
  function Verdict(reply: Reply): (v: Result<Reply>)
    ensures v.Ok? <==> Succeeded(reply)
  {
    match reply.kr
    case KernBusy => Err(Busy)
    case KernTimeout => Err(Timeout)
    case KernOther(_) => Err(CallFailed(reply.kr))
    case KernSuccess => if reply.result != 0 then Err(SmcResult(reply.result)) else Ok(reply)
  }

  // `after` is `before` and the complete conversation about `req`: up to three attempts, all
  // the same request, a busy and a timeout each retried once, the last attempt decisive.
  ghost predicate Settles(kernel: Kernel, before: seq<Exchange>, req: Request, after: seq<Exchange>,
                          result: Result<Reply>) {
    && |before| < |after| <= |before| + 3 && before <= after
    && (forall i :: |before| <= i < |after| ==> after[i] == Exchange(req, kernel(after[..i])(req)))
    && (forall i :: |before| <= i < |after| - 1 ==> Transient(after[i].reply))
    && (forall i, j :: |before| <= i < j < |after| - 1 ==> after[i].reply.kr != after[j].reply.kr)
    && var last := after[|after| - 1].reply;
       && result == Verdict(last)
       && (Transient(last) ==> exists i :: |before| <= i < |after| - 1 && after[i].reply.kr == last.kr)
  }

  // The conversation so far: only retried transients, each kind at most once.
  ghost predicate Retrying(kernel: Kernel, before: seq<Exchange>, req: Request, log: seq<Exchange>,
                           busy: bool, timeout: bool) {
    && before <= log && |log| == |before| + (if busy then 1 else 0) + (if timeout then 1 else 0)
    && (forall i :: |before| <= i < |log| ==> log[i] == Exchange(req, kernel(log[..i])(req)))
    && (forall i :: |before| <= i < |log| ==>
          (busy && log[i].reply.kr.KernBusy?) || (timeout && log[i].reply.kr.KernTimeout?))
    && (forall i, j :: |before| <= i < j < |log| ==> log[i].reply.kr != log[j].reply.kr)
  }

  lemma OneMoreAttempt(kernel: Kernel, before: seq<Exchange>, req: Request, log: seq<Exchange>,
                       busy: bool, timeout: bool)
    requires Retrying(kernel, before, req, log, busy, timeout)
    ensures var output := kernel(log)(req);
            var longer := log + [Exchange(req, output)];
            if output.kr.KernBusy? && !busy then Retrying(kernel, before, req, longer, true, timeout)
            else if output.kr.KernTimeout? && !timeout then Retrying(kernel, before, req, longer, busy, true)
            else Settles(kernel, before, req, longer, Verdict(output))
  {
    var output := kernel(log)(req);
    var longer := log + [Exchange(req, output)];
    assert forall i :: |before| <= i < |log| ==> longer[..i] == log[..i];
    assert longer[..|log|] == log;
    if Transient(output) && (output.kr.KernBusy? ==> busy) && (output.kr.KernTimeout? ==> timeout) {
      var n := |before|;
      assert log[n].reply.kr == output.kr || (busy && timeout && log[n + 1].reply.kr == output.kr);
    }
  }

  // Two conversations about the same request agree for as long as both last.
  lemma {:induction false} SameStart(kernel: Kernel, before: seq<Exchange>, req: Request,
                                     a: seq<Exchange>, x: Result<Reply>, b: seq<Exchange>, y: Result<Reply>, n: nat)
    requires Settles(kernel, before, req, a, x) && Settles(kernel, before, req, b, y)
    requires |before| <= n <= |a| && n <= |b|
    ensures a[..n] == b[..n]
  {
    if n == |before| {
      assert a[..n] == before == b[..n];
    } else {
      SameStart(kernel, before, req, a, x, b, y, n - 1);
      assert a[..n] == a[..n - 1] + [a[n - 1]] && b[..n] == b[..n - 1] + [b[n - 1]];
    }
  }

  // What the kernel does decides the whole conversation and its outcome.
  lemma SettlesUnique(kernel: Kernel, before: seq<Exchange>, req: Request,
                      a: seq<Exchange>, x: Result<Reply>, b: seq<Exchange>, y: Result<Reply>)
    requires Settles(kernel, before, req, a, x) && Settles(kernel, before, req, b, y)
    ensures a == b && x == y
  {
    var n := if |a| <= |b| then |a| else |b|;
    SameStart(kernel, before, req, a, x, b, y, n);
    assert forall i :: 0 <= i < n ==> a[i] == a[..n][i] && b[i] == b[..n][i];
    assert a[n - 1].reply == b[n - 1].reply;
    if |a| == |b| {
      assert a == a[..n] && b == b[..n];
    }
  }

  // ---- looking a key up -------------------------------------------------------------------

  // What an answered or refused key-info request says about `key`.
  function Info(key: nat, v: Result<Reply>): (r: Result<KeyInfo>)
    ensures r.Ok? ==> r.value.size <= 32
  {
    match v
    case Err(SmcResult(code)) => if code == ERR_KEY_NOT_FOUND then Err(KeyNotFound(key)) else Err(SmcResult(code))
    case Err(e) => Err(e)
    case Ok(reply) =>
      var clamped := Least(reply.size, 32);
      if clamped == 0 && reply.typ == 0 then Err(EmptyResponse(key)) else Ok(KeyInfo(clamped, reply.typ))
  }

  // One `read_key_info`: answered from the cache without a word to the SMC, or asked and remembered.
  ghost predicate Looked(kernel: Kernel, open: bool, key: nat, r: Result<KeyInfo>,
                         slots: KeyCache.Slots, before: seq<Exchange>, slots': KeyCache.Slots, after: seq<Exchange>) {
    match slots[KeyCache.Slot(key)]
    case Some(info) => r == Ok(info) && slots' == slots && after == before
    case None =>
      if open then
        && after != []
        && var v := Verdict(after[|after| - 1].reply);
           && Settles(kernel, before, GetKeyInfo(key), after, v)
           && r == Info(key, v)
           && slots' == KeyCache.Remember(slots, key, r)
      else r == Err(AlreadyClosed) && slots' == slots && after == before
  }

  // The kernel answers every key-info request as `table` says, give or take a retry.
  ghost predicate Answers(kernel: Kernel, table: KeyCache.Table) {
    forall key, before, after, v :: Settles(kernel, before, GetKeyInfo(key), after, v) ==> Info(key, v) == table(key)
  }

  // Against such a kernel a lookup is one step of the cache's event machine.
  lemma LookupFollows(kernel: Kernel, table: KeyCache.Table, key: nat, r: Result<KeyInfo>,
                      slots: KeyCache.Slots, before: seq<Exchange>, slots': KeyCache.Slots, after: seq<Exchange>)
    requires Answers(kernel, table) && Looked(kernel, true, key, r, slots, before, slots', after)
    ensures r == KeyCache.Answer(slots, table, key)
    ensures slots' == KeyCache.Next(slots, table, KeyCache.Lookup(key))
  {
  }

  // What an operation on `key` did to the cache: looked it up, and perhaps evicted it.
  ghost predicate Follows(kernel: Kernel, slots: KeyCache.Slots, slots': KeyCache.Slots, key: nat) {
    forall table :: Answers(kernel, table) ==>
      var looked := KeyCache.Next(slots, table, KeyCache.Lookup(key));
      slots' == looked || slots' == KeyCache.Next(looked, table, KeyCache.Evict(key))
  }

  // What a write to `key` did to the cache: looked it up.
  ghost predicate FollowsLookup(kernel: Kernel, slots: KeyCache.Slots, slots': KeyCache.Slots, key: nat) {
    forall table :: Answers(kernel, table) ==> slots' == KeyCache.Next(slots, table, KeyCache.Lookup(key))
  }

  lemma LookedFollows(kernel: Kernel, key: nat, r: Result<KeyInfo>,
                      slots: KeyCache.Slots, before: seq<Exchange>, slots': KeyCache.Slots, after: seq<Exchange>)
    requires Looked(kernel, true, key, r, slots, before, slots', after)
    ensures FollowsLookup(kernel, slots, slots', key)
  {
    forall table | Answers(kernel, table) ensures slots' == KeyCache.Next(slots, table, KeyCache.Lookup(key)) {
      LookupFollows(kernel, table, key, r, slots, before, slots', after);
    }
  }

  // Over every run of lookups and evictions among keys whose slot-mates agree, what
  // `read_key_info` returns is what the SMC itself would have answered.
  lemma CacheInvisible(kernel: Kernel, table: KeyCache.Table, keys: set<nat>, events: seq<KeyCache.Event>,
                       key: nat, r: Result<KeyInfo>,
                       slots: KeyCache.Slots, before: seq<Exchange>, slots': KeyCache.Slots, after: seq<Exchange>)
    requires Answers(kernel, table) && KeyCache.Agree(table, keys) && KeyCache.Over(events, keys) && key in keys
    requires slots == KeyCache.After(table, events)
    requires Looked(kernel, true, key, r, slots, before, slots', after)
    ensures r == table(key)
    ensures slots' == KeyCache.After(table, events + [KeyCache.Lookup(key)])
  {
    LookupFollows(kernel, table, key, r, slots, before, slots', after);
    KeyCache.StaysCoherent(table, keys, events);
    var longer := events + [KeyCache.Lookup(key)];
    assert longer[..|events|] == events;
  }

  // ---- how conversations end --------------------------------------------------------------

  // An error of a single read or write, as opposed to one of a verified operation.
  predicate Plain(e: SmcError) {
    !e.WriteRefused? && !e.WriteReadbackMismatch? && !e.UnlockRejected? && !e.UnlockMismatch?
  }

  predicate Writable(key: WritableKey) { key.Ftst? || Nameable(key.index) }

  // The conversation ended with the SMC accepting `bytes` for `key`.
  ghost predicate EndsAccepted(before: seq<Exchange>, after: seq<Exchange>, key: nat, bytes: seq<Byte>) {
    && |before| < |after|
    && var x := after[|after| - 1]; Writes(x, key) && x.req.bytes == bytes && Succeeded(x.reply)
  }

  // The conversation ended with the SMC answering a read of `key`, a `typ` of `size` bytes, with `bytes`.
  ghost predicate EndsRead(before: seq<Exchange>, after: seq<Exchange>, key: nat, info: KeyInfo, bytes: Payload) {
    && |before| < |after|
    && var x := after[|after| - 1];
       x.req == ReadKey(key, info.size, info.typ) && Succeeded(x.reply) && x.reply.bytes == bytes
  }

  // The conversation ended with the SMC answering that there is no such key.
  ghost predicate EndsAbsent(before: seq<Exchange>, after: seq<Exchange>, key: nat) {
    && |before| < |after|
    && var x := after[|after| - 1];
       x.req.key == key && x.reply.kr.KernSuccess? && x.reply.result == 0x84
  }

  // The conversation did not end with a value.
  ghost predicate Unread(before: seq<Exchange>, after: seq<Exchange>) {
    |before| < |after| ==> var x := after[|after| - 1]; !(x.req.ReadKey? && Succeeded(x.reply))
  }

  // The conversation ended with a read of `key`, or with the SMC refusing to describe it.
  ghost predicate Tried(before: seq<Exchange>, after: seq<Exchange>, key: nat) {
    && |before| < |after|
    && var x := after[|after| - 1];
       && x.req.key == key
       && (x.req.ReadKey? || (x.req.GetKeyInfo? && Info(key, Verdict(x.reply)).Err?))
  }

  // The byte the conversation ended with, if it ended with a byte of `key`.
  ghost function ByteRead(before: seq<Exchange>, after: seq<Exchange>, key: nat): Option<Byte> {
    if |before| < |after| && after[|after| - 1].req == ReadKey(key, 1, TYPE_UI8) && Succeeded(after[|after| - 1].reply)
    then Some(after[|after| - 1].reply.bytes[0])
    else None
  }

  // The finite single the conversation ended with, if it ended with one of `key`.
  ghost function FloatRead(before: seq<Exchange>, after: seq<Exchange>, key: nat): Option<Quad> {
    if |before| < |after| && after[|after| - 1].req == ReadKey(key, 4, TYPE_FLT) && Succeeded(after[|after| - 1].reply)
       && IsFinite(after[|after| - 1].reply.bytes[..4])
    then Some(after[|after| - 1].reply.bytes[..4])
    else None
  }

  // The number the conversation ended with, if it ended with a `ui32` of `key`.
  ghost function NumberRead(before: seq<Exchange>, after: seq<Exchange>, key: nat): Option<nat> {
    if |before| < |after| && after[|after| - 1].req == ReadKey(key, 4, TYPE_UI32) && Succeeded(after[|after| - 1].reply)
    then Some(BigEndian(after[|after| - 1].reply.bytes))
    else None
  }

  // What a read-back of a `ui8` or `flt` key answered.
  ghost function Answered(before: seq<Exchange>, after: seq<Exchange>, key: nat, typ: nat): Option<seq<Byte>> {
    if typ == TYPE_UI8 then
      match ByteRead(before, after, key)
      case Some(b) => Some([b])
      case None => None
    else
      match FloatRead(before, after, key)
      case Some(q) => Some(q)
      case None => None
  }

  // The SMC declares `key` to be one byte wide and accepts whatever is written to it.
  ghost predicate Willing(kernel: Kernel, key: nat) {
    forall log, req: Request :: !req.ReadKey? && req.key == key ==>
      var reply := kernel(log)(req);
      Succeeded(reply) && (req.GetKeyInfo? ==> reply.size == 1 && reply.typ == TYPE_UI8)
  }

  // So does the cache, if it has an opinion.
  ghost predicate ByteSized(slots: KeyCache.Slots, key: nat) {
    slots[KeyCache.Slot(key)].Some? ==> slots[KeyCache.Slot(key)].value.size == 1
  }

  // If the SMC describes `key` at all, then as one byte wide.
  ghost predicate Harmless(kernel: Kernel, key: nat) {
    forall log: seq<Exchange> ::
      var info := Info(key, Verdict(kernel(log)(GetKeyInfo(key))));
      info.Ok? ==> info.value.size == 1
  }

  lemma WillingIsHarmless(kernel: Kernel, key: nat)
    requires Willing(kernel, key)
    ensures Harmless(kernel, key)
  {
    forall log: seq<Exchange> ensures Info(key, Verdict(kernel(log)(GetKeyInfo(key)))) == Ok(KeyInfo(1, TYPE_UI8)) {
      assert Succeeded(kernel(log)(GetKeyInfo(key)));
    }
  }

  // A key that has been read as a byte.
  const BYTE_INFO := KeyInfo(1, TYPE_UI8)

  // ---- how a write goes ---------------------------------------------------------------------

  // One `write_raw`: looked up; if the width fits, asked, with the retries of every request.
  ghost predicate Wrote(kernel: Kernel, open: bool, key: nat, bytes: seq<Byte>, r: Result<()>, slots: KeyCache.Slots,
                        before: seq<Exchange>, slots': KeyCache.Slots, after: seq<Exchange>) {
    exists info, mid ::
      && Looked(kernel, open, key, info, slots, before, slots', mid) && ReadsOnly(before, mid)
      && WroteThen(kernel, open, key, bytes, info, r, mid, after)
  }

  ghost predicate WroteThen(kernel: Kernel, open: bool, key: nat, bytes: seq<Byte>, info: Result<KeyInfo>,
                            r: Result<()>, mid: seq<Exchange>, after: seq<Exchange>) {
    if info.Err? then after == mid && r == Err(info.error)
    else if |bytes| != info.value.size then after == mid && r == Err(SizeMismatch(key, info.value.size, |bytes|))
    else if !open then after == mid && r == Err(AlreadyClosed)
    else exists v ::
      && Settles(kernel, mid, WriteKey(key, info.value.size, info.value.typ, bytes), after, v)
      && r == if v.Ok? then Ok(()) else Err(v.error)
  }

  // Since `before`, the SMC has been asked to write these bytes.
  ghost predicate Sent(before: seq<Exchange>, after: seq<Exchange>, key: nat, bytes: seq<Byte>) {
    exists i :: |before| <= i < |after| && Writes(after[i], key) && after[i].req.bytes == bytes
  }

  // The slot, or if it is empty the SMC when asked, says how wide the key is.
  ghost predicate SaysWidth(kernel: Kernel, slot: Option<KeyInfo>, before: seq<Exchange>, key: nat, width: nat) {
    match slot
    case Some(info) => info.size == width
    case None => exists asked, v ::
      Settles(kernel, before, GetKeyInfo(key), asked, v) && Info(key, v).Ok? && Info(key, v).value.size == width
  }

  // The conversation ended with the SMC answering that it has no such key to describe.
  ghost predicate Denied(before: seq<Exchange>, after: seq<Exchange>, key: nat) {
    EndsAbsent(before, after, key) && after[|after| - 1].req == GetKeyInfo(key)
  }

  // With an empty slot the SMC is asked first, and the write is sent exactly if the slot, or else the SMC,
  // says that it fits.
  ghost predicate Asks(kernel: Kernel, open: bool, slot: Option<KeyInfo>, before: seq<Exchange>,
                       after: seq<Exchange>, key: nat, bytes: seq<Byte>) {
    && (open ==> (Sent(before, after, key, bytes) <==> SaysWidth(kernel, slot, before, key, |bytes|)))
    && (open && slot.None? ==> |before| < |after| && after[|before|].req == GetKeyInfo(key))
  }

  // An attempted write; if it is not accepted, the error is the one that stopped it.
  ghost predicate Attempt(kernel: Kernel, open: bool, slot: Option<KeyInfo>, before: seq<Exchange>,
                          after: seq<Exchange>, key: nat, bytes: seq<Byte>, r: Result<()>) {
    && Asks(kernel, open, slot, before, after, key, bytes)
    && (!Accepted(before, after, key) ==> Stopped(kernel, open, slot, before, after, key, bytes, r))
  }

  lemma AttemptAsks(kernel: Kernel, open: bool, slot: Option<KeyInfo>, before: seq<Exchange>,
                    after: seq<Exchange>, key: nat, bytes: seq<Byte>, r: Result<()>)
    requires Attempt(kernel, open, slot, before, after, key, bytes, r)
    ensures Asks(kernel, open, slot, before, after, key, bytes)
  {
  }

  ghost predicate Stopped(kernel: Kernel, open: bool, slot: Option<KeyInfo>, before: seq<Exchange>,
                          after: seq<Exchange>, key: nat, bytes: seq<Byte>, r: Result<()>) {
    exists wrote: Result<()>, slots, slots' ::
      && slots[KeyCache.Slot(key)] == slot && Wrote(kernel, open, key, bytes, wrote, slots, before, slots', after)
      && wrote.Err? && r == Err(Renamed(key, wrote.error))
  }

  function Renamed(key: nat, e: SmcError): SmcError {
    if e.SmcResult? then WriteRefused(key, e.result) else e
  }

  lemma FirstAsked(kernel: Kernel, before: seq<Exchange>, req: Request, after: seq<Exchange>, v: Result<Reply>)
    requires Settles(kernel, before, req, after, v)
    ensures |before| < |after| && after[|before|].req == req && after[|after| - 1].req == req
    ensures v == Verdict(after[|after| - 1].reply)
  {
  }

  // The lookup decides whether the write is sent.
  lemma SentIff(kernel: Kernel, key: nat, bytes: seq<Byte>, r: Result<()>, slots: KeyCache.Slots,
                before: seq<Exchange>, slots': KeyCache.Slots, after: seq<Exchange>)
    requires Wrote(kernel, true, key, bytes, r, slots, before, slots', after)
    ensures Sent(before, after, key, bytes) <==> SaysWidth(kernel, slots[KeyCache.Slot(key)], before, key, |bytes|)
    ensures slots[KeyCache.Slot(key)].None? ==> |before| < |after| && after[|before|].req == GetKeyInfo(key)
    ensures r.Err? && r.error.KeyNotFound? <==> Denied(before, after, key)
  {
    var info, mid :|
      && Looked(kernel, true, key, info, slots, before, slots', mid) && ReadsOnly(before, mid)
      && WroteThen(kernel, true, key, bytes, info, r, mid, after);
    LookedWidth(kernel, key, info, slots, before, slots', mid, |bytes|);
    hide Settles, Looked, SaysWidth, Info;
    if info.Ok? && info.value.size == |bytes| {
      var v :|
        && Settles(kernel, mid, WriteKey(key, info.value.size, info.value.typ, bytes), after, v)
        && r == if v.Ok? then Ok(()) else Err(v.error);
      FirstAsked(kernel, mid, WriteKey(key, info.value.size, info.value.typ, bytes), after, v);
      WriteEnds(kernel, key, info.value.size, info.value.typ, bytes, before, mid, after, v);
      assert Writes(after[|mid|], key);
      SettlesKeeps(kernel, mid, WriteKey(key, info.value.size, info.value.typ, bytes), after, v);
    }
  }

  lemma AttemptRefused(kernel: Kernel, open: bool, key: nat, bytes: seq<Byte>, wrote: Result<()>,
                       slots: KeyCache.Slots, before: seq<Exchange>, slots': KeyCache.Slots, after: seq<Exchange>)
    requires Wrote(kernel, open, key, bytes, wrote, slots, before, slots', after) && wrote.Err?
    ensures Attempt(kernel, open, slots[KeyCache.Slot(key)], before, after, key, bytes,
                    Err(Renamed(key, wrote.error)))
  {
    if open {
      SentIff(kernel, key, bytes, wrote, slots, before, slots', after);
    }
    hide Wrote, Sent, SaysWidth;
  }

  lemma AttemptAnswered(kernel: Kernel, open: bool, key: nat, bytes: seq<Byte>, wrote: Result<()>,
                        slots: KeyCache.Slots, before: seq<Exchange>, slots1: KeyCache.Slots, mid: seq<Exchange>,
                        after: seq<Exchange>, r: Result<()>)
    requires Wrote(kernel, open, key, bytes, wrote, slots, before, slots1, mid) && open
    requires WritesOnly(before, mid, key, bytes) && Accepted(before, mid, key) && ReadsOnly(mid, after)
    ensures Attempt(kernel, open, slots[KeyCache.Slot(key)], before, after, key, bytes, r)
  {
    SentIff(kernel, key, bytes, wrote, slots, before, slots1, mid);
    hide Wrote, SaysWidth;
    StillAccepted(before, before, mid, after, key);
    var i :| |before| <= i < |mid| && Writes(mid[i], key) && Succeeded(mid[i].reply);
    assert Sent(before, mid, key, bytes);
    assert after[i] == mid[i] && after[|before|] == mid[|before|];
  }

  lemma SettlesKeeps(kernel: Kernel, before: seq<Exchange>, req: Request, after: seq<Exchange>, v: Result<Reply>)
    requires Settles(kernel, before, req, after, v)
    ensures before <= after
  {
  }

  // A lookup says the width that the slot, or else the SMC, says; and the key is missing exactly if the SMC says so.
  lemma LookedWidth(kernel: Kernel, key: nat, info: Result<KeyInfo>, slots: KeyCache.Slots, before: seq<Exchange>,
                    slots': KeyCache.Slots, mid: seq<Exchange>, width: nat)
    requires Looked(kernel, true, key, info, slots, before, slots', mid)
    ensures SaysWidth(kernel, slots[KeyCache.Slot(key)], before, key, width) <==> info.Ok? && info.value.size == width
    ensures slots[KeyCache.Slot(key)].None? ==> |before| < |mid| && mid[|before|].req == GetKeyInfo(key)
    ensures info.Err? && info.error.KeyNotFound? <==> Denied(before, mid, key)
  {
    if slots[KeyCache.Slot(key)].None? {
      var v := Verdict(mid[|mid| - 1].reply);
      FirstAsked(kernel, before, GetKeyInfo(key), mid, v);
      forall asked, w | Settles(kernel, before, GetKeyInfo(key), asked, w) ensures w == v {
        SettlesUnique(kernel, before, GetKeyInfo(key), mid, v, asked, w);
      }
    }
  }

  // Only the slot of `key` differs.
  ghost predicate OneSlot(slots: KeyCache.Slots, slots': KeyCache.Slots, key: nat) {
    forall s :: 0 <= s < 256 && s != KeyCache.Slot(key) ==> slots'[s] == slots[s]
  }

  // ---- where the cache has it from ----------------------------------------------------------

  // Since `before`, the SMC has described some key that uses this slot so.
  ghost predicate SlotDescribed(before: seq<Exchange>, after: seq<Exchange>, slot: nat, info: KeyInfo) {
    exists i :: |before| <= i < |after| && after[i].req.GetKeyInfo? && KeyCache.Slot(after[i].req.key) == slot
                && Info(after[i].req.key, Verdict(after[i].reply)) == Ok(info)
  }

  // What a slot says it said before, or the SMC has said since.
  ghost predicate Taught(before: seq<Exchange>, after: seq<Exchange>, slots: KeyCache.Slots, slots': KeyCache.Slots) {
    && before <= after
    && forall s: nat :: s < 256 && slots'[s].Some? ==>
         slots'[s] == slots[s] || SlotDescribed(before, after, s, slots'[s].value)
  }

  lemma TaughtLonger(before: seq<Exchange>, mid: seq<Exchange>, after: seq<Exchange>, slots: KeyCache.Slots,
                     slots': KeyCache.Slots)
    requires Taught(before, mid, slots, slots') && mid <= after
    ensures Taught(before, after, slots, slots')
  {
    forall s: nat | s < 256 && slots'[s].Some? && slots'[s] != slots[s]
      ensures SlotDescribed(before, after, s, slots'[s].value)
    {
      SlotDescribedWithin(before, before, mid, after, s, slots'[s].value);
    }
  }

  lemma SlotDescribedWithin(before: seq<Exchange>, mid: seq<Exchange>, after: seq<Exchange>, later: seq<Exchange>,
                        slot: nat, info: KeyInfo)
    requires before <= mid <= after <= later && SlotDescribed(mid, after, slot, info)
    ensures SlotDescribed(before, later, slot, info)
  {
    var i :| |mid| <= i < |after| && after[i].req.GetKeyInfo? && KeyCache.Slot(after[i].req.key) == slot
             && Info(after[i].req.key, Verdict(after[i].reply)) == Ok(info);
    assert later[i] == after[i];
  }

  lemma TaughtJoins(before: seq<Exchange>, mid: seq<Exchange>, after: seq<Exchange>, slots: KeyCache.Slots,
                    slots1: KeyCache.Slots, slots2: KeyCache.Slots)
    requires Taught(before, mid, slots, slots1) && Taught(mid, after, slots1, slots2)
    ensures Taught(before, after, slots, slots2)
  {
    hide SlotDescribed;
    forall s: nat | s < 256 && slots2[s].Some? && slots2[s] != slots[s]
      ensures SlotDescribed(before, after, s, slots2[s].value)
    {
      if slots2[s] == slots1[s] {
        SlotDescribedWithin(before, before, mid, after, s, slots2[s].value);
      } else {
        SlotDescribedWithin(before, mid, after, after, s, slots2[s].value);
      }
    }
  }

  lemma LookedTaught(kernel: Kernel, open: bool, key: nat, r: Result<KeyInfo>, slots: KeyCache.Slots,
                     before: seq<Exchange>, slots': KeyCache.Slots, after: seq<Exchange>, later: seq<Exchange>,
                     slots2: KeyCache.Slots)
    requires Looked(kernel, open, key, r, slots, before, slots', after) && before <= after <= later
    requires slots2 == slots' || slots2 == slots'[KeyCache.Slot(key) := None]
    ensures Taught(before, later, slots, slots2)
  {
    if open && slots[KeyCache.Slot(key)].None? && r.Ok? {
      var n := |after| - 1;
      FirstAsked(kernel, before, GetKeyInfo(key), after, Verdict(after[n].reply));
      assert later[n] == after[n];
      assert SlotDescribed(before, later, KeyCache.Slot(key), r.value);
    }
  }

  lemma WroteTaught(kernel: Kernel, open: bool, key: nat, bytes: seq<Byte>, r: Result<()>, slots: KeyCache.Slots,
                    before: seq<Exchange>, slots': KeyCache.Slots, after: seq<Exchange>)
    requires Wrote(kernel, open, key, bytes, r, slots, before, slots', after)
    ensures Taught(before, after, slots, slots')
  {
    var info, mid :|
      && Looked(kernel, open, key, info, slots, before, slots', mid) && ReadsOnly(before, mid)
      && WroteThen(kernel, open, key, bytes, info, r, mid, after);
    assert mid <= after by {
      WroteOnwards(kernel, open, key, bytes, info, r, mid, after);
    }
    hide Looked, WroteThen;
    LookedTaught(kernel, open, key, info, slots, before, slots', mid, after, slots');
  }

  lemma WroteOnwards(kernel: Kernel, open: bool, key: nat, bytes: seq<Byte>, info: Result<KeyInfo>,
                     r: Result<()>, mid: seq<Exchange>, after: seq<Exchange>)
    requires WroteThen(kernel, open, key, bytes, info, r, mid, after)
    ensures mid <= after
  {
  }

  // A write of one byte. It fills an empty slot and never changes a full one; the SMC is not asked
  // only if the slot says that the key is not one byte wide; and a willing register takes the byte
  // exactly unless the slot, which other keys share, says that.
  ghost predicate ByteWrite(kernel: Kernel, open: bool, key: nat, ok: bool, slots: KeyCache.Slots,
                            before: seq<Exchange>, slots': KeyCache.Slots, after: seq<Exchange>) {
    && OneSlot(slots, slots', key) && (slots[KeyCache.Slot(key)].Some? ==> slots' == slots)
    && (!open ==> !ok && after == before)
    && (open && after == before ==> !ByteSized(slots, key))
    && (after != before ==> |after| > 0 && after[|after| - 1].req.key == key)
    && (Harmless(kernel, key) && ByteSized(slots, key) ==> ByteSized(slots', key))
    && (open && Willing(kernel, key) ==>
          && (ok <==> ByteSized(slots, key)) && (ByteSized(slots', key) <==> ByteSized(slots, key))
          && slots'[KeyCache.Slot(key)].Some?)
  }

  // How a write ends, after a lookup that only read.
  lemma WriteEnds(kernel: Kernel, key: nat, size: nat, typ: nat, bytes: seq<Byte>, before: seq<Exchange>,
                  mid: seq<Exchange>, after: seq<Exchange>, v: Result<Reply>)
    requires ReadsOnly(before, mid)
    requires Settles(kernel, mid, WriteKey(key, size, typ, bytes), after, v)
    ensures WritesOnly(before, after, key, bytes) && |after| <= |mid| + 3
    ensures v.Ok? <==> EndsAccepted(before, after, key, bytes)
    ensures v.Ok? <==> Accepted(before, after, key)
    ensures v.Err? ==> Plain(v.error) && !v.error.KeyNotFound? && !v.error.SizeMismatch?
  {
    assert forall i :: 0 <= i < |mid| ==> after[i] == mid[i];
    if Accepted(before, after, key) {
      var i :| |before| <= i < |after| && Writes(after[i], key) && Succeeded(after[i].reply);
      assert i >= |mid|;
    }
  }

  // A lookup, and then the write if the key is one byte wide and the connection open.
  lemma WroteByte(kernel: Kernel, open: bool, key: nat, b: Byte, info: Result<KeyInfo>, ok: bool,
                  slots: KeyCache.Slots, before: seq<Exchange>, slots': KeyCache.Slots,
                  mid: seq<Exchange>, after: seq<Exchange>)
    requires Looked(kernel, open, key, info, slots, before, slots', mid) && before <= mid
    requires if open && info.Ok? && info.value.size == 1
             then exists v :: Settles(kernel, mid, WriteKey(key, 1, info.value.typ, [b]), after, v) && ok == v.Ok?
             else after == mid && !ok
    ensures ByteWrite(kernel, open, key, ok, slots, before, slots', after)
  {
    hide Answers;
    if open && Willing(kernel, key) && info.Ok? && info.value.size == 1 {
      var v :| Settles(kernel, mid, WriteKey(key, 1, info.value.typ, [b]), after, v) && ok == v.Ok?;
      var last := |after| - 1;
      assert after[last] == Exchange(WriteKey(key, 1, info.value.typ, [b]),
                                     kernel(after[..last])(WriteKey(key, 1, info.value.typ, [b])));
    }
  }

  // The same of a write of one byte with its read-back.
  ghost predicate ByteVerified(kernel: Kernel, open: bool, key: nat, slots: KeyCache.Slots,
                               before: seq<Exchange>, slots': KeyCache.Slots, after: seq<Exchange>) {
    && (open && after == before ==> !ByteSized(slots, key))
    && (after != before ==> |after| > 0 && after[|after| - 1].req.key == key)
    && (open && Willing(kernel, key) ==>
          && (ByteSized(slots', key) <==> ByteSized(slots, key))
          && (Accepted(before, after, key) <==> ByteSized(slots, key)))
  }

  lemma ReadBackLeaves(kernel: Kernel, open: bool, key: nat, slots: KeyCache.Slots, before: seq<Exchange>,
                       slots1: KeyCache.Slots, mid: seq<Exchange>, slots': KeyCache.Slots, after: seq<Exchange>)
    requires ByteWrite(kernel, open, key, true, slots, before, slots1, mid) && Accepted(before, mid, key)
    requires before <= mid <= after && Tried(mid, after, key)
    requires Willing(kernel, key) && ByteSized(slots1, key) ==> ByteSized(slots', key)
    requires OneSlot(slots1, slots', key)
    ensures ByteVerified(kernel, open, key, slots, before, slots', after) && OneSlot(slots, slots', key)
    ensures Accepted(before, after, key)
  {
    StillAccepted(before, before, mid, after, key);
  }

  // `written` was accepted, and everything since is a read-back that answered `got`.
  ghost predicate ReadBack(before: seq<Exchange>, mid: seq<Exchange>, after: seq<Exchange>, key: nat, typ: nat,
                           written: seq<Byte>, got: Option<seq<Byte>>) {
    && before <= mid <= after && WritesOnly(before, mid, key, written) && EndsAccepted(before, mid, key, written)
    && ReadsOnly(mid, after) && Tried(mid, after, key) && Answered(mid, after, key, typ) == got
  }

  // What the SMC did in a stretch of the conversation is what the record says: it was asked to write these
  // bytes to this key and did not take them, or took them and answered the read-back as recorded.
  ghost predicate Tells(before: seq<Exchange>, after: seq<Exchange>, rec: Record, typ: nat) {
    && rec.writtenLen <= 4 && rec.readbackLen <= 4
    && match rec.outcome
       case WriteFailed =>
         && rec.Readback() == []
         && WritesOnly(before, after, rec.fourcc, rec.Written()) && !Accepted(before, after, rec.fourcc)
       case ReadbackFailed =>
         && rec.Readback() == []
         && exists mid :: ReadBack(before, mid, after, rec.fourcc, typ, rec.Written(), None)
       case Mismatch =>
         && rec.Readback() != rec.Written()
         && exists mid :: ReadBack(before, mid, after, rec.fourcc, typ, rec.Written(), Some(rec.Readback()))
       case Match =>
         && rec.Readback() == rec.Written()
         && exists mid :: ReadBack(before, mid, after, rec.fourcc, typ, rec.Written(), Some(rec.Written()))
  }

  // A verified write of `written` that returned `r` left exactly one record, which tells what the SMC did.
  ghost predicate Recorded(records: seq<Record>, records': seq<Record>, before: seq<Exchange>, after: seq<Exchange>,
                           key: nat, typ: nat, written: seq<Byte>, r: Result<()>) {
    && |records'| == |records| + 1 && records <= records'
    && var rec := records'[|records|];
       && Tells(before, after, rec, typ) && rec.fourcc == key && rec.Written() == written
       && match rec.outcome
          case WriteFailed => r.Err? && !r.error.SmcResult?
          case ReadbackFailed => r.Err? && !r.error.WriteReadbackMismatch?
          case Mismatch => r == Err(WriteReadbackMismatch(key, written, rec.Readback()))
          case Match => r == Ok(())
  }

  // Since `before`, these bytes were accepted for `key` and then read back as `got`.
  ghost predicate Echoed(before: seq<Exchange>, after: seq<Exchange>, key: nat, typ: nat, written: seq<Byte>,
                         got: Option<seq<Byte>>) {
    exists mid :: ReadBack(before, mid, after, key, typ, written, got)
  }

  lemma EchoedOnce(before: seq<Exchange>, after: seq<Exchange>, key: nat, typ: nat, written: seq<Byte>,
                   x: Option<seq<Byte>>, y: Option<seq<Byte>>)
    requires Echoed(before, after, key, typ, written, x)
    ensures Accepted(before, after, key)
    ensures Echoed(before, after, key, typ, written, y) ==> y == x
  {
    var mid :| ReadBack(before, mid, after, key, typ, written, x);
    assert Writes(mid[|mid| - 1], key) && mid[|mid| - 1] == after[|mid| - 1];
  }

  // Each outcome is recorded exactly when it happened.
  ghost predicate Exact(before: seq<Exchange>, after: seq<Exchange>, rec: Record, typ: nat) {
    && rec.writtenLen <= 4 && rec.readbackLen <= 4
    && (rec.outcome == Match <==> Echoed(before, after, rec.fourcc, typ, rec.Written(), Some(rec.Written())))
    && (rec.outcome == Mismatch <==>
          exists got :: got != rec.Written() && Echoed(before, after, rec.fourcc, typ, rec.Written(), Some(got)))
    && (rec.outcome == ReadbackFailed <==> Echoed(before, after, rec.fourcc, typ, rec.Written(), None))
    && (rec.outcome == WriteFailed <==> !Accepted(before, after, rec.fourcc))
    && (rec.outcome == Mismatch ==>
          Echoed(before, after, rec.fourcc, typ, rec.Written(), Some(rec.Readback())))
  }

  lemma OutcomeExact(before: seq<Exchange>, after: seq<Exchange>, rec: Record, typ: nat)
    requires Tells(before, after, rec, typ)
    ensures Exact(before, after, rec, typ)
  {
    hide ReadBack, Accepted;
    var written := rec.Written();
    match rec.outcome {
      case WriteFailed =>
        forall got: Option<seq<Byte>> ensures !Echoed(before, after, rec.fourcc, typ, written, got) {
          if Echoed(before, after, rec.fourcc, typ, written, got) {
            EchoedOnce(before, after, rec.fourcc, typ, written, got, got);
          }
        }
      case ReadbackFailed => OneAnswer(before, after, rec.fourcc, typ, written, None);
      case Mismatch => OneAnswer(before, after, rec.fourcc, typ, written, Some(rec.Readback()));
      case Match => OneAnswer(before, after, rec.fourcc, typ, written, Some(written));
    }
  }

  lemma OneAnswer(before: seq<Exchange>, after: seq<Exchange>, key: nat, typ: nat, written: seq<Byte>,
                  answer: Option<seq<Byte>>)
    requires Echoed(before, after, key, typ, written, answer)
    ensures Accepted(before, after, key)
    ensures forall got :: Echoed(before, after, key, typ, written, got) <==> got == answer
  {
    EchoedOnce(before, after, key, typ, written, answer, answer);
    forall got ensures Echoed(before, after, key, typ, written, got) ==> got == answer {
      EchoedOnce(before, after, key, typ, written, answer, got);
    }
  }

  // The SMC did not take the write, and the record says so.
  lemma Refused(records: seq<Record>, records': seq<Record>, before: seq<Exchange>, after: seq<Exchange>,
                key: nat, typ: nat, written: seq<Byte>, r: Result<()>)
    requires |records'| == |records| + 1 && records <= records'
    requires WritesOnly(before, after, key, written) && !Accepted(before, after, key)
    requires var rec := records'[|records|];
             && rec.fourcc == key && rec.writtenLen <= 4 && rec.readbackLen <= 4 && rec.Written() == written
             && rec.Readback() == [] && rec.outcome == WriteFailed
    requires r.Err? && !r.error.SmcResult?
    ensures Recorded(records, records', before, after, key, typ, written, r)
  {
  }

  // The read-back of an accepted write answered `answer`, and the record says so.
  lemma Filed(records: seq<Record>, records': seq<Record>, before: seq<Exchange>, mid: seq<Exchange>,
              after: seq<Exchange>, key: nat, typ: nat, written: seq<Byte>, answer: Option<seq<Byte>>, r: Result<()>)
    requires |records'| == |records| + 1 && records <= records' && WritesOnly(before, mid, key, written)
    requires EndsAccepted(before, mid, key, written) && ReadsOnly(mid, after) && Tried(mid, after, key)
    requires Answered(mid, after, key, typ) == answer
    requires var rec := records'[|records|];
             && rec.fourcc == key && rec.writtenLen <= 4 && rec.readbackLen <= 4 && rec.Written() == written
             && rec.Readback() == (if answer.Some? then answer.value else [])
             && (answer == None ==> rec.outcome == ReadbackFailed && r.Err? && !r.error.WriteReadbackMismatch?)
             && (answer == Some(written) ==> rec.outcome == Match && r == Ok(()))
             && (answer.Some? && answer != Some(written) ==>
                   rec.outcome == Mismatch && r == Err(WriteReadbackMismatch(key, written, answer.value)))
    ensures Recorded(records, records', before, after, key, typ, written, r)
  {
    assert ReadBack(before, mid, after, key, typ, written, answer);
  }

  // Ok exactly when the write was accepted and the read-back answered with the value written.
  lemma VerifiedIff(records: seq<Record>, records': seq<Record>, before: seq<Exchange>, after: seq<Exchange>,
                    key: nat, typ: nat, written: seq<Byte>, r: Result<()>)
    requires Recorded(records, records', before, after, key, typ, written, r)
    ensures r.Ok? <==> Echoed(before, after, key, typ, written, Some(written))
  {
    OutcomeExact(before, after, records'[|records|], typ);
  }

  // A float read back with different bytes is a mismatch even where the numbers are equal, which is
  // exactly the case of the two zeros.
  lemma MismatchThoughEqual(records: seq<Record>, records': seq<Record>, before: seq<Exchange>, after: seq<Exchange>,
                            key: nat, written: Quad, r: Result<()>)
    requires Recorded(records, records', before, after, key, TYPE_FLT, written, r) && IsFinite(written)
    requires records'[|records|].outcome == Mismatch
    ensures var rec := records'[|records|];
            && rec.readbackLen == 4 && rec.Readback() == rec.readbackBytes && IsFinite(rec.readbackBytes)
            && (Decoded(rec.readbackBytes) == Decoded(written) <==>
                  || (written == ZERO && rec.readbackBytes == MINUS_ZERO)
                  || (written == MINUS_ZERO && rec.readbackBytes == ZERO))
  {
    var rec := records'[|records|];
    var mid :| ReadBack(before, mid, after, key, TYPE_FLT, written, Some(rec.Readback()));
    assert |rec.Readback()| == 4;
    assert rec.Readback() == rec.readbackBytes;
    EqualIff(written, rec.readbackBytes);
  }

  // ---- the connection ---------------------------------------------------------------------

  class Smc {
    const kernel: Kernel
    var log: seq<Exchange>

    constructor (kernel: Kernel)
      ensures this.kernel == kernel && log == []
    {
      this.kernel := kernel;
      log := [];
    }
  }

  class Connection {
    const smc: Smc
    const cache: KeyCache.KeyInfoCache
    var open: bool

    ghost predicate Valid()
      reads cache, cache.slots
    {
      cache.Valid()
    }

    constructor (smc: Smc)
      ensures Valid() && open && this.smc == smc && fresh(cache) && fresh(cache.slots)
      ensures cache.slots[..] == KeyCache.Blank()
    {
      this.smc := smc;
      cache := new KeyCache.KeyInfoCache();
      open := true;
    }

    ghost function Slots(): KeyCache.Slots
      requires Valid()
      reads cache, cache.slots
    {
      cache.slots[..]
    }

    // Only the first close does anything.
    method Close()
      modifies this`open
      ensures !open
    {
      if !open {
        return;
      }
      open := false;
    }

    method CallStruct(req: Request) returns (r: Result<Reply>)
      modifies smc`log
      ensures if open then Settles(smc.kernel, old(smc.log), req, smc.log, r)
              else r == Err(AlreadyClosed) && smc.log == old(smc.log)
    {
      if !open {
        return Err(AlreadyClosed);
      }
      var retriedBusy, retriedTimeout := false, false;
      while true
        invariant Retrying(smc.kernel, old(smc.log), req, smc.log, retriedBusy, retriedTimeout)
        decreases !retriedBusy, !retriedTimeout
      {
        OneMoreAttempt(smc.kernel, old(smc.log), req, smc.log, retriedBusy, retriedTimeout);
        var output := smc.kernel(smc.log)(req);
        smc.log := smc.log + [Exchange(req, output)];
        if output.kr.KernBusy? && !retriedBusy {
          retriedBusy := true;
          continue;
        }
        if output.kr.KernTimeout? && !retriedTimeout {
          retriedTimeout := true;
          continue;
        }
        if output.kr.KernBusy? {
          return Err(Busy);
        }
        if output.kr.KernTimeout? {
          return Err(Timeout);
        }
        if !output.kr.KernSuccess? {
          return Err(CallFailed(output.kr));
        }
        if output.result != 0 {
          return Err(SmcResult(output.result));
        }
        return Ok(output);
      }
    }

    method ReadKeyInfo(key: nat) returns (r: Result<KeyInfo>)
      requires Valid()
      modifies smc`log, cache.slots
      ensures Valid()
      ensures Looked(smc.kernel, open, key, r, old(Slots()), old(smc.log), Slots(), smc.log)
      ensures ReadsOnly(old(smc.log), smc.log) && |smc.log| <= |old(smc.log)| + 3
      ensures r.Ok? ==> r.value.size <= 32
      ensures r.Err? && r.error.KeyNotFound? <==> EndsAbsent(old(smc.log), smc.log, key)
      ensures r.Err? && r.error.KeyNotFound? ==> r.error == KeyNotFound(key)
    {
      var cached := cache.Get(key);
      if cached.Some? {
        return Ok(cached.value);
      }
      var output := CallStruct(GetKeyInfo(key));
      if output.Err? {
        if output.error == SmcResult(ERR_KEY_NOT_FOUND) {
          cache.Invalidate(key);
          return Err(KeyNotFound(key));
        }
        return Err(output.error);
      }
      var clamped := if output.value.size <= 32 then output.value.size else 32;
      if clamped == 0 && output.value.typ == 0 {
        return Err(EmptyResponse(key));
      }
      cache.Put(key, KeyInfo(clamped, output.value.typ));
      r := Ok(KeyInfo(clamped, output.value.typ));
    }

    // A value, with the size and type the SMC declared for it. A key that turns out to be gone is evicted.
    method ReadKey(key: nat) returns (r: Result<(KeyInfo, Payload)>)
      requires Valid()
      modifies smc`log, cache.slots
      ensures Valid()
      ensures ReadsOnly(old(smc.log), smc.log) && |smc.log| <= |old(smc.log)| + 6
      ensures if open then Tried(old(smc.log), smc.log, key) else r.Err? && smc.log == old(smc.log)
      ensures match r
              case Ok(v) => v.0.size <= 32 && EndsRead(old(smc.log), smc.log, key, v.0, v.1)
              case Err(_) => Unread(old(smc.log), smc.log)
      ensures r.Err? && r.error.KeyNotFound? <==> EndsAbsent(old(smc.log), smc.log, key)
      ensures r.Err? && r.error.KeyNotFound? ==> Slots()[KeyCache.Slot(key)] == None
      ensures r.Err? ==> Plain(r.error)
      ensures r.Ok? ==> Slots()[KeyCache.Slot(key)] == Some(r.value.0)
      ensures open ==> Follows(smc.kernel, old(Slots()), Slots(), key)
      ensures OneSlot(old(Slots()), Slots(), key)
      ensures Taught(old(smc.log), smc.log, old(Slots()), Slots())
      ensures Willing(smc.kernel, key) && ByteSized(old(Slots()), key) ==> ByteSized(Slots(), key)
    {
      hide Taught;
      ghost var slots, log := Slots(), smc.log;
      var info := ReadKeyInfo(key);
      ghost var known, asked := Slots(), smc.log;
      if open {
        LookedFollows(smc.kernel, key, info, slots, log, Slots(), smc.log);
      }
      if info.Err? {
        LookedTaught(smc.kernel, open, key, info, slots, log, known, asked, asked, known);
        return Err(info.error);
      }
      var output := CallStruct(Request.ReadKey(key, info.value.size, info.value.typ));
      LookedTaught(smc.kernel, open, key, info, slots, log, known, asked, smc.log, known);
      if output.Ok? {
        return Ok((info.value, output.value.bytes));
      }
      if output.error == SmcResult(ERR_KEY_NOT_FOUND) {
        cache.Invalidate(key);
        LookedTaught(smc.kernel, open, key, info, slots, log, known, asked, smc.log, Slots());
        return Err(KeyNotFound(key));
      }
      r := Err(output.error);
    }

    method ReadU8(key: nat) returns (r: Result<Byte>)
      requires Valid()
      modifies smc`log, cache.slots
      ensures Valid() && ReadsOnly(old(smc.log), smc.log) && |smc.log| <= |old(smc.log)| + 6
      ensures if open then Tried(old(smc.log), smc.log, key) else r.Err? && smc.log == old(smc.log)
      ensures ByteRead(old(smc.log), smc.log, key) == if r.Ok? then Some(r.value) else None
      ensures r.Err? && r.error.KeyNotFound? <==> EndsAbsent(old(smc.log), smc.log, key)
      ensures r.Err? ==> Plain(r.error)
      ensures r.Ok? ==> Slots()[KeyCache.Slot(key)] == Some(BYTE_INFO)
      ensures OneSlot(old(Slots()), Slots(), key)
      ensures Willing(smc.kernel, key) && ByteSized(old(Slots()), key) ==> ByteSized(Slots(), key)
    {
      var got := ReadKey(key);
      if got.Err? {
        return Err(got.error);
      }
      var (info, bytes) := got.value;
      if info.typ != TYPE_UI8 || info.size != 1 {
        return Err(TypeMismatch(key, TYPE_UI8, info.typ));
      }
      r := Ok(bytes[0]);
    }

    method ReadU32(key: nat) returns (r: Result<nat>)
      requires Valid()
      modifies smc`log, cache.slots
      ensures Valid() && ReadsOnly(old(smc.log), smc.log) && |smc.log| <= |old(smc.log)| + 6
      ensures if open then Tried(old(smc.log), smc.log, key) else r.Err? && smc.log == old(smc.log)
      ensures NumberRead(old(smc.log), smc.log, key) == if r.Ok? then Some(r.value) else None
      ensures OneSlot(old(Slots()), Slots(), key)
    {
      var got := ReadKey(key);
      if got.Err? {
        return Err(got.error);
      }
      var (info, bytes) := got.value;
      if info.typ != TYPE_UI32 || info.size != 4 {
        return Err(TypeMismatch(key, TYPE_UI32, info.typ));
      }
      r := Ok(Joined(bytes[0], bytes[1], bytes[2], bytes[3]));
    }

    // The four bytes of a finite single.
    method ReadF32(key: nat) returns (r: Result<Quad>)
      requires Valid()
      modifies smc`log, cache.slots
      ensures Valid() && ReadsOnly(old(smc.log), smc.log) && |smc.log| <= |old(smc.log)| + 6
      ensures if open then Tried(old(smc.log), smc.log, key) else r.Err? && smc.log == old(smc.log)
      ensures FloatRead(old(smc.log), smc.log, key) == if r.Ok? then Some(r.value) else None
      ensures r.Err? && r.error.KeyNotFound? <==> EndsAbsent(old(smc.log), smc.log, key)
      ensures r.Err? ==> Plain(r.error)
      ensures OneSlot(old(Slots()), Slots(), key)
      ensures Taught(old(smc.log), smc.log, old(Slots()), Slots())
    {
      hide Taught;
      var got := ReadKey(key);
      if got.Err? {
        return Err(got.error);
      }
      var (info, bytes) := got.value;
      if info.typ != TYPE_FLT || info.size != 4 {
        return Err(TypeMismatch(key, TYPE_FLT, info.typ));
      }
      var q := bytes[..4];
      if !IsFinite(q) {
        return Err(InvalidFloat(key));
      }
      r := Ok(q);
    }

    // Nothing but `bytes` is ever written, and only to `fourcc`; Ok means the SMC accepted them,
    // and an error that it accepted nothing.
    method WriteRaw(fourcc: nat, bytes: seq<Byte>) returns (r: Result<()>)
      requires Valid()
      modifies smc`log, cache.slots
      ensures Valid() && WritesOnly(old(smc.log), smc.log, fourcc, bytes) && |smc.log| <= |old(smc.log)| + 6
      ensures r.Ok? <==> EndsAccepted(old(smc.log), smc.log, fourcc, bytes)
      ensures r.Ok? <==> Accepted(old(smc.log), smc.log, fourcc)
      ensures r.Err? && r.error.SizeMismatch? ==> ReadsOnly(old(smc.log), smc.log)
      ensures r.Err? && r.error.KeyNotFound? ==> EndsAbsent(old(smc.log), smc.log, fourcc)
      ensures r.Err? ==> Plain(r.error)
      ensures !open ==> smc.log == old(smc.log)
      ensures open ==> FollowsLookup(smc.kernel, old(Slots()), Slots(), fourcc)
      ensures OneSlot(old(Slots()), Slots(), fourcc)
      ensures Wrote(smc.kernel, open, fourcc, bytes, r, old(Slots()), old(smc.log), Slots(), smc.log)
      ensures |bytes| == 1 ==>
                ByteWrite(smc.kernel, open, fourcc, r.Ok?, old(Slots()), old(smc.log), Slots(), smc.log)
    {
      hide FollowsLookup, Willing, Harmless, ByteSized, Settles;
      ghost var slots, log := Slots(), smc.log;
      var info := ReadKeyInfo(fourcc);
      if open {
        LookedFollows(smc.kernel, fourcc, info, slots, log, Slots(), smc.log);
      }
      ghost var asked := smc.log;
      if info.Err? {
        if |bytes| == 1 {
          WroteByte(smc.kernel, open, fourcc, bytes[0], info, false, slots, log, Slots(), asked, asked);
        }
        return Err(info.error);
      }
      var size := info.value.size;
      if |bytes| != size {
        if |bytes| == 1 {
          WroteByte(smc.kernel, open, fourcc, bytes[0], info, false, slots, log, Slots(), asked, asked);
        }
        return Err(SizeMismatch(fourcc, size, |bytes|));
      }
      assert size <= 32; // the second width check never fires
      var output := CallStruct(Request.WriteKey(fourcc, size, info.value.typ, bytes));
      if open {
        WriteEnds(smc.kernel, fourcc, size, info.value.typ, bytes, log, asked, smc.log, output);
      }
      if |bytes| == 1 {
        assert bytes == [bytes[0]];
        WroteByte(smc.kernel, open, fourcc, bytes[0], info, output.Ok?, slots, log, Slots(), asked, smc.log);
      }
      r := if output.Ok? then Ok(()) else Err(output.error);
    }

    // The same through the whitelist.
    method WriteKey(key: WritableKey, bytes: seq<Byte>) returns (r: Result<()>)
      requires Valid() && Writable(key)
      modifies smc`log, cache.slots
      ensures Valid() && WritesOnly(old(smc.log), smc.log, key.Fourcc(), bytes) && |smc.log| <= |old(smc.log)| + 6
      ensures r.Ok? <==> EndsAccepted(old(smc.log), smc.log, key.Fourcc(), bytes)
      ensures r.Ok? <==> Accepted(old(smc.log), smc.log, key.Fourcc())
      ensures r.Err? && r.error.KeyNotFound? ==> EndsAbsent(old(smc.log), smc.log, key.Fourcc())
      ensures r.Err? ==> Plain(r.error)
      ensures !open ==> smc.log == old(smc.log)
      ensures open ==> FollowsLookup(smc.kernel, old(Slots()), Slots(), key.Fourcc())
      ensures OneSlot(old(Slots()), Slots(), key.Fourcc())
      ensures Wrote(smc.kernel, open, key.Fourcc(), bytes, r, old(Slots()), old(smc.log), Slots(), smc.log)
      ensures |bytes| == 1 ==>
                ByteWrite(smc.kernel, open, key.Fourcc(), r.Ok?, old(Slots()), old(smc.log), Slots(), smc.log)
    {
      r := WriteRaw(key.Fourcc(), bytes);
    }

    method WriteU8(key: WritableKey, value: Byte) returns (r: Result<()>)
      requires Valid() && Writable(key)
      modifies smc`log, cache.slots
      ensures Valid() && WritesOnly(old(smc.log), smc.log, key.Fourcc(), [value])
      ensures |smc.log| <= |old(smc.log)| + 6
      ensures r.Ok? <==> EndsAccepted(old(smc.log), smc.log, key.Fourcc(), [value])
      ensures r.Ok? <==> Accepted(old(smc.log), smc.log, key.Fourcc())
      ensures r.Err? && r.error.KeyNotFound? ==> EndsAbsent(old(smc.log), smc.log, key.Fourcc())
      ensures r.Err? ==> Plain(r.error)
      ensures !open ==> smc.log == old(smc.log)
      ensures OneSlot(old(Slots()), Slots(), key.Fourcc())
      ensures key.FanTarget? ==> r.Err? && smc.log == old(smc.log)
      ensures open && !key.FanTarget? ==> FollowsLookup(smc.kernel, old(Slots()), Slots(), key.Fourcc())
      ensures !key.FanTarget? ==>
                Wrote(smc.kernel, open, key.Fourcc(), [value], r, old(Slots()), old(smc.log), Slots(), smc.log)
      ensures !key.FanTarget? ==>
                ByteWrite(smc.kernel, open, key.Fourcc(), r.Ok?, old(Slots()), old(smc.log), Slots(), smc.log)
    {
      if key.DataType() != TYPE_UI8 {
        return Err(TypeMismatch(key.Fourcc(), TYPE_UI8, key.DataType()));
      }
      r := WriteKey(key, [value]);
    }

    method WriteF32(key: WritableKey, value: Quad) returns (r: Result<()>)
      requires Valid() && Writable(key)
      modifies smc`log, cache.slots
      ensures Valid() && WritesOnly(old(smc.log), smc.log, key.Fourcc(), value) && |smc.log| <= |old(smc.log)| + 6
      ensures r.Ok? <==> EndsAccepted(old(smc.log), smc.log, key.Fourcc(), value)
      ensures r.Ok? <==> Accepted(old(smc.log), smc.log, key.Fourcc())
      ensures if key.FanTarget? && IsFinite(value)
              then Wrote(smc.kernel, open, key.Fourcc(), value, r, old(Slots()), old(smc.log), Slots(), smc.log)
              else r.Err? && smc.log == old(smc.log)
      ensures !open ==> smc.log == old(smc.log)
    {
      if key.DataType() != TYPE_FLT {
        return Err(TypeMismatch(key.Fourcc(), TYPE_FLT, key.DataType()));
      }
      if !IsFinite(value) {
        return Err(InvalidFloat(key.Fourcc()));
      }
      r := WriteKey(key, value);
    }

    method Note(ring: RoundTripRing, now: nat, fourcc: nat, written: seq<Byte>, readback: seq<Byte>, outcome: Outcome)
      requires ring.Valid() && |written| <= 4 && |readback| <= 4
      modifies ring, ring.records
      ensures ring.Valid() && |ring.history| == |old(ring.history)| + 1 && old(ring.history) <= ring.history
      ensures var rec := ring.history[|old(ring.history)|];
              && rec.fourcc == fourcc && rec.outcome == outcome && rec.timestamp == now
              && rec.writtenLen <= 4 && rec.Written() == written
              && rec.readbackLen <= 4 && rec.Readback() == readback
    {
      RecordKeeps(now, fourcc, written, readback, outcome);
      ring.Push(NewRecord(now, fourcc, written, readback, outcome));
    }

    // Write, read back, compare, record.
    method WriteU8Verified(key: WritableKey, value: Byte, now: nat, ring: RoundTripRing) returns (r: Result<()>)
      requires Valid() && Writable(key) && ring.Valid()
      modifies smc`log, cache.slots, ring, ring.records
      ensures Valid() && ring.Valid()
      ensures Recorded(old(ring.history), ring.history, old(smc.log), smc.log, key.Fourcc(), TYPE_UI8, [value], r)
      ensures WritesOnly(old(smc.log), smc.log, key.Fourcc(), [value]) && |smc.log| <= |old(smc.log)| + 12
      ensures r.Ok? ==> forall w: Byte :: MayHold(smc.log, key.Fourcc(), w) <==> w == value
      ensures !open ==> r.Err? && smc.log == old(smc.log)
      ensures OneSlot(old(Slots()), Slots(), key.Fourcc())
      ensures r.Ok? ==> Slots()[KeyCache.Slot(key.Fourcc())] == Some(BYTE_INFO)
      ensures !key.FanTarget? ==>
                Attempt(smc.kernel, open, old(Slots())[KeyCache.Slot(key.Fourcc())], old(smc.log), smc.log,
                        key.Fourcc(), [value], r)
      ensures !key.FanTarget? ==>
                ByteVerified(smc.kernel, open, key.Fourcc(), old(Slots()), old(smc.log), Slots(), smc.log)
    {
      hide FollowsLookup, MayHold, Willing, Recorded, ByteSized, OneSlot, Accepted, Wrote, Attempt;
      ghost var records, before, slots := ring.history, smc.log, Slots();
      var fourcc := key.Fourcc();
      var wrote := WriteU8(key, value);
      if wrote.Err? {
        var e := if wrote.error.SmcResult? then WriteRefused(fourcc, wrote.error.result) else wrote.error;
        if !key.FanTarget? {
          AttemptRefused(smc.kernel, open, fourcc, [value], wrote, slots, before, Slots(), smc.log);
        }
        Note(ring, now, fourcc, [value], [], WriteFailed);
        r := Err(e);
        Refused(records, ring.history, before, smc.log, fourcc, TYPE_UI8, [value], r);
        return;
      }
      ghost var accepted, slots1 := smc.log, Slots();
      var got := ReadU8(fourcc);
      ReadBackLeaves(smc.kernel, open, fourcc, slots, before, slots1, accepted, Slots(), smc.log);
      WritesOnlyJoins(before, accepted, smc.log, fourcc, [value]);
      ghost var answer := if got.Ok? then Some([got.value]) else None;
      ghost var r' := if got.Err? then Err(got.error)
                      else if got.value != value then Err(WriteReadbackMismatch(fourcc, [value], [got.value]))
                      else Ok(());
      AttemptAnswered(smc.kernel, open, fourcc, [value], wrote, slots, before, slots1, accepted, smc.log, r');
      if got.Err? {
        Note(ring, now, fourcc, [value], [], ReadbackFailed);
        r := Err(got.error);
        Filed(records, ring.history, before, accepted, smc.log, fourcc, TYPE_UI8, [value], answer, r);
        return;
      }
      var readback := got.value;
      if readback != value {
        Note(ring, now, fourcc, [value], [readback], Mismatch);
        r := Err(WriteReadbackMismatch(fourcc, [value], [readback]));
        Filed(records, ring.history, before, accepted, smc.log, fourcc, TYPE_UI8, [value], answer, r);
        return;
      }
      Note(ring, now, fourcc, [value], [readback], Match);
      forall w: Byte ensures MayHold(smc.log, fourcc, w) <==> w == value {
        Pinned(accepted, smc.log, fourcc, value, w);
      }
      r := Ok(());
      Filed(records, ring.history, before, accepted, smc.log, fourcc, TYPE_UI8, [value], answer, r);
    }

    // The same for a single; a value that is not finite is refused before anything happens.
    method WriteF32Verified(key: WritableKey, value: Quad, now: nat, ring: RoundTripRing) returns (r: Result<()>)
      requires Valid() && Writable(key) && ring.Valid()
      modifies smc`log, cache.slots, ring, ring.records
      ensures Valid() && ring.Valid()
      ensures if IsFinite(value)
              then Recorded(old(ring.history), ring.history, old(smc.log), smc.log, key.Fourcc(), TYPE_FLT, value, r)
              else && r == Err(InvalidFloat(key.Fourcc()))
                   && ring.history == old(ring.history) && smc.log == old(smc.log)
      ensures IsFinite(value) && key.FanTarget? ==>
                Attempt(smc.kernel, open, old(Slots())[KeyCache.Slot(key.Fourcc())], old(smc.log), smc.log,
                        key.Fourcc(), value, r)
      ensures WritesOnly(old(smc.log), smc.log, key.Fourcc(), value) && |smc.log| <= |old(smc.log)| + 12
    {
      hide Wrote, Attempt, Recorded, Accepted;
      ghost var records, before, slots := ring.history, smc.log, Slots();
      var fourcc := key.Fourcc();
      if !IsFinite(value) {
        return Err(InvalidFloat(fourcc));
      }
      var wrote := WriteF32(key, value);
      if wrote.Err? {
        var e := if wrote.error.SmcResult? then WriteRefused(fourcc, wrote.error.result) else wrote.error;
        if key.FanTarget? {
          AttemptRefused(smc.kernel, open, fourcc, value, wrote, slots, before, Slots(), smc.log);
        }
        Note(ring, now, fourcc, value, [], WriteFailed);
        r := Err(e);
        Refused(records, ring.history, before, smc.log, fourcc, TYPE_FLT, value, r);
        return;
      }
      ghost var accepted, slots1 := smc.log, Slots();
      var got := ReadF32(fourcc);
      WritesOnlyJoins(before, accepted, smc.log, fourcc, value);
      ghost var answer: Option<seq<Byte>> := if got.Ok? then Some(got.value) else None;
      ghost var r' := if got.Err? then Err(got.error)
                      else if got.value != value then Err(WriteReadbackMismatch(fourcc, value, got.value))
                      else Ok(());
      AttemptAnswered(smc.kernel, open, fourcc, value, wrote, slots, before, slots1, accepted, smc.log, r');
      if got.Err? {
        Note(ring, now, fourcc, value, [], ReadbackFailed);
        r := Err(got.error);
        Filed(records, ring.history, before, accepted, smc.log, fourcc, TYPE_FLT, value, answer, r);
        return;
      }
      var readback := got.value;
      if readback != value {
        Note(ring, now, fourcc, value, readback, Mismatch);
        r := Err(WriteReadbackMismatch(fourcc, value, readback));
        Filed(records, ring.history, before, accepted, smc.log, fourcc, TYPE_FLT, value, answer, r);
        return;
      }
      Note(ring, now, fourcc, value, readback, Match);
      r := Ok(());
      Filed(records, ring.history, before, accepted, smc.log, fourcc, TYPE_FLT, value, answer, r);
    }

    // Emergency release of one fan.
    method ForceWriteAutoMode(fan: nat) returns (r: Result<()>)
      requires Valid() && Nameable(fan)
      modifies smc`log, cache.slots
      ensures Valid() && WritesOnly(old(smc.log), smc.log, ModeKey(fan), [0])
      ensures r.Ok? <==> EndsAccepted(old(smc.log), smc.log, ModeKey(fan), [0])
      ensures r.Ok? <==> Accepted(old(smc.log), smc.log, ModeKey(fan))
      ensures open ==> FollowsLookup(smc.kernel, old(Slots()), Slots(), ModeKey(fan))
      ensures ByteWrite(smc.kernel, open, ModeKey(fan), r.Ok?, old(Slots()), old(smc.log), Slots(), smc.log)
    {
      r := WriteU8(FanMode(fan), 0);
    }

    method ForceWriteFtstZero() returns (r: Result<()>)
      requires Valid()
      modifies smc`log, cache.slots
      ensures Valid() && WritesOnly(old(smc.log), smc.log, FTST_KEY, [0])
      ensures r.Ok? <==> EndsAccepted(old(smc.log), smc.log, FTST_KEY, [0])
      ensures r.Ok? <==> Accepted(old(smc.log), smc.log, FTST_KEY)
      ensures ByteWrite(smc.kernel, open, FTST_KEY, r.Ok?, old(Slots()), old(smc.log), Slots(), smc.log)
    {
      r := WriteU8(Ftst, 0);
    }
  }

  // ---- every run on a fresh connection ----------------------------------------------------

  datatype UserCall = AskInfo(key: nat) | AskRead(key: nat) | AskWrite(key: nat, bytes: seq<Byte>)

  // Lookups, reads and writes in any order, on keys whose slot-mates agree, against an SMC whose
  // key table is fixed: every lookup returns what the SMC itself would answer.
  method AnyCalls(conn: Connection, calls: seq<UserCall>, ghost table: KeyCache.Table, ghost keys: set<nat>)
    returns (answers: seq<Option<Result<KeyInfo>>>)
    requires conn.Valid() && conn.open && conn.cache.slots[..] == KeyCache.Blank()
    requires Answers(conn.smc.kernel, table) && KeyCache.Agree(table, keys)
    requires forall c :: c in calls ==> c.key in keys
    modifies conn.smc`log, conn.cache.slots
    ensures conn.Valid() && |answers| == |calls|
    ensures forall i :: 0 <= i < |calls| ==>
              answers[i] == if calls[i].AskInfo? then Some(table(calls[i].key)) else None
  {
    answers := [];
    ghost var events: seq<KeyCache.Event> := [];
    for i := 0 to |calls|
      invariant conn.Valid() && |answers| == i
      invariant conn.cache.slots[..] == KeyCache.After(table, events) && KeyCache.Over(events, keys)
      invariant forall j :: 0 <= j < i ==>
        answers[j] == if calls[j].AskInfo? then Some(table(calls[j].key)) else None
    {
      ghost var slots, log, key := conn.cache.slots[..], conn.smc.log, calls[i].key;
      assert calls[i] in calls;
      match calls[i] {
        case AskInfo(k) =>
          var r := conn.ReadKeyInfo(k);
          CacheInvisible(conn.smc.kernel, table, keys, events, k, r, slots, log, conn.cache.slots[..], conn.smc.log);
          answers := answers + [Some(r)];
          events := events + [KeyCache.Lookup(k)];
        case AskRead(k) =>
          var _ := conn.ReadKey(k);
          answers := answers + [None];
          events := Explained(conn.smc.kernel, table, keys, events, slots, conn.cache.slots[..], k);
        case AskWrite(k, bytes) =>
          var _ := conn.WriteRaw(k, bytes);
          answers := answers + [None];
          events := Explained(conn.smc.kernel, table, keys, events, slots, conn.cache.slots[..], k);
      }
    }
  }

  lemma Explained(kernel: Kernel, table: KeyCache.Table, keys: set<nat>, events: seq<KeyCache.Event>,
                  slots: KeyCache.Slots, slots': KeyCache.Slots, key: nat) returns (longer: seq<KeyCache.Event>)
    requires Answers(kernel, table) && Follows(kernel, slots, slots', key) && key in keys
    requires slots == KeyCache.After(table, events) && KeyCache.Over(events, keys)
    ensures slots' == KeyCache.After(table, longer) && KeyCache.Over(longer, keys)
  {
    var looked := KeyCache.Next(slots, table, KeyCache.Lookup(key));
    longer := events + [KeyCache.Lookup(key)];
    KeyCache.AfterOneMore(table, events, KeyCache.Lookup(key));
    if slots' != looked {
      KeyCache.AfterOneMore(table, longer, KeyCache.Evict(key));
      longer := longer + [KeyCache.Evict(key)];
    }
  }
}
