/** src/cli/force.rs: four ways to force fan 0, tried in order, and what is undone afterwards. */
module ForceRpm {
  import opened Enumerate
  import opened Floats
  import opened Registers
  import opened Ring
  import opened Singles
  import opened SmcConnection
  import opened SmcTypes
  import KeyCache

  const F0MN: nat := FourCC('F', '0', 'M', 'n')
  const F0MX: nat := FourCC('F', '0', 'M', 'x')
  const F0AC: nat := FourCC('F', '0', 'A', 'c')
  const F0TG: nat := FourCC('F', '0', 'T', 'g')
  const F0DC: nat := FourCC('F', '0', 'D', 'c')
  const F0MD: nat := FourCC('F', '0', 'm', 'd')

  const PASS_DELTA_RPM := 500.0
  const FALLBACK_RANGE := 4233.0

  datatype Path = TgDirect | DcDirect | ModeThenTg | MnRaiseThenMode

  const PATHS: seq<Path> := [TgDirect, DcDirect, ModeThenTg, MnRaiseThenMode]

  datatype Attempt = Attempt(path: Path, ok: bool, after: Float)

  // A write the command asked for, and whether the SMC accepted it.
  datatype Write = Write(key: nat, bytes: seq<Byte>, ok: bool)

  // One reading of the tachometer, the last thing said between these two moments: what the SMC gave, or NaN.
  ghost predicate ReadAs(open: bool, before: seq<Exchange>, after: seq<Exchange>, rpm: Float) {
    && before <= after && (open ==> Tried(before, after, F0AC))
    && rpm == match FloatRead(before, after, F0AC)
              case Some(q) => Finite(Decoded(q))
              case None => NaN
  }

  // Such a reading in the course of a longer conversation.
  ghost predicate Seen(open: bool, before: seq<Exchange>, after: seq<Exchange>, rpm: Float) {
    exists a, b :: before <= a && b <= after && ReadAs(open, a, b, rpm)
  }

  lemma ReadOnwards(open: bool, before: seq<Exchange>, after: seq<Exchange>, rpm: Float)
    requires ReadAs(open, before, after, rpm)
    ensures before <= after && Seen(open, before, after, rpm)
  {
  }

  lemma StillSeen(open: bool, before: seq<Exchange>, mid: seq<Exchange>, after: seq<Exchange>, later: seq<Exchange>,
                  rpm: Float)
    requires before <= mid && after <= later && Seen(open, mid, after, rpm)
    ensures Seen(open, before, later, rpm)
  {
    hide ReadAs;
    var a, b :| mid <= a && b <= after && ReadAs(open, a, b, rpm);
    assert before <= a && b <= later;
  }

  predicate Wins(a: Attempt, baseline: Float) {
    a.ok && a.after.Finite? && baseline.Finite? && Abs(a.after.v - baseline.v) >= PASS_DELTA_RPM
  }

  function Winner(attempts: seq<Attempt>, baseline: Float): (w: Option<Attempt>)
    ensures w.Some? <==> exists a :: a in attempts && Wins(a, baseline)
    ensures w.Some? ==> w.value in attempts && Wins(w.value, baseline)
  {
    if attempts == [] then None
    else if Wins(attempts[0], baseline) then Some(attempts[0])
    else Winner(attempts[1..], baseline)
  }

  function ClampReal(x: real, lo: real, hi: real): (r: real)
    ensures lo <= hi ==> lo <= r <= hi && (r < x ==> r == hi) && (r > x ==> r == lo)
  {
    Max(lo, Min(x, hi))
  }

  lemma FractionOf(x: real, d: real)
    requires 0.0 <= x <= d
    ensures d > 0.0 ==> 0.0 <= x / d <= 1.0 && x / d * d == x
  {
    if d > 0.0 {
      var q := x / d;
      assert q * d == x;
      FactorNonNegative(q, d);
      FactorNonNegative(1.0 - q, d);
    }
  }

  // `(target - min) / (max - min)`, clamped; 0/0 when the envelope is a point.
  function Duty(target: real, minRpm: real, maxRpm: real): (d: Float)
    requires minRpm <= target <= maxRpm
    ensures d.Finite? <==> minRpm < maxRpm
    ensures d.Finite? ==> 0.0 <= d.v <= 1.0 && d.v * (maxRpm - minRpm) == target - minRpm
  {
    FractionOf(target - minRpm, maxRpm - minRpm);
    if minRpm == maxRpm then NaN else Finite(ClampReal((target - minRpm) / (maxRpm - minRpm), 0.0, 1.0))
  }

  // The floats of this command are written most significant byte first, though they are read
  // least significant byte first.
  function Swapped(q: Quad): Quad { [q[3], q[2], q[1], q[0]] }

  // ---- wide registers ---------------------------------------------------------------------

  // Register `key` may hold `v` after `log`, having held `initial` before the command.
  ghost predicate MayHoldBytes(log: seq<Exchange>, key: nat, initial: seq<Byte>, v: seq<Byte>) {
    if log == [] then v == initial
    else
      var x, before := log[|log| - 1], log[..|log| - 1];
      if Writes(x, key) then x.req.bytes == v || (!Succeeded(x.reply) && MayHoldBytes(before, key, initial, v))
      else MayHoldBytes(before, key, initial, v)
  }

  ghost predicate Holds(log: seq<Exchange>, key: nat, initial: seq<Byte>, v: seq<Byte>) {
    forall w :: MayHoldBytes(log, key, initial, w) ==> w == v
  }

  lemma {:induction false} SomeContent(log: seq<Exchange>, key: nat, initial: seq<Byte>) returns (v: seq<Byte>)
    ensures MayHoldBytes(log, key, initial, v)
  {
    if log == [] {
      v := initial;
    } else if Writes(log[|log| - 1], key) {
      v := log[|log| - 1].req.bytes;
    } else {
      v := SomeContent(log[..|log| - 1], key, initial);
    }
  }

  // Others keep what they hold.
  lemma {:induction false} OthersHold(before: seq<Exchange>, after: seq<Exchange>, key: nat, bytes: seq<Byte>,
                                      other: nat, initial: seq<Byte>, v: seq<Byte>)
    requires WritesOnly(before, after, key, bytes) && (other != key || ReadsOnly(before, after))
    requires Holds(before, other, initial, v)
    ensures Holds(after, other, initial, v)
    decreases |after|
  {
    if |after| == |before| {
      assert after == before;
    } else {
      var shorter := after[..|after| - 1];
      assert before <= shorter;
      OthersHold(before, shorter, key, bytes, other, initial, v);
      assert !Writes(after[|after| - 1], other);
    }
  }

  lemma AcceptedHolds(before: seq<Exchange>, after: seq<Exchange>, key: nat, bytes: seq<Byte>, initial: seq<Byte>)
    requires EndsAccepted(before, after, key, bytes)
    ensures Holds(after, key, initial, bytes)
  {
  }

  // ---- the trace --------------------------------------------------------------------------

  // Every attempt to change the floor is followed by an attempt to write `floor` to it, or is one.
  ghost predicate RaisesUndone(trace: seq<Write>, floor: seq<Byte>) {
    forall i :: 0 <= i < |trace| && trace[i].key == F0MN ==>
      exists j :: i <= j < |trace| && trace[j].key == F0MN && trace[j].bytes == floor
  }

  ghost predicate InOrder(attempts: seq<Attempt>) {
    |attempts| <= 4 && forall k :: 0 <= k < |attempts| ==> attempts[k].path == PATHS[k]
  }

  // What the trace says about the registers the log left behind.
  ghost predicate Left(log: seq<Exchange>, trace: seq<Write>, floor0: seq<Byte>, mode0: seq<Byte>) {
    && Remains(log, F0MN, floor0, LastTo(trace, F0MN))
    && Remains(log, F0MD, mode0, LastTo(trace, F0MD))
  }

  // An accepted last write is what the register holds; without one it holds what it held.
  ghost predicate Remains(log: seq<Exchange>, key: nat, initial: seq<Byte>, last: Option<Write>) {
    match last
    case None => Holds(log, key, initial, initial)
    case Some(w) => w.ok ==> Holds(log, key, initial, w.bytes)
  }

  // Every write of the trace had a stretch of the conversation to itself, in that order: the SMC was asked
  // unless the cache, which knows only what it knew at the start or was told since, says another width.
  ghost predicate Asked(kernel: Kernel, open: bool, slots0: KeyCache.Slots, log: seq<Exchange>, trace: seq<Write>)
    decreases |trace|
  {
    trace != [] ==>
      var n := |trace| - 1;
      exists a, b, slots: KeyCache.Slots ::
        && a <= b <= log && Asked(kernel, open, slots0, a, trace[..n])
        && Taught([], a, slots0, slots) && OneAsked(kernel, open, slots, a, b, trace[n])
  }

  ghost predicate OneAsked(kernel: Kernel, open: bool, slots: KeyCache.Slots, a: seq<Exchange>, b: seq<Exchange>,
                           w: Write) {
    && Asks(kernel, open, slots[KeyCache.Slot(w.key)], a, b, w.key, w.bytes)
    && (w.ok <==> EndsAccepted(a, b, w.key, w.bytes))
  }

  ghost predicate Carried(kernel: Kernel, open: bool, slots0: KeyCache.Slots, log: seq<Exchange>,
                          slots: KeyCache.Slots, trace: seq<Write>) {
    Asked(kernel, open, slots0, log, trace) && Taught([], log, slots0, slots)
  }

  lemma AskedLonger(kernel: Kernel, open: bool, slots0: KeyCache.Slots, log: seq<Exchange>, longer: seq<Exchange>,
                    trace: seq<Write>)
    requires Asked(kernel, open, slots0, log, trace) && log <= longer
    ensures Asked(kernel, open, slots0, longer, trace)
  {
    hide Taught, OneAsked;
  }

  lemma ReadCarries(kernel: Kernel, open: bool, slots0: KeyCache.Slots, log: seq<Exchange>, slots: KeyCache.Slots,
                    longer: seq<Exchange>, slots1: KeyCache.Slots, trace: seq<Write>)
    requires Carried(kernel, open, slots0, log, slots, trace) && Taught(log, longer, slots, slots1) && log <= longer
    ensures Carried(kernel, open, slots0, longer, slots1, trace)
  {
    hide Taught, Asked;
    AskedLonger(kernel, open, slots0, log, longer, trace);
    TaughtJoins([], log, longer, slots0, slots, slots1);
  }

  lemma WriteCarries(kernel: Kernel, open: bool, slots0: KeyCache.Slots, log: seq<Exchange>, slots: KeyCache.Slots,
                     longer: seq<Exchange>, slots1: KeyCache.Slots, trace: seq<Write>, w: Write)
    requires Carried(kernel, open, slots0, log, slots, trace) && Taught(log, longer, slots, slots1) && log <= longer
    requires OneAsked(kernel, open, slots, log, longer, w)
    ensures Carried(kernel, open, slots0, longer, slots1, trace + [w])
  {
    hide Taught, OneAsked;
    TaughtJoins([], log, longer, slots0, slots, slots1);
    var n := |trace|;
    assert (trace + [w])[..n] == trace && (trace + [w])[n] == w;
    assert Asked(kernel, open, slots0, log, (trace + [w])[..n]) && OneAsked(kernel, open, slots, log, longer, w);
  }

  lemma OnceAsked(kernel: Kernel, open: bool, r: Result<()>, slots: KeyCache.Slots, a: seq<Exchange>,
                  slots1: KeyCache.Slots, b: seq<Exchange>, w: Write)
    requires Wrote(kernel, open, w.key, w.bytes, r, slots, a, slots1, b)
    requires w.ok <==> EndsAccepted(a, b, w.key, w.bytes)
    ensures OneAsked(kernel, open, slots, a, b, w)
  {
    hide Wrote, EndsAccepted, Sent, SaysWidth;
    if open {
      SentIff(kernel, w.key, w.bytes, r, slots, a, slots1, b);
    }
  }

  // The payloads of one command: the clamped target, the duty, and the floor put back afterwards.
  datatype Plan = Plan(target: Quad, duty: Quad, floor: Quad)

  // All that is ever written.
  predicate Planned(plan: Plan, key: nat, bytes: seq<Byte>) {
    || (key == F0TG && bytes == plan.target)
    || (key == F0DC && bytes == plan.duty)
    || (key == F0MN && (bytes == plan.target || bytes == plan.floor))
    || (key == F0MD && (bytes == [0] || bytes == [1]))
  }

  class Run {
    const conn: Connection
    // Any way of rounding a number to a single and laying out its bytes.
    const encode: Float -> Quad
    var trace: seq<Write>
    ghost var plan: Plan
    // What the two registers of interest held before the command.
    ghost const floor0: seq<Byte>
    ghost const mode0: seq<Byte>
    // And what the cache knew then.
    ghost const slots0: KeyCache.Slots

    ghost predicate Valid()
      reads this, conn, conn.cache, conn.cache.slots, conn.smc
    {
      && conn.Valid() && Left(conn.smc.log, trace, floor0, mode0)
      && Carried(conn.smc.kernel, conn.open, slots0, conn.smc.log, conn.Slots(), trace)
      && forall i :: 0 <= i < |trace| ==> Planned(plan, trace[i].key, trace[i].bytes)
    }

    constructor (conn: Connection, encode: Float -> Quad, ghost floor0: seq<Byte>, ghost mode0: seq<Byte>)
      requires conn.Valid() && conn.smc.log == []
      ensures Valid() && this.conn == conn && trace == []
      ensures this.floor0 == floor0 && this.mode0 == mode0
    {
      this.conn := conn;
      this.encode := encode;
      trace := [];
      this.floor0 := floor0;
      this.mode0 := mode0;
      this.slots0 := conn.Slots();
    }

    method WriteRegister(key: nat, bytes: seq<Byte>) returns (ok: bool)
      requires Valid() && Planned(plan, key, bytes)
      modifies this`trace, conn.smc`log, conn.cache.slots
      ensures Valid() && trace == old(trace) + [Write(key, bytes, ok)]
      ensures WritesOnly(old(conn.smc.log), conn.smc.log, key, bytes)
      ensures OneAsked(conn.smc.kernel, conn.open, old(conn.Slots()), old(conn.smc.log), conn.smc.log,
                       Write(key, bytes, ok))
      ensures ok <==> EndsAccepted(old(conn.smc.log), conn.smc.log, key, bytes)
    {
      hide Wrote, Carried, OneAsked, Taught;
      ghost var before, slots := conn.smc.log, conn.Slots();
      var r := conn.WriteRaw(key, bytes);
      ok := r.Ok?;
      WroteTaught(conn.smc.kernel, conn.open, key, bytes, r, slots, before, conn.Slots(), conn.smc.log);
      OnceAsked(conn.smc.kernel, conn.open, r, slots, before, conn.Slots(), conn.smc.log, Write(key, bytes, ok));
      WriteCarries(conn.smc.kernel, conn.open, slots0, before, slots, conn.smc.log, conn.Slots(), trace,
                   Write(key, bytes, ok));
      trace := trace + [Write(key, bytes, ok)];
      LastToGrows(old(trace), Write(key, bytes, ok), F0MN);
      LastToGrows(old(trace), Write(key, bytes, ok), F0MD);
      Carry(before, conn.smc.log, Write(key, bytes, ok), F0MN, floor0, LastTo(old(trace), F0MN));
      Carry(before, conn.smc.log, Write(key, bytes, ok), F0MD, mode0, LastTo(old(trace), F0MD));
    }

    method ReadRpm() returns (rpm: Float)
      requires Valid()
      modifies conn.smc`log, conn.cache.slots
      ensures Valid() && ReadAs(conn.open, old(conn.smc.log), conn.smc.log, rpm)
    {
      var q := ReadFloat(F0AC);
      rpm := if q.Ok? then Finite(Decoded(q.value)) else NaN;
    }

    method ReadFloat(key: nat) returns (q: Result<Quad>)
      requires Valid()
      modifies conn.smc`log, conn.cache.slots
      ensures Valid() && old(conn.smc.log) <= conn.smc.log
      ensures if conn.open then Tried(old(conn.smc.log), conn.smc.log, key) else q.Err?
      ensures FloatRead(old(conn.smc.log), conn.smc.log, key) == if q.Ok? then Some(q.value) else None
      ensures q.Ok? ==> Reported(old(conn.smc.log), conn.smc.log, key, Decoded(q.value))
    {
      hide Carried, Taught;
      ghost var before, slots := conn.smc.log, conn.Slots();
      q := conn.ReadF32(key);
      ReadCarries(conn.smc.kernel, conn.open, slots0, before, slots, conn.smc.log, conn.Slots(), trace);
      CarryRead(before, conn.smc.log, F0MN, floor0, LastTo(trace, F0MN));
      CarryRead(before, conn.smc.log, F0MD, mode0, LastTo(trace, F0MD));
    }
  }

  // The last attempted write to a key.
  function LastTo(trace: seq<Write>, key: nat): (w: Option<Write>)
    ensures w.None? <==> forall i :: 0 <= i < |trace| ==> trace[i].key != key
    ensures w.Some? ==> w.value in trace && w.value.key == key
  {
    if trace == [] then None
    else if trace[|trace| - 1].key == key then Some(trace[|trace| - 1])
    else LastTo(trace[..|trace| - 1], key)
  }

  lemma LastToGrows(trace: seq<Write>, w: Write, key: nat)
    ensures LastTo(trace + [w], key) == if w.key == key then Some(w) else LastTo(trace, key)
  {
    assert (trace + [w])[..|trace|] == trace;
  }

  lemma Carry(before: seq<Exchange>, after: seq<Exchange>, w: Write, of: nat, initial: seq<Byte>, last: Option<Write>)
    requires WritesOnly(before, after, w.key, w.bytes) && (w.ok ==> EndsAccepted(before, after, w.key, w.bytes))
    requires Remains(before, of, initial, last)
    ensures Remains(after, of, initial, if w.key == of then Some(w) else last)
  {
    if w.key == of && w.ok {
      AcceptedHolds(before, after, w.key, w.bytes, initial);
    }
    if w.key != of && (last.None? || last.value.ok) {
      OthersHold(before, after, w.key, w.bytes, of, initial, if last.None? then initial else last.value.bytes);
    }
  }

  lemma CarryRead(before: seq<Exchange>, after: seq<Exchange>, of: nat, initial: seq<Byte>, last: Option<Write>)
    requires ReadsOnly(before, after) && Remains(before, of, initial, last)
    ensures Remains(after, of, initial, last)
  {
    if last.None? || last.value.ok {
      OthersHold(before, after, of, [], of, initial, if last.None? then initial else last.value.bytes);
    }
  }

  lemma {:induction false} LastToIsLater(trace: seq<Write>, key: nat, i: nat)
    requires i < |trace| && trace[i].key == key
    ensures exists j :: i <= j < |trace| && LastTo(trace, key) == Some(trace[j])
  {
    var n := |trace| - 1;
    if trace[n].key != key {
      LastToIsLater(trace[..n], key, i);
      var j :| i <= j < n && LastTo(trace[..n], key) == Some(trace[..n][j]);
      assert trace[..n][j] == trace[j];
    }
  }

  lemma UndoneByLast(trace: seq<Write>, floor: seq<Byte>)
    requires LastTo(trace, F0MN).Some? ==> LastTo(trace, F0MN).value.bytes == floor
    ensures RaisesUndone(trace, floor)
  {
    forall i | 0 <= i < |trace| && trace[i].key == F0MN
      ensures exists j :: i <= j < |trace| && trace[j].key == F0MN && trace[j].bytes == floor
    {
      LastToIsLater(trace, F0MN, i);
    }
  }

  // ---- the command ------------------------------------------------------------------------

  method ResetMode(run: Run) returns (ok: bool)
    requires run.Valid()
    modifies run`trace, run.conn.smc`log, run.conn.cache.slots
    ensures old(run.conn.smc.log) <= run.conn.smc.log
    ensures run.Valid() && run.trace == old(run.trace) + [Write(F0MD, [0], ok)]
    ensures LastTo(run.trace, F0MN) == LastTo(old(run.trace), F0MN)
  {
    hide Carried, OneAsked, Left;
    ok := run.WriteRegister(F0MD, [0]);
    LastToGrows(old(run.trace), Write(F0MD, [0], ok), F0MN);
  }

  // What one path writes: a second write only if the first was accepted.
  ghost predicate PathWrites(path: Path, target: Quad, duty: Quad, added: seq<Write>, ok: bool) {
    match path
    case TgDirect => added == [Write(F0TG, target, ok)]
    case DcDirect => added == [Write(F0DC, duty, ok)]
    case ModeThenTg =>
      added == [Write(F0MD, [1], true), Write(F0TG, target, ok)] || (!ok && added == [Write(F0MD, [1], false)])
    case MnRaiseThenMode =>
      added == [Write(F0MN, target, true), Write(F0MD, [1], ok)] || (!ok && added == [Write(F0MN, target, false)])
  }

  // The second write only if the first was accepted.
  method WriteBoth(run: Run, first: nat, firstBytes: seq<Byte>, second: nat, secondBytes: seq<Byte>)
    returns (ok: bool, ghost added: seq<Write>)
    requires run.Valid() && Planned(run.plan, first, firstBytes) && Planned(run.plan, second, secondBytes)
    modifies run`trace, run.conn.smc`log, run.conn.cache.slots
    ensures old(run.conn.smc.log) <= run.conn.smc.log
    ensures run.Valid() && run.trace == old(run.trace) + added
    ensures || added == [Write(first, firstBytes, true), Write(second, secondBytes, ok)]
            || (!ok && added == [Write(first, firstBytes, false)])
  {
    hide Carried, OneAsked, Left;
    ok := run.WriteRegister(first, firstBytes);
    added := [Write(first, firstBytes, ok)];
    if ok {
      ok := run.WriteRegister(second, secondBytes);
      added := added + [Write(second, secondBytes, ok)];
    }
  }

  method TryPath(run: Run, path: Path, target: Quad, duty: Quad)
    returns (a: Attempt, ghost added: seq<Write>)
    requires run.Valid() && target == run.plan.target && duty == run.plan.duty
    modifies run`trace, run.conn.smc`log, run.conn.cache.slots
    ensures old(run.conn.smc.log) <= run.conn.smc.log
    ensures run.Valid() && a.path == path
    ensures run.trace == old(run.trace) + added && PathWrites(path, target, duty, added, a.ok)
    ensures Seen(run.conn.open, old(run.conn.smc.log), run.conn.smc.log, a.after)
  {
    hide Carried, OneAsked, Left;
    var ok: bool;
    match path {
      case TgDirect =>
        ok := run.WriteRegister(F0TG, target);
        added := [Write(F0TG, target, ok)];
      case DcDirect =>
        ok := run.WriteRegister(F0DC, duty);
        added := [Write(F0DC, duty, ok)];
      case ModeThenTg => ok, added := WriteBoth(run, F0MD, [1], F0TG, target);
      case MnRaiseThenMode => ok, added := WriteBoth(run, F0MN, target, F0MD, [1]);
    }
    var after := run.ReadRpm();
    a := Attempt(path, ok, after);
  }

  predicate Resets(w: Write) {
    w.key == F0MD && w.bytes == [0]
  }

  // What follows a path: the floor put back if it was the one that raises it, then the mode.
  predicate Undoes(raised: bool, floor: Quad, added: seq<Write>) {
    && added != [] && Resets(added[|added| - 1])
    && if raised then |added| == 2 && added[0].key == F0MN && added[0].bytes == floor else |added| == 1
  }

  // The mode reset, and then path after path with what follows it.
  ghost predicate Story(trace: seq<Write>, attempts: seq<Attempt>, plan: Plan)
    decreases |attempts|
  {
    if attempts == [] then |trace| == 1 && Resets(trace[0])
    else
      var n := |attempts| - 1;
      exists before, added, undone ::
        && trace == before + added + undone && Story(before, attempts[..n], plan)
        && Chapter(attempts[n], plan, added, undone)
  }

  ghost predicate Chapter(a: Attempt, plan: Plan, added: seq<Write>, undone: seq<Write>) {
    PathWrites(a.path, plan.target, plan.duty, added, a.ok) && Undoes(a.path == MnRaiseThenMode, plan.floor, undone)
  }

  // Without a winner the mode is reset once more.
  ghost predicate WholeStory(trace: seq<Write>, attempts: seq<Attempt>, plan: Plan, won: bool) {
    if won then Story(trace, attempts, plan)
    else trace != [] && Resets(trace[|trace| - 1]) && Story(trace[..|trace| - 1], attempts, plan)
  }

  lemma OneMoreChapter(before: seq<Write>, added: seq<Write>, undone: seq<Write>, attempts: seq<Attempt>, a: Attempt,
                       plan: Plan)
    requires Story(before, attempts, plan) && Chapter(a, plan, added, undone)
    ensures Story(before + added + undone, attempts + [a], plan)
  {
    hide Chapter;
    var n := |attempts|;
    assert (attempts + [a])[..n] == attempts && (attempts + [a])[n] == a;
  }

  lemma StoryWon(before: seq<Write>, added: seq<Write>, undone: seq<Write>, attempts: seq<Attempt>, a: Attempt,
                 plan: Plan)
    requires Story(before, attempts, plan) && PathWrites(a.path, plan.target, plan.duty, added, a.ok)
    requires Undoes(a.path == MnRaiseThenMode, plan.floor, undone)
    ensures WholeStory(before + added + undone, attempts + [a], plan, true)
  {
    OneMoreChapter(before, added, undone, attempts, a, plan);
  }

  lemma StoryGoesOn(before: seq<Write>, added: seq<Write>, ok: bool, attempts: seq<Attempt>, a: Attempt, plan: Plan)
    requires Story(before, attempts, plan) && PathWrites(a.path, plan.target, plan.duty, added, a.ok)
    requires a.path != MnRaiseThenMode
    ensures Story(before + added + [Write(F0MD, [0], ok)], attempts + [a], plan)
  {
    hide PathWrites;
    OneMoreChapter(before, added, [Write(F0MD, [0], ok)], attempts, a, plan);
  }

  // The last path without success: the floor, the mode, and the mode once more.
  lemma StoryEnds(trace: seq<Write>, added: seq<Write>, floor: Write, mode: Write, last: Write, tried: seq<Attempt>,
                  a: Attempt, plan: Plan)
    requires Story(trace, tried, plan) && a.path == MnRaiseThenMode
    requires PathWrites(a.path, plan.target, plan.duty, added, a.ok)
    requires floor.key == F0MN && floor.bytes == plan.floor && Resets(mode) && Resets(last)
    ensures WholeStory(trace + added + [floor] + [mode] + [last], tried + [a], plan, false)
  {
    hide PathWrites;
    OneMoreChapter(trace, added, [floor, mode], tried, a, plan);
    hide Story;
    var told := trace + added + [floor] + [mode];
    assert told == trace + added + [floor, mode];
    assert (told + [last])[..|told|] == told;
  }

  // The floor goes back if it was raised, then the mode.
  method HoldAndTeardown(run: Run, attempts: seq<Attempt>, baseline: Float, restoreFloorTo: Option<Quad>,
                         originalMin: Quad)
    returns (ghost added: seq<Write>)
    requires run.Valid() && originalMin == run.plan.floor
    requires restoreFloorTo.Some? ==> restoreFloorTo.value == run.plan.floor
    modifies run`trace, run.conn.smc`log, run.conn.cache.slots
    ensures old(run.conn.smc.log) <= run.conn.smc.log
    ensures run.Valid() && run.trace != []
    ensures run.trace[|run.trace| - 1].key == F0MD && run.trace[|run.trace| - 1].bytes == [0]
    ensures LastTo(run.trace, F0MD) == Some(run.trace[|run.trace| - 1])
    ensures var winner := Winner(attempts, baseline);
            if restoreFloorTo.Some? || (winner.Some? && winner.value.path == MnRaiseThenMode)
            then LastTo(run.trace, F0MN).Some? && LastTo(run.trace, F0MN).value.bytes == run.plan.floor
            else LastTo(run.trace, F0MN) == LastTo(old(run.trace), F0MN)
    ensures var winner := Winner(attempts, baseline);
            var raised := restoreFloorTo.Some? || (winner.Some? && winner.value.path == MnRaiseThenMode);
            run.trace == old(run.trace) + added && Undoes(raised, run.plan.floor, added)
  {
    hide Carried, OneAsked, Left, Wins, Winner, LastTo, EndsAccepted;
    added := [];
    if restoreFloorTo.Some? {
      ghost var before := run.trace;
      var ok := run.WriteRegister(F0MN, restoreFloorTo.value);
      added := [Write(F0MN, restoreFloorTo.value, ok)];
      LastToGrows(before, Write(F0MN, restoreFloorTo.value, ok), F0MN);
    } else if Winner(attempts, baseline).Some? && Winner(attempts, baseline).value.path == MnRaiseThenMode {
      ghost var before := run.trace;
      var ok := run.WriteRegister(F0MN, originalMin);
      added := [Write(F0MN, originalMin, ok)];
      LastToGrows(before, Write(F0MN, originalMin, ok), F0MN);
    }
    ghost var floored := run.trace;
    var ok := ResetMode(run);
    LastToGrows(floored, Write(F0MD, [0], ok), F0MD);
    added := added + [Write(F0MD, [0], ok)];
  }

  datatype Report = Report(attempts: seq<Attempt>, baseline: Float, minimum: Quad, won: bool)

  // What a run that got past reading the envelope has done.
  ghost predicate CleanRun(trace: seq<Write>, r: Report) {
    && 1 <= |r.attempts| && InOrder(r.attempts)
    && (forall k :: 0 <= k < |r.attempts| - 1 ==> !Wins(r.attempts[k], r.baseline))
    && (r.won <==> Wins(r.attempts[|r.attempts| - 1], r.baseline))
    && (!r.won ==> |r.attempts| == 4)
    && trace != [] && LastTo(trace, F0MD) == Some(trace[|trace| - 1]) && trace[|trace| - 1].bytes == [0]
    && (LastTo(trace, F0MN).Some? <==> |r.attempts| == 4)
    && (LastTo(trace, F0MN).Some? ==> LastTo(trace, F0MN).value.bytes == Swapped(r.minimum))
  }

  // The run stops at the first path after which the fan had moved by 500 RPM.
  lemma StopsAtFirst(trace: seq<Write>, r: Report, k: nat)
    requires CleanRun(trace, r) && k < |r.attempts|
    ensures var a := r.attempts[k];
            var moved := a.ok && a.after.Finite? && r.baseline.Finite? && Abs(a.after.v - r.baseline.v) >= 500.0;
            if k < |r.attempts| - 1 then !moved else moved <==> r.won
  {
  }

  // Every raise of the floor that was attempted is later followed by an attempt to take it back.
  lemma RaisesAreUndone(trace: seq<Write>, r: Report)
    requires CleanRun(trace, r)
    ensures RaisesUndone(trace, Swapped(r.minimum))
  {
    UndoneByLast(trace, Swapped(r.minimum));
  }

  // Attempts so far: in order, the floor touched only by the fourth, no winner but perhaps the last.
  ghost predicate Pursued(trace: seq<Write>, attempts: seq<Attempt>, baseline: Float, won: bool) {
    && 1 <= |attempts| && InOrder(attempts)
    && (forall k :: 0 <= k < |attempts| - 1 ==> !Wins(attempts[k], baseline))
    && (won <==> Wins(attempts[|attempts| - 1], baseline))
    && Winner(attempts, baseline) == (if won then Some(attempts[|attempts| - 1]) else None)
    && (LastTo(trace, F0MN).Some? <==> |attempts| == 4)
  }

  // What each attempt found afterwards is what the SMC said.
  ghost predicate AllSeen(open: bool, before: seq<Exchange>, after: seq<Exchange>, attempts: seq<Attempt>) {
    forall k :: 0 <= k < |attempts| ==> Seen(open, before, after, attempts[k].after)
  }

  lemma SeenLater(open: bool, before: seq<Exchange>, after: seq<Exchange>, later: seq<Exchange>, attempts: seq<Attempt>)
    requires AllSeen(open, before, after, attempts) && after <= later
    ensures AllSeen(open, before, later, attempts)
  {
    hide Seen;
    forall k | 0 <= k < |attempts| ensures Seen(open, before, later, attempts[k].after) {
      StillSeen(open, before, before, after, later, attempts[k].after);
    }
  }

  lemma SeenMore(open: bool, before: seq<Exchange>, mid: seq<Exchange>, after: seq<Exchange>, attempts: seq<Attempt>,
                 a: Attempt)
    requires AllSeen(open, before, mid, attempts) && before <= mid <= after && Seen(open, mid, after, a.after)
    ensures AllSeen(open, before, after, attempts + [a])
  {
    hide Seen;
    SeenLater(open, before, mid, after, attempts);
    StillSeen(open, before, mid, after, after, a.after);
  }

  // One attempt more; stop at the first that wins.
  method TryNext(run: Run, attempts: seq<Attempt>, baseline: Float, path: Path, target: Quad, duty: Quad,
                 ghost start: seq<Exchange>)
    returns (longer: seq<Attempt>, won: bool, ghost added: seq<Write>)
    requires start <= run.conn.smc.log && AllSeen(run.conn.open, start, run.conn.smc.log, attempts)
    requires run.Valid() && |attempts| < 4 && path == PATHS[|attempts|]
    requires target == run.plan.target && duty == run.plan.duty
    requires if attempts == [] then LastTo(run.trace, F0MN).None? else Pursued(run.trace, attempts, baseline, false)
    modifies run`trace, run.conn.smc`log, run.conn.cache.slots
    ensures old(run.conn.smc.log) <= run.conn.smc.log
    ensures run.Valid() && |longer| == |attempts| + 1 && Pursued(run.trace, longer, baseline, won)
    ensures AllSeen(run.conn.open, start, run.conn.smc.log, longer)
    ensures longer[..|attempts|] == attempts && longer[|attempts|].path == path
    ensures run.trace == old(run.trace) + added
    ensures PathWrites(path, target, duty, added, longer[|attempts|].ok)
  {
    hide Seen, Carried, Left;
    ghost var mid := run.conn.smc.log;
    ghost var before := run.trace;
    var a: Attempt;
    a, added := TryPath(run, path, target, duty);
    FloorTouched(before, added, path, target, duty, a.ok);
    PursuedGrows(before, before + added, attempts, a, baseline);
    SeenMore(run.conn.open, start, mid, run.conn.smc.log, attempts, a);
    longer := attempts + [a];
    won := Winner(longer, baseline).Some?;
  }

  lemma PursuedGrows(before: seq<Write>, after: seq<Write>, attempts: seq<Attempt>, a: Attempt, baseline: Float)
    requires |attempts| < 4 && a.path == PATHS[|attempts|]
    requires if attempts == [] then LastTo(before, F0MN).None? else Pursued(before, attempts, baseline, false)
    requires LastTo(after, F0MN).Some? <==> LastTo(before, F0MN).Some? || |attempts| == 3
    ensures Pursued(after, attempts + [a], baseline, Wins(a, baseline))
  {
    WinnerGrows(attempts, a, baseline);
  }

  lemma FloorTouched(before: seq<Write>, added: seq<Write>, path: Path, target: Quad, duty: Quad, ok: bool)
    requires PathWrites(path, target, duty, added, ok)
    ensures path != MnRaiseThenMode ==> LastTo(before + added, F0MN) == LastTo(before, F0MN)
    ensures path == MnRaiseThenMode ==> LastTo(before + added, F0MN).Some?
  {
    LastToGrows(before, added[0], F0MN);
    if |added| == 1 {
      assert before + added == before + [added[0]];
    } else {
      assert before + added == (before + [added[0]]) + [added[1]];
      LastToGrows(before + [added[0]], added[1], F0MN);
    }
  }

  lemma {:induction false} WinnerGrows(attempts: seq<Attempt>, a: Attempt, baseline: Float)
    requires Winner(attempts, baseline) == None
    ensures Winner(attempts + [a], baseline) == if Wins(a, baseline) then Some(a) else None
  {
    if attempts != [] {
      assert (attempts + [a])[1..] == attempts[1..] + [a];
      WinnerGrows(attempts[1..], a, baseline);
    } else {
      assert attempts + [a] == [a] && [a][1..] == [];
    }
  }

  method Conclude(run: Run, attempts: seq<Attempt>, baseline: Float, minimum: Quad, won: bool,
                  ghost start: seq<Exchange>)
    returns (r: Report, ghost added: seq<Write>)
    requires start <= run.conn.smc.log && AllSeen(run.conn.open, start, run.conn.smc.log, attempts)
    requires run.Valid() && Pursued(run.trace, attempts, baseline, won) && Swapped(minimum) == run.plan.floor
    requires won || (|attempts| == 4 && LastTo(run.trace, F0MN).value.bytes == Swapped(minimum))
    modifies run`trace, run.conn.smc`log, run.conn.cache.slots
    ensures old(run.conn.smc.log) <= run.conn.smc.log
    ensures run.Valid() && CleanRun(run.trace, r) && r.minimum == minimum && r.baseline == baseline
    ensures AllSeen(run.conn.open, start, run.conn.smc.log, r.attempts)
    ensures r.attempts == attempts && r.won == won
    ensures run.trace == old(run.trace) + added && Undoes(won && |attempts| == 4, run.plan.floor, added)
  {
    hide Seen, Carried, Left;
    ghost var before := run.conn.smc.log;
    var floor := Swapped(minimum);
    added := HoldAndTeardown(run, attempts, baseline, if won && |attempts| == 4 then Some(floor) else None, floor);
    SeenLater(run.conn.open, start, before, run.conn.smc.log, attempts);
    r := Report(attempts, baseline, minimum, won);
  }

  // One of the first three paths: on success hold and tear down, otherwise reset the mode and go on.
  method Stage(run: Run, tried: seq<Attempt>, baseline: Float, path: Path, minimum: Quad, target: Quad, duty: Quad,
               ghost start: seq<Exchange>)
    returns (attempts: seq<Attempt>, r: Option<Report>)
    requires start <= run.conn.smc.log && AllSeen(run.conn.open, start, run.conn.smc.log, tried)
    requires run.Valid() && |tried| < 3 && path == PATHS[|tried|] && run.plan == Plan(target, duty, Swapped(minimum))
    requires if tried == [] then LastTo(run.trace, F0MN).None? else Pursued(run.trace, tried, baseline, false)
    requires Story(run.trace, tried, run.plan)
    modifies run`trace, run.conn.smc`log, run.conn.cache.slots
    ensures old(run.conn.smc.log) <= run.conn.smc.log
    ensures run.Valid() && |attempts| == |tried| + 1
    ensures if r.Some? then WholeStory(run.trace, r.value.attempts, run.plan, r.value.won)
            else Story(run.trace, attempts, run.plan)
    ensures r.Some? ==> CleanRun(run.trace, r.value) && r.value.minimum == minimum && r.value.baseline == baseline
    ensures r.None? ==> Pursued(run.trace, attempts, baseline, false)
    ensures AllSeen(run.conn.open, start, run.conn.smc.log, if r.Some? then r.value.attempts else attempts)
  {
    hide Seen, Carried, Left, Story, WholeStory, PathWrites, Undoes, Winner, Wins, InOrder, CleanRun;
    ghost var trace, added, undone := run.trace, [], [];
    var won: bool;
    attempts, won, added := TryNext(run, tried, baseline, path, target, duty, start);
    var n := |tried|;
    assert attempts == tried + [attempts[n]];
    if won {
      var report;
      report, undone := Conclude(run, attempts, baseline, minimum, true, start);
      StoryWon(trace, added, undone, tried, attempts[n], run.plan);
      return attempts, Some(report);
    }
    ghost var before := run.conn.smc.log;
    var ok := ResetMode(run);
    StoryGoesOn(trace, added, ok, tried, attempts[n], run.plan);
    SeenLater(run.conn.open, start, before, run.conn.smc.log, attempts);
    r := None;
  }

  // The last path raises the floor, and puts it back whether or not that helped.
  method LastStage(run: Run, tried: seq<Attempt>, baseline: Float, minimum: Quad, target: Quad, duty: Quad,
                   ghost start: seq<Exchange>)
    returns (r: Report)
    requires start <= run.conn.smc.log && AllSeen(run.conn.open, start, run.conn.smc.log, tried)
    requires run.Valid() && |tried| == 3 && Pursued(run.trace, tried, baseline, false)
    requires run.plan == Plan(target, duty, Swapped(minimum)) && Story(run.trace, tried, run.plan)
    modifies run`trace, run.conn.smc`log, run.conn.cache.slots
    ensures old(run.conn.smc.log) <= run.conn.smc.log
    ensures run.Valid() && CleanRun(run.trace, r) && r.minimum == minimum && r.baseline == baseline
    ensures AllSeen(run.conn.open, start, run.conn.smc.log, r.attempts)
    ensures WholeStory(run.trace, r.attempts, run.plan, r.won)
  {
    hide CleanRun, Left, Winner, Wins, InOrder, Seen, Carried, Story, WholeStory, PathWrites;
    ghost var trace, undone := run.trace, [];
    var attempts, won, added := TryNext(run, tried, baseline, MnRaiseThenMode, target, duty, start);
    assert attempts == tried + [attempts[3]];
    if won {
      r, undone := Conclude(run, attempts, baseline, minimum, true, start);
      StoryWon(trace, added, undone, tried, attempts[3], run.plan);
      return;
    }
    ghost var raised, before := run.trace, run.conn.smc.log;
    var floorOk := run.WriteRegister(F0MN, Swapped(minimum));
    LastToGrows(raised, Write(F0MN, Swapped(minimum), floorOk), F0MN);
    var ok := ResetMode(run);
    SeenLater(run.conn.open, start, before, run.conn.smc.log, attempts);
    r, undone := Conclude(run, attempts, baseline, minimum, false, start);
    assert undone == [undone[0]];
    StoryEnds(trace, added, Write(F0MN, Swapped(minimum), floorOk), Write(F0MD, [0], ok), undone[0], tried,
              attempts[3], run.plan);
  }

  method Pursue(run: Run, baseline: Float, minimum: Quad, target: Quad, duty: Quad, ghost start: seq<Exchange>)
    returns (r: Report)
    requires start <= run.conn.smc.log
    requires run.Valid() && LastTo(run.trace, F0MN) == None && run.plan == Plan(target, duty, Swapped(minimum))
    requires Story(run.trace, [], run.plan)
    modifies run`trace, run.conn.smc`log, run.conn.cache.slots
    ensures old(run.conn.smc.log) <= run.conn.smc.log
    ensures run.Valid() && CleanRun(run.trace, r) && r.minimum == minimum && r.baseline == baseline
    ensures AllSeen(run.conn.open, start, run.conn.smc.log, r.attempts)
    ensures WholeStory(run.trace, r.attempts, run.plan, r.won)
  {
    hide Seen, CleanRun, Left, Winner, Wins, InOrder, Carried, Story, WholeStory;
    var attempts, done := Stage(run, [], baseline, TgDirect, minimum, target, duty, start);
    if done.Some? {
      return done.value;
    }
    attempts, done := Stage(run, attempts, baseline, DcDirect, minimum, target, duty, start);
    if done.Some? {
      return done.value;
    }
    attempts, done := Stage(run, attempts, baseline, ModeThenTg, minimum, target, duty, start);
    if done.Some? {
      return done.value;
    }
    r := LastStage(run, attempts, baseline, minimum, target, duty, start);
  }

  ghost predicate PlanFor(encode: Float -> Quad, target: real, minimum: Quad, maxRpm: real, plan: Plan) {
    var minRpm := Decoded(minimum);
    var clamped := ClampReal(target, minRpm, maxRpm);
    minRpm <= maxRpm && plan == Plan(encode(Finite(clamped)), encode(Duty(clamped, minRpm, maxRpm)), Swapped(minimum))
  }

  // The ceiling the SMC gave when it was asked, or a fixed range above the floor if it gave none.
  ghost predicate Ceiling(open: bool, before: seq<Exchange>, after: seq<Exchange>, minRpm: real, maxRpm: real) {
    exists a, b ::
      && before <= a <= b <= after && (open ==> Tried(a, b, F0MX))
      && maxRpm == match FloatRead(a, b, F0MX)
                   case Some(q) => Decoded(q)
                   case None => minRpm + 4233.0
  }

  lemma CeilingFound(open: bool, start: seq<Exchange>, answered: seq<Exchange>, measured: seq<Exchange>,
                     end: seq<Exchange>, minRpm: real, maxRpm: real)
    requires start <= answered <= measured <= end && (open ==> Tried(answered, measured, F0MX))
    requires maxRpm == match FloatRead(answered, measured, F0MX)
                       case Some(q) => Decoded(q)
                       case None => minRpm + FALLBACK_RANGE
    ensures Ceiling(open, start, end, minRpm, maxRpm)
  {
  }

  lemma PlanMade(encode: Float -> Quad, target: real, minimum: Quad, maxRpm: real, plan: Plan)
    requires var minRpm := Decoded(minimum);
             && minRpm <= maxRpm
             && var clamped := ClampReal(target, minRpm, maxRpm);
                plan == Plan(encode(Finite(clamped)), encode(Duty(clamped, minRpm, maxRpm)), Swapped(minimum))
    ensures PlanFor(encode, target, minimum, maxRpm, plan)
  {
  }

  // An unreadable floor, or a ceiling below it (on which `clamp` panics), ends the command
  // before anything is written.
  method Execute(run: Run, target: real) returns (r: Result<Report>)
    requires run.Valid() && run.trace == []
    modifies run`trace, run`plan, run.conn.smc`log, run.conn.cache.slots
    ensures old(run.conn.smc.log) <= run.conn.smc.log
    ensures run.Valid()
    ensures r.Err? ==> run.trace == []
    ensures r.Ok? ==> CleanRun(run.trace, r.value) && WholeStory(run.trace, r.value.attempts, run.plan, r.value.won)
    ensures r.Ok? ==>
              && Seen(run.conn.open, old(run.conn.smc.log), run.conn.smc.log, r.value.baseline)
              && AllSeen(run.conn.open, old(run.conn.smc.log), run.conn.smc.log, r.value.attempts)
    ensures r.Ok? ==> Reported(old(run.conn.smc.log), run.conn.smc.log, F0MN, Decoded(r.value.minimum))
    ensures r.Ok? ==>
              exists maxRpm ::
                && PlanFor(run.encode, target, r.value.minimum, maxRpm, run.plan)
                && Ceiling(run.conn.open, old(run.conn.smc.log), run.conn.smc.log, Decoded(r.value.minimum), maxRpm)
  {
    hide CleanRun, Left, Reported, ReadAs, Seen, Tried, FloatRead, Carried, WholeStory, Ceiling, PlanFor;
    ghost var start := run.conn.smc.log;
    var minimum := run.ReadFloat(F0MN);
    ghost var answered := run.conn.smc.log;
    if minimum.Err? {
      return Err(minimum.error);
    }
    var minRpm := Decoded(minimum.value);
    var ceiling := run.ReadFloat(F0MX);
    ghost var measured := run.conn.smc.log;
    var maxRpm := if ceiling.Ok? then Decoded(ceiling.value) else minRpm + FALLBACK_RANGE;
    if maxRpm < minRpm {
      return Err(ArithmeticPanic);
    }
    var clamped := ClampReal(target, minRpm, maxRpm);
    ghost var asked := run.conn.smc.log;
    var baseline := run.ReadRpm();
    ghost var seen := run.conn.smc.log;
    ReadOnwards(run.conn.open, asked, seen, baseline);
    var targetBytes := run.encode(Finite(clamped));
    var dutyBytes := run.encode(Duty(clamped, minRpm, maxRpm));
    run.plan := Plan(targetBytes, dutyBytes, Swapped(minimum.value));
    var _ := ResetMode(run);
    var report := Pursue(run, baseline, minimum.value, targetBytes, dutyBytes, start);
    StillReported(start, start, answered, run.conn.smc.log, F0MN, minRpm);
    CeilingFound(run.conn.open, start, answered, measured, run.conn.smc.log, minRpm, maxRpm);
    PlanMade(run.encode, target, minimum.value, maxRpm, run.plan);
    StillSeen(run.conn.open, start, asked, seen, run.conn.smc.log, baseline);
    r := Ok(report);
  }

  // Each register by itself, if its last write was accepted or it had none: the mode ends automatic, and
  // the floor ends as the bytes of the original in reverse order or untouched.
  lemma WhatIsLeft(log: seq<Exchange>, trace: seq<Write>, r: Report, floor0: seq<Byte>, mode0: seq<Byte>)
    requires CleanRun(trace, r) && Left(log, trace, floor0, mode0)
    ensures LastTo(trace, F0MD).value.ok ==> Holds(log, F0MD, mode0, [0])
    ensures (LastTo(trace, F0MN).Some? ==> LastTo(trace, F0MN).value.ok) ==>
              Holds(log, F0MN, floor0,
                    if |r.attempts| == 4 then [r.minimum[3], r.minimum[2], r.minimum[1], r.minimum[0]] else floor0)
  {
  }

  // So a floor that the SMC reported truthfully is restored exactly when the last path was not
  // needed or its four bytes read the same both ways.
  lemma FloorRestoredIff(log: seq<Exchange>, trace: seq<Write>, r: Report, mode0: seq<Byte>)
    requires CleanRun(trace, r) && Left(log, trace, r.minimum, mode0)
    requires LastTo(trace, F0MN).Some? ==> LastTo(trace, F0MN).value.ok
    ensures Holds(log, F0MN, r.minimum, r.minimum) <==>
            |r.attempts| < 4 || (r.minimum[0] == r.minimum[3] && r.minimum[1] == r.minimum[2])
  {
    WhatIsLeft(log, trace, r, r.minimum, mode0);
    var v := SomeContent(log, F0MN, r.minimum);
    var q := r.minimum;
    assert [q[3], q[2], q[1], q[0]] == q <==> q[0] == q[3] && q[1] == q[2];
  }
}
