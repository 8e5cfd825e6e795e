/** src/smc/enumerate.rs: the fans the SMC reports, numbered by position. */
module Enumerate {
  import opened Floats
  import opened Registers
  import opened Singles
  import opened SmcConnection
  import opened SmcTypes
  import KeyCache

  const MAX_PLAUSIBLE_KEYS := 8000
  const NUMBER_OF_KEYS: nat := FourCC('#', 'K', 'E', 'Y')
  const NUMBER_OF_FANS: nat := FourCC('F', 'N', 'u', 'm')

  datatype Fan = Fan(index: nat, minRpm: real, maxRpm: real, safeRpm: Option<real>, actualRpm: real, modeKey: nat)

  // Since `before`, the SMC has answered a read of the float `key` with `v`.
  ghost predicate Reported(before: seq<Exchange>, after: seq<Exchange>, key: nat, v: real) {
    exists i :: |before| <= i < |after| && after[i].req == ReadKey(key, 4, TYPE_FLT) && Succeeded(after[i].reply)
                && Decoded(after[i].reply.bytes[..4]) == v
  }

  // Since `before`, the SMC has answered that there is no such key.
  ghost predicate Absent(before: seq<Exchange>, after: seq<Exchange>, key: nat) {
    exists i :: |before| <= i < |after| && after[i].req.key == key && after[i].reply.kr.KernSuccess?
                && after[i].reply.result == ERR_KEY_NOT_FOUND
  }

  lemma StillAbsent(before: seq<Exchange>, mid: seq<Exchange>, after: seq<Exchange>, later: seq<Exchange>, key: nat)
    requires before <= mid <= after <= later && Absent(mid, after, key)
    ensures Absent(before, later, key)
  {
    var i :| |mid| <= i < |after| && after[i].req.key == key && after[i].reply.kr.KernSuccess?
             && after[i].reply.result == ERR_KEY_NOT_FOUND;
    assert later[i] == after[i];
  }

  // How many fans the SMC says there are: what it answered for `FNum`, or none if it has no such key.
  ghost predicate Counted(before: seq<Exchange>, after: seq<Exchange>, n: nat) {
    || (exists i :: |before| <= i < |after| && after[i].req == ReadKey(NUMBER_OF_FANS, 1, TYPE_UI8)
                    && Succeeded(after[i].reply) && after[i].reply.bytes[0] == n)
    || (n == 0 && Absent(before, after, NUMBER_OF_FANS))
  }

  lemma StillCounted(before: seq<Exchange>, mid: seq<Exchange>, after: seq<Exchange>, later: seq<Exchange>, n: nat)
    requires before <= mid <= after <= later && Counted(mid, after, n)
    ensures Counted(before, later, n)
  {
    if n == 0 && Absent(mid, after, NUMBER_OF_FANS) {
      StillAbsent(before, mid, after, later, NUMBER_OF_FANS);
    } else {
      var i :| |mid| <= i < |after| && after[i].req == ReadKey(NUMBER_OF_FANS, 1, TYPE_UI8)
               && Succeeded(after[i].reply) && after[i].reply.bytes[0] == n;
      assert later[i] == after[i];
    }
  }

  lemma StillReported(before: seq<Exchange>, mid: seq<Exchange>, after: seq<Exchange>, later: seq<Exchange>,
                      key: nat, v: real)
    requires before <= mid <= after <= later && Reported(mid, after, key, v)
    ensures Reported(before, later, key, v)
  {
    var i :| |mid| <= i < |after| && after[i].req == ReadKey(key, 4, TYPE_FLT) && Succeeded(after[i].reply)
             && Decoded(after[i].reply.bytes[..4]) == v;
    assert later[i] == after[i];
  }

  // The safe speed is optional: none exactly if the SMC says there is no such key.
  ghost predicate SafeFound(before: seq<Exchange>, after: seq<Exchange>, fan: nat, safeRpm: Option<real>) {
    match safeRpm
    case Some(v) => Reported(before, after, FanKey(fan, 'S', 'f'), v)
    case None => Absent(before, after, FanKey(fan, 'S', 'f'))
  }

  lemma StillSafe(before: seq<Exchange>, mid: seq<Exchange>, after: seq<Exchange>, later: seq<Exchange>,
                  fan: nat, safeRpm: Option<real>)
    requires before <= mid <= after <= later && SafeFound(mid, after, fan, safeRpm)
    ensures SafeFound(before, later, fan, safeRpm)
  {
    if safeRpm.Some? {
      StillReported(before, mid, after, later, FanKey(fan, 'S', 'f'), safeRpm.value);
    } else {
      StillAbsent(before, mid, after, later, FanKey(fan, 'S', 'f'));
    }
  }

  // Every number in the entry is one the SMC gave for that fan and that key.
  ghost predicate Faithful(before: seq<Exchange>, after: seq<Exchange>, fan: Fan) {
    && Reported(before, after, FanKey(fan.index, 'M', 'n'), fan.minRpm)
    && Reported(before, after, FanKey(fan.index, 'M', 'x'), fan.maxRpm)
    && SafeFound(before, after, fan.index, fan.safeRpm)
    && Reported(before, after, FanKey(fan.index, 'A', 'c'), fan.actualRpm)
    && (fan.modeKey == FanKey(fan.index, 'm', 'd') || fan.modeKey == FanKey(fan.index, 'M', 'd'))
  }

  lemma StillFaithful(before: seq<Exchange>, mid: seq<Exchange>, after: seq<Exchange>, later: seq<Exchange>, fan: Fan)
    requires before <= mid <= after <= later && Faithful(mid, after, fan)
    ensures Faithful(before, later, fan)
  {
    StillReported(before, mid, after, later, FanKey(fan.index, 'M', 'n'), fan.minRpm);
    StillReported(before, mid, after, later, FanKey(fan.index, 'M', 'x'), fan.maxRpm);
    StillSafe(before, mid, after, later, fan.index, fan.safeRpm);
    StillReported(before, mid, after, later, FanKey(fan.index, 'A', 'c'), fan.actualRpm);
  }

  // `fans[k].index == k`, each index fits the one-character key, each entry is what the SMC said.
  ghost predicate Numbered(before: seq<Exchange>, after: seq<Exchange>, fans: seq<Fan>) {
    forall k :: 0 <= k < |fans| ==> fans[k].index == k && Nameable(k) && Faithful(before, after, fans[k])
  }

  // ---- the mode key -----------------------------------------------------------------------

  // Every key that ends in `d`, and so every mode key of every fan in either case, shares this slot.
  const MODE_SLOT: nat := KeyCache.Slot(FanKey(0, 'm', 'd'))

  // Since `before`, the SMC has described `key`.
  ghost predicate Described(before: seq<Exchange>, after: seq<Exchange>, key: nat) {
    exists i :: |before| <= i < |after| && after[i].req == GetKeyInfo(key) && Info(key, Verdict(after[i].reply)).Ok?
  }

  lemma StillDescribed(before: seq<Exchange>, mid: seq<Exchange>, after: seq<Exchange>, later: seq<Exchange>, key: nat)
    requires before <= mid <= after <= later && Described(mid, after, key)
    ensures Described(before, later, key)
  {
    var i :| |mid| <= i < |after| && after[i].req == GetKeyInfo(key) && Info(key, Verdict(after[i].reply)).Ok?;
    assert later[i] == after[i];
  }

  // The SMC was asked: it knows the lowercase key, or it does not and knows the uppercase one.
  ghost predicate Probed(before: seq<Exchange>, after: seq<Exchange>, fan: nat, modeKey: nat) {
    || (modeKey == FanKey(fan, 'm', 'd') && Described(before, after, modeKey))
    || (modeKey == FanKey(fan, 'M', 'd') && Absent(before, after, FanKey(fan, 'm', 'd'))
        && Described(before, after, modeKey))
  }

  lemma StillProbed(before: seq<Exchange>, mid: seq<Exchange>, after: seq<Exchange>, later: seq<Exchange>,
                    fan: nat, modeKey: nat)
    requires before <= mid <= after <= later && Probed(mid, after, fan, modeKey)
    ensures Probed(before, later, fan, modeKey)
  {
    StillDescribed(before, mid, after, later, modeKey);
    if modeKey != FanKey(fan, 'm', 'd') {
      StillAbsent(before, mid, after, later, FanKey(fan, 'm', 'd'));
    }
  }

  // With a full slot the answer is the lowercase key, unasked; with an empty one it is the SMC's.
  ghost predicate ModeKeyFound(full: bool, before: seq<Exchange>, after: seq<Exchange>, fan: nat, modeKey: nat) {
    if full then modeKey == FanKey(fan, 'm', 'd') else Probed(before, after, fan, modeKey)
  }

  // ---- why there is no list ---------------------------------------------------------------

  // The SMC was asked for the number and gave none that is finite; `denied`, or whether it may have said
  // that there is no such key.
  ghost predicate Unreadable(before: seq<Exchange>, after: seq<Exchange>, key: nat, denied: bool) {
    exists a, b ::
      && before <= a <= b <= after && Tried(a, b, key) && FloatRead(a, b, key) == None
      && (!denied ==> !EndsAbsent(a, b, key))
  }

  // The SMC was asked to describe the key and did not.
  ghost predicate Undescribed(before: seq<Exchange>, after: seq<Exchange>, key: nat, denied: bool) {
    exists a, b ::
      && before <= a <= b <= after && |a| < |b| && b[|b| - 1].req == GetKeyInfo(key)
      && Info(key, Verdict(b[|b| - 1].reply)).Err? && (!denied ==> !EndsAbsent(a, b, key))
  }

  // A number that has to be there is missing, the safe speed failed otherwise than by not being there, or
  // neither mode key could be found.
  ghost predicate FanMissing(before: seq<Exchange>, after: seq<Exchange>, i: nat) {
    || LimitsMissing(before, after, i)
    || Unreadable(before, after, FanKey(i, 'A', 'c'), true)
    || ModeMissing(before, after, i)
  }

  ghost predicate LimitsMissing(before: seq<Exchange>, after: seq<Exchange>, i: nat) {
    || Unreadable(before, after, FanKey(i, 'M', 'n'), true)
    || Unreadable(before, after, FanKey(i, 'M', 'x'), true)
    || Unreadable(before, after, FanKey(i, 'S', 'f'), false)
  }

  ghost predicate ModeMissing(before: seq<Exchange>, after: seq<Exchange>, i: nat) {
    || Undescribed(before, after, FanKey(i, 'm', 'd'), false)
    || (Absent(before, after, FanKey(i, 'm', 'd')) && Undescribed(before, after, FanKey(i, 'M', 'd'), true))
  }

  lemma StillUnreadable(before: seq<Exchange>, mid: seq<Exchange>, after: seq<Exchange>, later: seq<Exchange>,
                        key: nat, denied: bool)
    requires before <= mid && after <= later && Unreadable(mid, after, key, denied)
    ensures Unreadable(before, later, key, denied)
  {
    hide Tried, FloatRead, EndsAbsent;
    var a, b :|
      && mid <= a <= b <= after && Tried(a, b, key) && FloatRead(a, b, key) == None
      && (!denied ==> !EndsAbsent(a, b, key));
    assert before <= a && b <= later;
  }

  lemma StillUndescribed(before: seq<Exchange>, mid: seq<Exchange>, after: seq<Exchange>, later: seq<Exchange>,
                         key: nat, denied: bool)
    requires before <= mid && after <= later && Undescribed(mid, after, key, denied)
    ensures Undescribed(before, later, key, denied)
  {
    hide EndsAbsent;
    var a, b :|
      && mid <= a <= b <= after && |a| < |b| && b[|b| - 1].req == GetKeyInfo(key)
      && Info(key, Verdict(b[|b| - 1].reply)).Err? && (!denied ==> !EndsAbsent(a, b, key));
    assert before <= a && b <= later;
  }

  lemma StillMissing(before: seq<Exchange>, mid: seq<Exchange>, after: seq<Exchange>, later: seq<Exchange>, i: nat)
    requires before <= mid <= after <= later && FanMissing(mid, after, i)
    ensures FanMissing(before, later, i)
  {
    hide Unreadable, Undescribed, Absent;
    if Unreadable(mid, after, FanKey(i, 'M', 'n'), true) {
      StillUnreadable(before, mid, after, later, FanKey(i, 'M', 'n'), true);
    } else if Unreadable(mid, after, FanKey(i, 'M', 'x'), true) {
      StillUnreadable(before, mid, after, later, FanKey(i, 'M', 'x'), true);
    } else if Unreadable(mid, after, FanKey(i, 'S', 'f'), false) {
      StillUnreadable(before, mid, after, later, FanKey(i, 'S', 'f'), false);
    } else if Unreadable(mid, after, FanKey(i, 'A', 'c'), true) {
      StillUnreadable(before, mid, after, later, FanKey(i, 'A', 'c'), true);
    } else if Undescribed(mid, after, FanKey(i, 'm', 'd'), false) {
      StillUndescribed(before, mid, after, later, FanKey(i, 'm', 'd'), false);
    } else {
      StillAbsent(before, mid, after, later, FanKey(i, 'm', 'd'));
      StillUndescribed(before, mid, after, later, FanKey(i, 'M', 'd'), true);
    }
  }

  // The only reasons for which an open connection yields no list: an implausible number of keys, a failing
  // count of fans, more fans than one character can name, or a fan of which something is missing.
  ghost predicate Obstacle(before: seq<Exchange>, after: seq<Exchange>) {
    || (exists b :: before <= b <= after && Tried(before, b, NUMBER_OF_KEYS) && !Plausible(before, b))
    || (exists a, b :: before <= a <= b <= after && Uncounted(a, b))
    || (exists n :: n > 208 && Counted(before, after, n))
    || (exists i: nat :: i < 208 && FanMissing(before, after, i))
  }

  ghost predicate Plausible(before: seq<Exchange>, after: seq<Exchange>) {
    match NumberRead(before, after, NUMBER_OF_KEYS)
    case Some(n) => 1 <= n <= 8000
    case None => false
  }

  ghost predicate Uncounted(before: seq<Exchange>, after: seq<Exchange>) {
    && Tried(before, after, NUMBER_OF_FANS) && ByteRead(before, after, NUMBER_OF_FANS) == None
    && !EndsAbsent(before, after, NUMBER_OF_FANS)
  }

  // ---- the source's loops -----------------------------------------------------------------

  // The endianness gate.
  method ReadKeyCount(conn: Connection) returns (r: Result<nat>)
    requires conn.Valid()
    modifies conn.smc`log, conn.cache.slots
    ensures conn.Valid() && ReadsOnly(old(conn.smc.log), conn.smc.log)
    ensures conn.open ==> Tried(old(conn.smc.log), conn.smc.log, NUMBER_OF_KEYS)
    ensures match NumberRead(old(conn.smc.log), conn.smc.log, NUMBER_OF_KEYS)
            case Some(n) => r == if 1 <= n <= 8000 then Ok(n) else Err(EndiannessImplausible(n))
            case None => r.Err?
    ensures conn.cache.slots[MODE_SLOT] == old(conn.cache.slots[MODE_SLOT])
  {
    var count := conn.ReadU32(NUMBER_OF_KEYS);
    if count.Err? {
      return count;
    }
    if count.value == 0 || count.value > MAX_PLAUSIBLE_KEYS {
      return Err(EndiannessImplausible(count.value));
    }
    r := count;
  }

  method ReadFloat(conn: Connection, key: nat) returns (r: Result<real>)
    requires conn.Valid()
    modifies conn.smc`log, conn.cache.slots
    ensures conn.Valid() && ReadsOnly(old(conn.smc.log), conn.smc.log)
    ensures if conn.open then Tried(old(conn.smc.log), conn.smc.log, key)
            else r.Err? && conn.smc.log == old(conn.smc.log)
    ensures match FloatRead(old(conn.smc.log), conn.smc.log, key)
            case Some(q) => r == Ok(Decoded(q))
            case None => r.Err?
    ensures r.Ok? ==> Reported(old(conn.smc.log), conn.smc.log, key, r.value)
    ensures r.Err? && r.error.KeyNotFound? <==> EndsAbsent(old(conn.smc.log), conn.smc.log, key)
    ensures r.Err? && r.error.KeyNotFound? ==> Absent(old(conn.smc.log), conn.smc.log, key)
    ensures OneSlot(old(conn.Slots()), conn.Slots(), key)
  {
    var q := conn.ReadF32(key);
    r := if q.Ok? then Ok(Decoded(q.value)) else Err(q.error);
  }

  // Lowercase first, uppercase when the lookup says the first does not exist.
  method ProbeModeKey(conn: Connection, i: nat) returns (r: Result<nat>)
    requires conn.Valid() && Nameable(i)
    modifies conn.smc`log, conn.cache.slots
    ensures conn.Valid() && ReadsOnly(old(conn.smc.log), conn.smc.log)
    ensures var full := old(conn.cache.slots[MODE_SLOT]).Some?;
            && (full ==> r == Ok(FanKey(i, 'm', 'd')) && conn.smc.log == old(conn.smc.log))
            && (r.Ok? ==> ModeKeyFound(full, old(conn.smc.log), conn.smc.log, i, r.value))
    ensures r.Ok? ==> conn.cache.slots[MODE_SLOT].Some?
    ensures r.Err? && r.error.KeyNotFound? ==>
              && r.error.key == FanKey(i, 'M', 'd')
              && Absent(old(conn.smc.log), conn.smc.log, FanKey(i, 'm', 'd'))
              && Absent(old(conn.smc.log), conn.smc.log, FanKey(i, 'M', 'd'))
    ensures r.Err? && conn.open ==> ModeMissing(old(conn.smc.log), conn.smc.log, i)
  {
    ghost var start := conn.smc.log;
    var lowercase := FanKey(i, 'm', 'd');
    var first := conn.ReadKeyInfo(lowercase);
    if first.Ok? {
      return Ok(lowercase);
    }
    if !first.error.KeyNotFound? {
      assert conn.open ==> Undescribed(start, conn.smc.log, lowercase, false);
      return Err(first.error);
    }
    ghost var mid := conn.smc.log;
    assert Absent(start, mid, lowercase);
    var uppercase := FanKey(i, 'M', 'd');
    var second := conn.ReadKeyInfo(uppercase);
    StillAbsent(start, start, mid, conn.smc.log, lowercase);
    if second.Ok? {
      return Ok(uppercase);
    }
    assert conn.open ==> Undescribed(start, conn.smc.log, uppercase, true);
    r := Err(if second.error.KeyNotFound? then KeyNotFound(uppercase) else second.error);
  }

  lemma SlotIsLastCharacter(i: nat, c: char, d: char)
    requires d as nat < 256
    ensures KeyCache.Slot(FanKey(i, c, d)) == d as nat
  {
  }

  // One of the fan's numbers. None of their keys ends in `d`.
  method ReadNumber(conn: Connection, i: nat, c: char, d: char) returns (r: Result<real>)
    requires conn.Valid() && d != 'd' && d as nat < 256
    modifies conn.smc`log, conn.cache.slots
    ensures conn.Valid() && ReadsOnly(old(conn.smc.log), conn.smc.log)
    ensures conn.cache.slots[MODE_SLOT] == old(conn.cache.slots[MODE_SLOT])
    ensures r.Ok? ==> Reported(old(conn.smc.log), conn.smc.log, FanKey(i, c, d), r.value)
    ensures r.Err? && r.error.KeyNotFound? ==> Absent(old(conn.smc.log), conn.smc.log, FanKey(i, c, d))
    ensures r.Err? && conn.open ==>
              Unreadable(old(conn.smc.log), conn.smc.log, FanKey(i, c, d), r.error.KeyNotFound?)
  {
    SlotIsLastCharacter(i, c, d);
    ghost var before := conn.smc.log;
    r := ReadFloat(conn, FanKey(i, c, d));
    assert before <= before <= conn.smc.log <= conn.smc.log;
  }

  lemma LimitsHold(l0: seq<Exchange>, l1: seq<Exchange>, l2: seq<Exchange>, l3: seq<Exchange>, i: nat,
                   minRpm: real, maxRpm: real, safeRpm: Option<real>)
    requires l0 <= l1 <= l2 <= l3
    requires Reported(l0, l1, FanKey(i, 'M', 'n'), minRpm) && Reported(l1, l2, FanKey(i, 'M', 'x'), maxRpm)
    requires SafeFound(l2, l3, i, safeRpm)
    ensures Reported(l0, l3, FanKey(i, 'M', 'n'), minRpm) && Reported(l0, l3, FanKey(i, 'M', 'x'), maxRpm)
    ensures SafeFound(l0, l3, i, safeRpm)
  {
    StillReported(l0, l0, l1, l3, FanKey(i, 'M', 'n'), minRpm);
    StillReported(l0, l1, l2, l3, FanKey(i, 'M', 'x'), maxRpm);
    StillSafe(l0, l2, l3, l3, i, safeRpm);
  }

  lemma AnyReason(before: seq<Exchange>, after: seq<Exchange>, key: nat, denied: bool)
    requires Unreadable(before, after, key, denied)
    ensures Unreadable(before, after, key, true)
  {
  }

  // Minimum, maximum and, if there is one, the safe speed.
  method ReadLimits(conn: Connection, i: nat) returns (r: Result<(real, real, Option<real>)>)
    requires conn.Valid() && Nameable(i)
    modifies conn.smc`log, conn.cache.slots
    ensures conn.Valid() && ReadsOnly(old(conn.smc.log), conn.smc.log)
    ensures conn.cache.slots[MODE_SLOT] == old(conn.cache.slots[MODE_SLOT])
    ensures r.Ok? ==> var (minRpm, maxRpm, safeRpm) := r.value;
              && Reported(old(conn.smc.log), conn.smc.log, FanKey(i, 'M', 'n'), minRpm)
              && Reported(old(conn.smc.log), conn.smc.log, FanKey(i, 'M', 'x'), maxRpm)
              && SafeFound(old(conn.smc.log), conn.smc.log, i, safeRpm)
    ensures r.Err? && conn.open ==> LimitsMissing(old(conn.smc.log), conn.smc.log, i)
  {
    hide Unreadable;
    ghost var l0 := conn.smc.log;
    var minRpm := ReadNumber(conn, i, 'M', 'n');
    if minRpm.Err? {
      if conn.open {
        AnyReason(l0, conn.smc.log, FanKey(i, 'M', 'n'), minRpm.error.KeyNotFound?);
      }
      return Err(minRpm.error);
    }
    ghost var l1 := conn.smc.log;
    var maxRpm := ReadNumber(conn, i, 'M', 'x');
    if maxRpm.Err? {
      if conn.open {
        AnyReason(l1, conn.smc.log, FanKey(i, 'M', 'x'), maxRpm.error.KeyNotFound?);
        StillUnreadable(l0, l1, conn.smc.log, conn.smc.log, FanKey(i, 'M', 'x'), true);
      }
      return Err(maxRpm.error);
    }
    ghost var l2 := conn.smc.log;
    var safe := ReadNumber(conn, i, 'S', 'f');
    if safe.Err? && !safe.error.KeyNotFound? {
      if conn.open {
        StillUnreadable(l0, l2, conn.smc.log, conn.smc.log, FanKey(i, 'S', 'f'), false);
      }
      return Err(safe.error);
    }
    var safeRpm := if safe.Ok? then Some(safe.value) else None;
    LimitsHold(l0, l1, l2, conn.smc.log, i, minRpm.value, maxRpm.value, safeRpm);
    r := Ok((minRpm.value, maxRpm.value, safeRpm));
  }

  lemma NoLimits(before: seq<Exchange>, after: seq<Exchange>, i: nat)
    requires LimitsMissing(before, after, i)
    ensures FanMissing(before, after, i)
  {
  }

  lemma NoSpeed(before: seq<Exchange>, after: seq<Exchange>, i: nat)
    requires Unreadable(before, after, FanKey(i, 'A', 'c'), true)
    ensures FanMissing(before, after, i)
  {
  }

  lemma NoMode(before: seq<Exchange>, after: seq<Exchange>, i: nat)
    requires ModeMissing(before, after, i)
    ensures FanMissing(before, after, i)
  {
  }

  method ReadFan(conn: Connection, i: nat) returns (r: Result<Fan>)
    requires conn.Valid() && Nameable(i)
    modifies conn.smc`log, conn.cache.slots
    ensures conn.Valid() && ReadsOnly(old(conn.smc.log), conn.smc.log)
    ensures r.Ok? ==> r.value.index == i && Faithful(old(conn.smc.log), conn.smc.log, r.value)
    ensures r.Ok? ==> conn.cache.slots[MODE_SLOT].Some?
    ensures r.Ok? ==>
              ModeKeyFound(old(conn.cache.slots[MODE_SLOT]).Some?, old(conn.smc.log), conn.smc.log, i, r.value.modeKey)
    ensures r.Err? && conn.open ==> FanMissing(old(conn.smc.log), conn.smc.log, i)
  {
    hide Unreadable, Undescribed, LimitsMissing, ModeMissing, FanMissing;
    ghost var l0 := conn.smc.log;
    ghost var full := conn.cache.slots[MODE_SLOT].Some?;
    var limits := ReadLimits(conn, i);
    if limits.Err? {
      if conn.open {
        NoLimits(l0, conn.smc.log, i);
      }
      return Err(limits.error);
    }
    ghost var l1 := conn.smc.log;
    var actualRpm := ReadNumber(conn, i, 'A', 'c');
    if actualRpm.Err? {
      if conn.open {
        AnyReason(l1, conn.smc.log, FanKey(i, 'A', 'c'), actualRpm.error.KeyNotFound?);
        NoSpeed(l1, conn.smc.log, i);
        StillMissing(l0, l1, conn.smc.log, conn.smc.log, i);
      }
      return Err(actualRpm.error);
    }
    ghost var l2 := conn.smc.log;
    var modeKey := ProbeModeKey(conn, i);
    if modeKey.Err? {
      if conn.open {
        NoMode(l2, conn.smc.log, i);
        StillMissing(l0, l2, conn.smc.log, conn.smc.log, i);
      }
      return Err(modeKey.error);
    }
    ghost var l3 := conn.smc.log;
    var (minRpm, maxRpm, safeRpm) := limits.value;
    var fan := Fan(i, minRpm, maxRpm, safeRpm, actualRpm.value, modeKey.value);
    EntryFaithful(l0, l1, l2, l3, fan);
    if !full {
      StillProbed(l0, l2, l3, l3, i, fan.modeKey);
    }
    r := Ok(fan);
  }

  lemma EntryFaithful(l0: seq<Exchange>, l1: seq<Exchange>, l2: seq<Exchange>, l3: seq<Exchange>, fan: Fan)
    requires l0 <= l1 <= l2 <= l3
    requires Reported(l0, l1, FanKey(fan.index, 'M', 'n'), fan.minRpm)
    requires Reported(l0, l1, FanKey(fan.index, 'M', 'x'), fan.maxRpm)
    requires SafeFound(l0, l1, fan.index, fan.safeRpm)
    requires Reported(l1, l2, FanKey(fan.index, 'A', 'c'), fan.actualRpm)
    requires fan.modeKey == FanKey(fan.index, 'm', 'd') || fan.modeKey == FanKey(fan.index, 'M', 'd')
    ensures Faithful(l0, l3, fan)
  {
    StillReported(l0, l0, l1, l3, FanKey(fan.index, 'M', 'n'), fan.minRpm);
    StillReported(l0, l0, l1, l3, FanKey(fan.index, 'M', 'x'), fan.maxRpm);
    StillSafe(l0, l0, l1, l3, fan.index, fan.safeRpm);
    StillReported(l0, l1, l2, l3, FanKey(fan.index, 'A', 'c'), fan.actualRpm);
  }

  // The first fan's mode key is what the probe found; every later fan's is the lowercase one,
  // because the first probe has filled the slot they share, whether or not the SMC knows such keys.
  ghost predicate ModeKeysFound(full: bool, before: seq<Exchange>, after: seq<Exchange>, fans: seq<Fan>) {
    forall k :: 0 <= k < |fans| ==> ModeKeyFound(full || k > 0, before, after, k, fans[k].modeKey)
  }

  // With more than 208 fans the one-character index overflows a byte and the process aborts,
  // so a list that is returned has at most 208 entries.
  method ReadFans(conn: Connection, fanCount: nat) returns (r: Result<seq<Fan>>)
    requires conn.Valid()
    modifies conn.smc`log, conn.cache.slots
    ensures conn.Valid() && ReadsOnly(old(conn.smc.log), conn.smc.log)
    ensures r.Ok? ==> |r.value| == fanCount <= 208 && Numbered(old(conn.smc.log), conn.smc.log, r.value)
    ensures r.Ok? ==> ModeKeysFound(old(conn.cache.slots[MODE_SLOT]).Some?, old(conn.smc.log), conn.smc.log, r.value)
    ensures r.Err? && conn.open ==>
              fanCount > 208 || exists i: nat :: i < 208 && FanMissing(old(conn.smc.log), conn.smc.log, i)
  {
    hide FanMissing;
    var fans: seq<Fan> := [];
    ghost var start, full := conn.smc.log, conn.cache.slots[MODE_SLOT].Some?;
    for i := 0 to fanCount
      invariant conn.Valid() && ReadsOnly(start, conn.smc.log)
      invariant |fans| == i <= 208 && Numbered(start, conn.smc.log, fans)
      invariant ModeKeysFound(full, start, conn.smc.log, fans)
      invariant conn.cache.slots[MODE_SLOT].Some? <==> full || i > 0
    {
      if !Nameable(i) {
        return Err(ArithmeticPanic);
      }
      ghost var before := conn.smc.log;
      var fan := ReadFan(conn, i);
      if fan.Err? {
        if conn.open {
          StillMissing(start, before, conn.smc.log, conn.smc.log, i);
        }
        return Err(fan.error);
      }
      OneFanMore(full, start, before, conn.smc.log, fans, fan.value);
      fans := fans + [fan.value];
    }
    r := Ok(fans);
  }

  lemma OneFanMore(full: bool, start: seq<Exchange>, before: seq<Exchange>, after: seq<Exchange>,
                   fans: seq<Fan>, fan: Fan)
    requires start <= before <= after && Numbered(start, before, fans) && ModeKeysFound(full, start, before, fans)
    requires fan.index == |fans| && Nameable(|fans|) && Faithful(before, after, fan)
    requires ModeKeyFound(full || |fans| > 0, before, after, |fans|, fan.modeKey)
    ensures Numbered(start, after, fans + [fan]) && ModeKeysFound(full, start, after, fans + [fan])
  {
    forall k | 0 <= k < |fans| ensures Faithful(start, after, fans[k]) {
      StillFaithful(start, start, before, after, fans[k]);
    }
    StillFaithful(start, before, after, after, fan);
    forall k | 0 <= k < |fans| ensures ModeKeyFound(full || k > 0, start, after, k, fans[k].modeKey) {
      if !(full || k > 0) {
        StillProbed(start, start, before, after, k, fans[k].modeKey);
      }
    }
    if !full && |fans| == 0 {
      StillProbed(start, before, after, after, 0, fan.modeKey);
    }
  }

  lemma NoKeys(before: seq<Exchange>, after: seq<Exchange>, keys: Result<nat>)
    requires before <= after && Tried(before, after, NUMBER_OF_KEYS) && keys.Err?
    requires match NumberRead(before, after, NUMBER_OF_KEYS)
             case Some(n) => keys == if 1 <= n <= 8000 then Ok(n) else Err(EndiannessImplausible(n))
             case None => true
    ensures Obstacle(before, after)
  {
    assert !Plausible(before, after);
  }

  lemma NoCount(before: seq<Exchange>, mid: seq<Exchange>, after: seq<Exchange>)
    requires before <= mid <= after && Tried(mid, after, NUMBER_OF_FANS)
    requires ByteRead(mid, after, NUMBER_OF_FANS) == None && !EndsAbsent(mid, after, NUMBER_OF_FANS)
    ensures Obstacle(before, after)
  {
    assert Uncounted(mid, after);
  }

  lemma CountedNow(before: seq<Exchange>, after: seq<Exchange>, n: nat, count: Result<Byte>)
    requires ByteRead(before, after, NUMBER_OF_FANS) == if count.Ok? then Some(count.value) else None
    requires count.Err? ==> EndsAbsent(before, after, NUMBER_OF_FANS)
    requires n == if count.Ok? then count.value else 0
    ensures Counted(before, after, n)
  {
  }

  // Never writes. As many fans as the SMC counts, each as the SMC describes it, except for the
  // mode keys of all but the first.
  method EnumerateFans(conn: Connection) returns (r: Result<seq<Fan>>)
    requires conn.Valid()
    modifies conn.smc`log, conn.cache.slots
    ensures conn.Valid() && ReadsOnly(old(conn.smc.log), conn.smc.log)
    ensures r.Ok? ==> |r.value| <= 208 && Numbered(old(conn.smc.log), conn.smc.log, r.value)
    ensures r.Ok? ==> Counted(old(conn.smc.log), conn.smc.log, |r.value|)
    ensures r.Ok? ==> ModeKeysFound(old(conn.cache.slots[MODE_SLOT]).Some?, old(conn.smc.log), conn.smc.log, r.value)
    ensures r.Err? && conn.open ==> Obstacle(old(conn.smc.log), conn.smc.log)
  {
    hide FanMissing, Counted, Uncounted, Plausible;
    ghost var start, full := conn.smc.log, conn.cache.slots[MODE_SLOT].Some?;
    var keys := ReadKeyCount(conn);
    if keys.Err? {
      if conn.open {
        NoKeys(start, conn.smc.log, keys);
      }
      return Err(keys.error);
    }
    ghost var gated := conn.smc.log;
    var count := conn.ReadU8(NUMBER_OF_FANS);
    if count.Err? && !count.error.KeyNotFound? {
      if conn.open {
        NoCount(start, gated, conn.smc.log);
      }
      return Err(count.error);
    }
    ghost var counted := conn.smc.log;
    var fanCount: nat := if count.Ok? then count.value else 0;
    CountedNow(gated, counted, fanCount, count);
    StillCounted(start, gated, counted, counted, fanCount);
    if fanCount == 0 {
      return Ok([]);
    }
    assert KeyCache.Slot(NUMBER_OF_FANS) != MODE_SLOT && KeyCache.Slot(NUMBER_OF_KEYS) != MODE_SLOT;
    assert conn.cache.slots[MODE_SLOT].Some? == full;
    r := ReadFans(conn, fanCount);
    StillCounted(start, start, counted, conn.smc.log, fanCount);
    if r.Err? && conn.open {
      if fanCount <= 208 {
        ghost var i: nat :| i < 208 && FanMissing(counted, conn.smc.log, i);
        StillMissing(start, counted, conn.smc.log, conn.smc.log, i);
      }
    }
    if r.Ok? {
      Earlier(full, start, counted, conn.smc.log, r.value);
    }
  }

  lemma Earlier(full: bool, start: seq<Exchange>, mid: seq<Exchange>, after: seq<Exchange>, fans: seq<Fan>)
    requires start <= mid <= after && Numbered(mid, after, fans) && ModeKeysFound(full, mid, after, fans)
    ensures Numbered(start, after, fans) && ModeKeysFound(full, start, after, fans)
  {
    forall k | 0 <= k < |fans| ensures Faithful(start, after, fans[k]) {
      StillFaithful(start, mid, after, after, fans[k]);
    }
    forall k | 0 <= k < |fans| ensures ModeKeyFound(full || k > 0, start, after, k, fans[k].modeKey) {
      if !(full || k > 0) {
        StillProbed(start, mid, after, after, k, fans[k].modeKey);
      }
    }
  }
}
