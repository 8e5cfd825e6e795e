/** src/control/panic.rs: the over-temperature latch. Instants are nanoseconds. */
module Panic {
  import opened Floats

  datatype Action = ForceMax | Passthrough

  datatype Latch = Latch(latched: bool, above: nat, enteredAt: Option<nat>)

  const FRESH := Latch(false, 0, None)

  // `now.duration_since(entered).as_secs()`, which saturates at zero.
  function ElapsedSecs(now: nat, entered: nat): nat {
    if now < entered then 0 else (now - entered) / 1_000_000_000
  }

  // That is `hold` seconds or more of nanoseconds.
  lemma ElapsedIff(now: nat, entered: nat, hold: nat)
    ensures ElapsedSecs(now, entered) >= hold <==> hold == 0 || now >= entered + hold * 1_000_000_000
  {
  }

  // ---- specification on values ---------------------------------------------------------

  function Counted(l: Latch, raw: real, threshold: real): nat {
    if raw <= threshold then 0 else if l.above < 255 then l.above + 1 else l.above
  }

  predicate Enters(l: Latch, raw: real, threshold: real) {
    !l.latched && Counted(l, raw, threshold) >= 2
  }

  predicate Releases(l: Latch, raw: real, threshold: real, hold: nat, now: nat) {
    l.latched && raw <= threshold && l.enteredAt.Some? && ElapsedSecs(now, l.enteredAt.value) >= hold
  }

  function Next(l: Latch, raw: real, threshold: real, hold: nat, now: nat): Latch {
    if Releases(l, raw, threshold, hold, now) then FRESH
    else if Enters(l, raw, threshold) then Latch(true, Counted(l, raw, threshold), Some(now))
    else l.(above := Counted(l, raw, threshold))
  }

  function Acts(l: Latch, raw: real, threshold: real, hold: nat, now: nat): Action {
    if Next(l, raw, threshold, hold, now).latched then ForceMax else Passthrough
  }

  // ---- the source's mutable state ------------------------------------------------------

  class PanicState {
    var latched: bool
    var consecutiveAbove: nat
    var enteredAt: Option<nat>

    function Value(): Latch
      reads this
    {
      Latch(latched, consecutiveAbove, enteredAt)
    }

    constructor ()
      ensures Value() == FRESH
    {
      latched := false;
      consecutiveAbove := 0;
      enteredAt := None;
    }

    method Check(raw: real, threshold: real, hold: nat, now: nat) returns (action: Action)
      modifies this
      ensures Value() == Next(old(Value()), raw, threshold, hold, now)
      ensures action == Acts(old(Value()), raw, threshold, hold, now)
    {
      if raw > threshold {
        consecutiveAbove := if consecutiveAbove < 255 then consecutiveAbove + 1 else consecutiveAbove;
      } else {
        consecutiveAbove := 0;
      }
      if !latched && consecutiveAbove >= 2 {
        latched := true;
        enteredAt := Some(now);
      }
      if latched {
        if raw <= threshold {
          if enteredAt.Some? {
            var elapsed := ElapsedSecs(now, enteredAt.value);
            if elapsed >= hold {
              latched := false;
              enteredAt := None;
              consecutiveAbove := 0;
              return Passthrough;
            }
          }
        }
        return ForceMax;
      }
      action := Passthrough;
    }
  }
}
