/** src/smc/unlock.rs: the diagnostic unlock session, its one-shot release flag and its watchdog. */
module Watchdog {
  import opened Floats

  // The shared `AtomicBool`: of all callers of CompareExchange exactly the first wins.
  class AtomicFlag {
    var raised: bool

    constructor ()
      ensures !raised
    {
      raised := false;
    }

    method CompareExchange() returns (won: bool)
      modifies this
      ensures raised && won == !old(raised)
    {
      won := !raised;
      if won {
        raised := true;
      }
    }
  }

  const NS_PER_MS: nat := 1_000_000
  const DEADLINE_MS: nat := 4000
  const DEADLINE_NS: nat := 4_000_000_000
  const POLL_INTERVAL_NS: nat := 250_000_000

  // What the watchdog sees on one wake-up.
  datatype Poll = Poll(stop: bool, release: bool, now: nat, last: nat)

  function ElapsedMs(now: nat, last: nat): nat {
    (if now >= last then now - last else 0) / NS_PER_MS
  }

  predicate Stale(p: Poll) {
    ElapsedMs(p.now, p.last) >= DEADLINE_MS
  }

  predicate Quiet(p: Poll) {
    !p.stop && !p.release && !Stale(p)
  }

  // Wake-up `i` raises SIGTERM: it finds a stale heartbeat, no flag set, and nothing happened before.
  predicate RaisesAt(polls: seq<Poll>, i: nat) {
    && i < |polls| && Stale(polls[i]) && !polls[i].stop && !polls[i].release
    && forall j :: 0 <= j < i ==> Quiet(polls[j])
  }

  class DiagnosticUnlockSession {
    const release: AtomicFlag
    var lastHeartbeat: nat
    var released: bool
    var watchdogRunning: bool
    var watchdogStop: bool
    // How many exchanges the SMC had seen when the watchdog was stopped.
    ghost var stoppedAt: Option<nat>
    // And how many when the heartbeat was last renewed.
    ghost var beatAt: nat

    predicate Valid()
      reads this, release
    {
      released ==> release.raised
    }

    constructor (release: AtomicFlag, now: nat)
      ensures Valid() && this.release == release && lastHeartbeat == now
      ensures !released && !watchdogRunning && !watchdogStop
    {
      this.release := release;
      lastHeartbeat := now;
      released := false;
      watchdogRunning := false;
      watchdogStop := false;
      stoppedAt := None;
      beatAt := 0;
    }

    method StartWatchdog()
      modifies this`watchdogRunning
      ensures watchdogRunning
    {
      if watchdogRunning {
        return;
      }
      watchdogRunning := true;
    }

    // The thread is detached; it ends at its next wake-up.
    method StopWatchdog(ghost exchanges: nat)
      modifies this`watchdogRunning, this`watchdogStop, this`stoppedAt
      ensures watchdogStop && !watchdogRunning && stoppedAt == Some(exchanges)
    {
      stoppedAt := Some(exchanges);
      watchdogStop := true;
      watchdogRunning := false;
    }

    method Heartbeat(now: nat, ghost exchanges: nat)
      modifies this`lastHeartbeat, this`beatAt
      ensures lastHeartbeat == now && beatAt == exchanges
    {
      beatAt := exchanges;
      lastHeartbeat := now;
    }

    // True for at most one caller ever, and only if nobody else had claimed the release.
    method TryBeginRelease() returns (won: bool)
      requires Valid()
      modifies this`released, release
      ensures Valid() && release.raised
      ensures won <==> !old(release.raised)
      ensures released == (old(released) || won)
    {
      if released {
        return false;
      }
      won := release.CompareExchange();
      if won {
        released := true;
      }
    }
  }

  // The poller thread, given what it sees on each wake-up. After raising it parks for good.
  method WatchdogLoop(polls: seq<Poll>) returns (raised: Option<nat>)
    ensures raised.Some? ==> RaisesAt(polls, raised.value)
    ensures raised.None? ==> forall i: nat :: !RaisesAt(polls, i)
  {
    for i := 0 to |polls|
      invariant forall j :: 0 <= j < i ==> Quiet(polls[j])
    {
      var p := polls[i];
      if p.stop {
        return None;
      }
      if p.release {
        return None;
      }
      if ElapsedMs(p.now, p.last) >= DEADLINE_MS {
        return Some(i);
      }
    }
    raised := None;
  }

  // At most one SIGTERM; none at or after a wake-up that saw either flag.
  lemma RaisesOnce(polls: seq<Poll>, i: nat, j: nat)
    requires RaisesAt(polls, i)
    ensures RaisesAt(polls, j) ==> j == i
    ensures j <= i ==> !polls[j].stop && !polls[j].release
  {
  }

  // The heartbeat read is one that happened, and no older than the latest at the time of the
  // clock reading. It may be newer: the clock is read first.
  ghost predicate Sees(beats: seq<nat>, p: Poll) {
    p.last in beats && forall h :: h in beats && h <= p.now ==> h <= p.last
  }

  // Consecutive heartbeats are less than the deadline apart.
  ghost predicate Alive(beats: seq<nat>) {
    && beats != []
    && forall k :: 0 <= k < |beats| - 1 ==> beats[k] <= beats[k + 1] < beats[k] + DEADLINE_NS
  }

  lemma {:induction false} Rising(beats: seq<nat>, i: nat, j: nat)
    requires Alive(beats) && i <= j < |beats|
    ensures beats[i] <= beats[j]
  {
    if i < j {
      Rising(beats, i, j - 1);
    }
  }

  // Some heartbeat is no later than `now` and less than the deadline old.
  lemma {:induction false} RecentBeat(beats: seq<nat>, n: nat, now: nat) returns (k: nat)
    requires Alive(beats) && n < |beats|
    requires beats[0] <= now < beats[n] + DEADLINE_NS
    ensures k <= n && beats[k] <= now < beats[k] + DEADLINE_NS
  {
    if beats[n] <= now {
      k := n;
    } else {
      k := RecentBeat(beats, n - 1, now);
    }
  }

  lemma FreshPoll(beats: seq<nat>, p: Poll)
    requires Alive(beats) && Sees(beats, p)
    requires beats[0] <= p.now < beats[|beats| - 1] + DEADLINE_NS
    ensures !Stale(p)
  {
    var k := RecentBeat(beats, |beats| - 1, p.now);
    assert beats[k] in beats;
  }

  // While heartbeats keep coming less than 4000 ms apart, no SIGTERM.
  lemma NoFalseAlarm(polls: seq<Poll>, beats: seq<nat>)
    requires Alive(beats)
    requires forall p :: p in polls ==> Sees(beats, p) && beats[0] <= p.now < beats[|beats| - 1] + DEADLINE_NS
    ensures forall i: nat :: !RaisesAt(polls, i)
  {
    forall i: nat ensures !RaisesAt(polls, i) {
      if i < |polls| {
        assert polls[i] in polls;
        FreshPoll(beats, polls[i]);
      }
    }
  }

  // Wake-ups come in order, at most `gap` ns apart, the first no later than `gap` after `start`.
  ghost predicate Punctual(polls: seq<Poll>, start: nat, gap: nat) {
    && (polls != [] ==> start <= polls[0].now <= start + gap)
    && forall i :: 0 <= i < |polls| - 1 ==> polls[i].now <= polls[i + 1].now <= polls[i].now + gap
  }

  // The first wake-up at or after `deadline`.
  lemma {:induction false} FirstAtOrAfter(polls: seq<Poll>, start: nat, gap: nat, deadline: nat, n: nat)
    returns (i: nat)
    requires Punctual(polls, start, gap) && n < |polls| && start <= deadline <= polls[n].now
    ensures i <= n && deadline <= polls[i].now <= deadline + gap
    ensures forall j :: 0 <= j < i ==> polls[j].now < deadline
  {
    if n == 0 {
      i := 0;
    } else if polls[n - 1].now >= deadline {
      i := FirstAtOrAfter(polls, start, gap, deadline, n - 1);
    } else {
      i := n;
      var j := n - 1;
      while j > 0
        invariant 0 <= j < n && forall k :: j <= k < n ==> polls[k].now < deadline
      {
        assert polls[j - 1].now <= polls[j].now;
        j := j - 1;
      }
    }
  }

  // Heartbeats stop at `h`, the last of `beats`, with both flags clear: SIGTERM is raised, once,
  // no earlier than 4000 ms after `h` and at most one wake-up interval later.
  lemma FiresInTime(polls: seq<Poll>, beats: seq<nat>, gap: nat) returns (i: nat)
    requires Alive(beats) && Punctual(polls, beats[0], gap)
    requires forall p :: p in polls ==> Sees(beats, p) && !p.stop && !p.release
    requires polls != [] && polls[|polls| - 1].now >= beats[|beats| - 1] + DEADLINE_NS
    ensures RaisesAt(polls, i)
    ensures var h := beats[|beats| - 1]; h + DEADLINE_NS <= polls[i].now <= h + DEADLINE_NS + gap
  {
    var h := beats[|beats| - 1];
    Rising(beats, 0, |beats| - 1);
    i := FirstAtOrAfter(polls, beats[0], gap, h + DEADLINE_NS, |polls| - 1);
    forall j | 0 <= j < i ensures Quiet(polls[j]) {
      assert polls[j] in polls;
      PollsRise(polls, beats[0], gap, j);
      FreshPoll(beats, polls[j]);
    }
    var k :| 0 <= k < |beats| && beats[k] == polls[i].last by { assert polls[i] in polls; }
    Rising(beats, k, |beats| - 1);
    assert polls[i] in polls;
  }

  // With wake-ups at most 250 ms apart: between 4000 ms and 4250 ms after the last heartbeat.
  lemma FiresWithin4250(polls: seq<Poll>, beats: seq<nat>) returns (i: nat)
    requires Alive(beats) && Punctual(polls, beats[0], POLL_INTERVAL_NS)
    requires forall p :: p in polls ==> Sees(beats, p) && !p.stop && !p.release
    requires polls != [] && polls[|polls| - 1].now >= beats[|beats| - 1] + DEADLINE_NS
    ensures RaisesAt(polls, i) && forall j: nat :: RaisesAt(polls, j) ==> j == i
    ensures var h := beats[|beats| - 1]; h + 4000 * NS_PER_MS <= polls[i].now <= h + 4250 * NS_PER_MS
  {
    i := FiresInTime(polls, beats, POLL_INTERVAL_NS);
    forall j: nat | RaisesAt(polls, j) ensures j == i {
      RaisesOnce(polls, i, j);
    }
  }

  lemma {:induction false} PollsRise(polls: seq<Poll>, start: nat, gap: nat, j: nat)
    requires Punctual(polls, start, gap) && j < |polls|
    ensures start <= polls[j].now
  {
    if j > 0 {
      PollsRise(polls, start, gap, j - 1);
      assert polls[j - 1].now <= polls[j - 1 + 1].now;
    }
  }

  // The clock is the wall clock: stepped forward four seconds it raises a false alarm, stepped
  // back it is never stale.
  lemma ClockSteps(last: nat, now: nat)
    ensures now >= last + DEADLINE_NS <==> RaisesAt([Poll(false, false, now, last)], 0)
  {
    var p := Poll(false, false, now, last);
    assert [p][0] == p;
  }
}
