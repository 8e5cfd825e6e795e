# fand: a verified model of the fan daemon

This project models the logic of `fand`, a fan daemon for Apple Silicon machines, and proves what its
parts promise. Four pieces of the daemon are covered.

**The control pipeline.** `FanControlState.Tick` chains sensor fusion, smoothing, the piecewise-linear
curve, the asymmetric deadband, the ramp-down limiter, the panic latch and the clamp, and feeds the
two-threshold adapter. Each stage is a class or function of its own (`Fusion`, `Stages`, `Curve`,
`Hysteresis`, `Panic`, `Clamp`, `Adapter`); `ControlLoop` composes them and defines runs, that is, any
mixture of ticks and bumpless reinitialisations; `Sensors`, `Comfort` and `Safety` prove what holds over all
runs, with the accounting of movement against changes in `Deadband`.

**The verified write session.** `SmcConnection` is the user client: retries, the cache-first key lookup,
reads, writes, write with read-back. The kernel is an arbitrary function from everything asked so far to
the next reply, so every theorem holds for every behaviour of the SMC. `KeyCache` says when the untagged
cache is invisible, `Ring` that the record ring is a window on the full history, `Registers` what a history
of exchanges says about the registers, `Singles` which number four bytes are, `Enumerate` how fans are listed,
`WriteSession` what a session writes, records and leaves behind, `Trail` that every record of any session
stands for a stretch of the conversation of its own, `Ledger` what a self-test has done exchange by exchange,
`Selftest` what its verdicts mean.

**The release protocol.** `Release` is the list of zeros every arm writes, register by register, against an
SMC that may refuse any of them. `Teardown` is a state machine whose atomic steps are those of the main
thread, the signal thread, the watchdog and the panic hook around one flag. `Refinement` joins the two: the
machine's steps are what stretches of the conversation do to the registers. `Watchdog` has the unlock
session's one-shot release, the polling loop and its timing bounds.

**Encodings and scanners.** `Ulid` (the session identifier), `Parse` (the numeric scanners), `Validate`
(the configuration check, which supplies what the curve theorems assume), `ForceRpm` (the fallback chain
of `fand force-rpm`) and `SliceWriter` (the panic message buffer).

Finite `f32` values are reals; NaN and the infinities are separate constructors where the source tests for
them (`Floats`). `f32::EPSILON` is 2^-23, `round` is half away from zero with a saturating cast. Clocks,
sensor values, tick lengths, entropy and the environment variable for the safe floor are arguments or
arbitrary values.

## What was found

Most promises hold as documented. The following do not, or hold only under a condition. Where a condition is
named it is proved exact; the other entries are shown by an input or a run.

* `fand force-rpm` reads `F0Mn` least significant byte first and writes it back most significant byte
  first (`src/cli/force.rs:208`, `276`). After a run that needed its last path the floor register holds the
  original bytes reversed; it is restored exactly if the last path was not needed or the four bytes are a
  palindrome (`ForceRpm.FloorRestoredIff`).
* A curve step narrower than 2^-23 °C that is not flat makes the curve jump: it is then neither exact at
  that breakpoint (unless it is the last) nor Lipschitz (`Curve.ExactAtBreakpoint`, `Curve.LipschitzIff`).
* A safe floor above the hardware maximum is accepted. Clamping is monotone, stays inside its bounds, and is
  idempotent exactly when floor and maximum are in order or round to the same RPM (`Clamp.MonotoneIff`,
  `Clamp.BoundedIff`, `Clamp.IdempotentIff`).
  The same condition decides whether a latched over-temperature gets the maximum (`Safety.HoldsMax`).
* With the RPM limits inverted the adapter's thresholds swap, and a steady target between them flips the mode
  on every call (`Adapter.InvertedRangeOscillates`); every other steady target changes it at most once
  (`Adapter.SteadySettlesIff`).
* The key cache has no tags. It is invisible exactly when keys that share a low byte agree on size and type
  (`KeyCache.TransparentIff`). The probe of every fan but the first is answered from the first fan's slot, so
  on a machine with uppercase mode keys all later fans are listed with a lowercase key
  (`KeyCache.UppercaseMachineMisprobed`, `Enumerate.EnumerateFans`).
* Every fan is to be released whatever happens to the others (`src/smc/signal.rs:212`). All mode registers
  share one cache slot, and a fan whose own register would take the zero gets it exactly if that slot, or else
  the first fan the SMC describes, says one byte (`Release.WillingFanAcceptedIff`); a first fan described as
  four bytes wide leaves the second one forced (`Release.WideNeighbourBlocks`).
* `tests/loom_teardown.rs` models the panic hook as a third contender for the flag; the hook
  (`src/smc/panic_hook.rs:109`) has a guard of its own and can release at the same time as the signal
  thread (`Teardown.HookOverlapsSignal`). The comment at `src/smc/signal.rs:207` speaks of a second signal;
  the only other owner of the flag is the main thread, and losing to it ends the process before its release is
  complete (`Teardown.SignalCutsMainShort`). Conversely main may lose and exit first
  (`Teardown.MainCutsSignalShort`). These endings clear a register exactly if it is clear already and main can
  no longer force it (`Teardown.AbruptClearIff`). Commits never look at the flag
  (`Teardown.CommitOutlivesRelease`): a completed release leaves a register at 0 exactly if its list has not
  passed it and left it forced and main can no longer force it (`Teardown.RegisterClearedIff`).
* `parse_fan_index` is documented to reject `00`; any number of leading zeros is accepted
  (`Parse.FanIndexRoundTrip`). `validate_strict_float` accepts the empty string, which its caller rejects first.
* Session identifiers are documented as increasing within a millisecond; only the entropy decides
  (`Ulid.NotMonotonicWithinMs`).
* The branch `SelftestReport::classify` calls impossible is taken when a fan merely stopped early, and
  then passes the run; `run_selftest` never produces such a report (`Selftest.OverallPassIff`,
  `Ledger.SelftestVerdict`).
* A reading that fails counts as 0 RPM, so a fan whose readings at forced minimum all failed passes the
  self-test (`Ledger.FailedReadingsPass`). That every pass is one the SMC reported, by two readings 500 RPM
  apart, holds of a pattern of failures exactly if the failures of the two kinds stand alike: both under half
  of the readings, both at half, or both over (`Selftest.ReliableIff`, `Ledger.PassMeansReportedFaster`).
* `validate` promises all violations at once. A fan section reports all of its own exactly if it has two
  breakpoints or more, or neither its margin nor its single breakpoint is wrong (`Validate.AllReportedIff`,
  `Validate.ShortCurveHides`).
* Both range tests on `hysteresis_down` are false of NaN, so NaN is accepted (`Validate.NaNMarginAccepted`).
* A float is compared with its read-back by bytes. A mismatch in which the two numbers are equal is exactly
  one between 0.0 and -0.0 (`SmcConnection.MismatchThoughEqual`).

## Model

| member | source | states |
|---|---|---|
| Curve.Evaluate | src/control/curve.rs:1-29 | the segment search returns the curve's value and never falls off its end |
| Curve.CurveInHull | src/control/curve.rs:1-29 | on any non-empty list of breakpoints, sorted or not, the result lies between the least and greatest RPM listed |
| Curve.CurveMonotone | src/control/curve.rs:1-29 | non-decreasing RPMs make the curve monotone in temperature, whatever the temperatures |
| Curve.MonotoneIff | src/control/curve.rs:1-29 | on every accepted curve, collapsed steps or not: monotone in temperature if and only if the RPMs are non-decreasing |
| Curve.ExactAtBreakpoint | src/control/curve.rs:13-21 | on an accepted curve the value at breakpoint k is its RPM, if and only if k does not end a collapsed inner step |
| Curve.OnTheChord | src/control/curve.rs:13-25 | between two breakpoints of an accepted curve the value is on the straight line through them, and on a collapsed inner step the colder end |
| Curve.FlatOutside | src/control/curve.rs:5-11 | up to the first breakpoint and from the last one on the value is that of the breakpoint |
| Curve.Lipschitz | src/control/curve.rs:13-25 | between any two temperatures, across segments and past both ends, the curve moves at most the steepest segment slope per degree |
| Curve.LipschitzIff | src/control/curve.rs:18-20 | some Lipschitz bound exists if and only if no step has collapsed |
| Fusion.HottestWins | src/control/fusion.rs:17-43 | by position in the two lists: max mode gives a live reading that no finite live reading exceeds, if some live reading is finite and none is plus infinity; otherwise the last good value |
| Fusion.MeanIsMean | src/control/fusion.rs:17-43 | by position: the result times the number of live sensors is the sum of their readings, if there are any and all are finite; otherwise the last good value |
| Fusion.SteadyFuses | src/control/fusion.rs:17-43 | both modes return T when every live sensor reads T |
| Sensors.Remembers | src/control/loop.rs:125-143 | over any run of ticks and reinits the remembered temperature is that of the latest tick with a live sensor, and the first one if there was none |
| Sensors.UnusableHolds | src/control/loop.rs:125-143 | a tick whose sensors have all dropped out, or whose sample is not finite, is driven by that temperature |
| Sensors.FromStart | src/control/loop.rs:79-101 | before any live tick, by the temperature the pipeline was built with |
| Sensors.UsableDrives | src/control/loop.rs:125-132 | a usable sample drives its tick, by its hottest finite live reading or by the mean of its live ones |
| Stages.Geometric | src/control/ema.rs:1-3 | the smoothing error under a constant input is exactly (1 - alpha)^k times the initial one |
| Stages.LimitBounds | src/control/slew.rs:1-9 | speeding up is immediate; slowing down is at most ramp * min(dt, 1) and never overshoots |
| Stages.Ramp | src/control/slew.rs:1-9 | towards a constant target the limiter is a straight ramp that stops at the target |
| Clamp.WasClampedIff | src/control/state.rs:63-66 | the notice is given exactly when clamping changed the request |
| Clamp.ComesOut | src/control/state.rs:32-43 | a request between the effective floor and the maximum comes out to the nearest RPM; one below the floor, or not finite, as the floor; one above the maximum as the maximum |
| Clamp.MonotoneIff | src/control/state.rs:32-43 | clamp-and-round is monotone if and only if floor and maximum are ordered |
| Clamp.BoundedIff | src/control/state.rs:32-43 | it stays within its bounds under the same condition, and only then |
| Clamp.IdempotentIff | src/control/state.rs:32-56 | clamping twice is clamping once under the same condition, and only then |
| Clamp.ClampDrop | src/control/state.rs:32-43 | lowering the request by d lowers the result by less than d + 1 |
| Clamp.EffectiveMin | src/control/state.rs:70-78 | the greater of the hardware minimum and a finite environment value, and nothing else |
| Hysteresis.HysteresisState.Apply | src/control/hysteresis.rs:32-75 | the next state of the deadband, of which Comfort.AdoptsIff says over runs what it is |
| Hysteresis.HysteresisState.Reinit | src/control/hysteresis.rs:25-29 | forgets the past: the given speed at the given temperature, direction held |
| Hysteresis.InBand | src/control/hysteresis.rs:39-74 | after every step the temperature is within the margins of the last emission |
| Panic.PanicState.Check | src/control/panic.rs:33-68 | debounce, latch with hold, release: the new latch state and the action |
| Panic.ElapsedIff | src/control/panic.rs:51-64 | whole elapsed seconds reach the hold time exactly when that many nanoseconds have passed, or the hold time is zero |
| Adapter.AppleSiliconAdapter.Decide | src/control/adapter.rs:53-75 | one decision of the two-threshold switch |
| Adapter.DecidesIff | src/control/adapter.rs:53-75 | over runs: auto gives way exactly up to 5 % of the range above the minimum, forced minimum lets go exactly above 10 % |
| Adapter.BandDecides | src/control/adapter.rs:53-75 | with limits in order, whatever came before: above 10 % auto, up to 5 % forced minimum, in between no change |
| Adapter.AntiChatter | src/control/adapter.rs:53-75 | apart from the first, every mode change is paid for by 5 % of the range in target movement |
| Adapter.ChangesBounded | src/control/adapter.rs:53-75 | (changes - 1) * 5 % of range is at most the total variation of the targets |
| Adapter.InvertedRangeOscillates | src/control/adapter.rs:53-75 | a steady target between swapped thresholds changes the mode on every call |
| Adapter.SteadySettlesIff | src/control/adapter.rs:53-75 | a steady target changes the mode at most once, over runs of any length, if and only if it is not between swapped thresholds |
| ControlLoop.FanControlState.Tick | src/control/loop.rs:109-190 | the whole new state and the value returned by one tick |
| ControlLoop.FanControlState.ReinitBumpless | src/control/loop.rs:103-107 | limiter, smoother and deadband start over; latch, sensor age and last good reading survive |
| ControlLoop.TraceUnique | src/control/loop.rs:103-190 | a start and a run determine every state passed through |
| Comfort.AntiChatter | src/control/loop.rs:145-159 | over any run of ticks and reinits, from any state, emissions at the smaller margin each plus the final offset are at most the movement of the smoothed temperature plus the initial offset |
| Comfort.MovesToReading | src/control/loop.rs:145-147 | each tick that runs the pipeline leaves 1 - alpha of the distance between the smoothed temperature and the reading of that tick |
| Comfort.AdoptsIff | src/control/hysteresis.rs:32-75 | a tick leaves the deadband as it is while the smoothed temperature is at most `up` above and at most `down` below the adopted one, and otherwise adopts it with the speed the curve asks for there |
| Comfort.StaysStill | src/control/hysteresis.rs:39-60 | while the temperature stays in the band around what was once adopted, the deadband stays as it was |
| Comfort.TwoPriceLaw | src/control/hysteresis.rs:39-72 | over any run from any state: (upward emissions) * up + (downward emissions) * down + final offset is at most the movement of the smoothed temperature plus the initial offset |
| Comfort.FreshOffset | src/control/loop.rs:79-107 | construction and reinit start with no offset, so the bound is bare variation |
| Comfort.EmissionsBounded | src/control/hysteresis.rs:39-72 | (number of emissions) * min(up, down) is at most the total variation of the smoothed temperature |
| Comfort.HeldOnCurve | src/control/loop.rs:145-159 | once informed, the held speed is the curve at the last emitted temperature, and the band holds |
| Comfort.Bracket | src/control/loop.rs:145-159 | with non-decreasing RPMs, curve(smoothed - up) <= held speed <= curve(smoothed + down) after the first emission since start or reinit |
| Comfort.GeometricError | src/control/loop.rs:145-147 | under a steady reading the smoothed error after k ticks is exactly (1 - alpha)^k times the initial one |
| Comfort.EmissionsUnderSteady | src/control/loop.rs:145-159 | under a steady reading at most gap / min(up, down) emissions ever happen |
| Comfort.NoMoreEmissions | src/control/loop.rs:145-159 | once error and offset are together below the margin the deadband stays quiet for good |
| Comfort.Settles | src/control/loop.rs:125-190 | with a quiet deadband, from the tick whose budget covers the gap on, the pipeline returns the held speed, clamped and rounded |
| Comfort.SettlesInTime | src/control/slew.rs:1-9 | with ticks of one length that happens within ceil(gap / (ramp * min(dt, 1))) ticks |
| Comfort.SettledBetween | src/control/loop.rs:125-190 | end to end: the settled output lies between what the curve asks for `up` degrees below and `down` degrees above the steady temperature, both shifted by the smoothing error (1 - alpha)^k * (s0 - T) and clamped |
| Safety.EntersIff | src/control/panic.rs:40-49 | over any run the latch is entered exactly on a check above the threshold directly after another one |
| Safety.ReleasesIff | src/control/panic.rs:51-64 | it is left exactly on a check at or below the threshold once the hold time, in nanoseconds, is over |
| Safety.HoldsMax | src/control/loop.rs:169-190 | from entry until the hold time is over a tick returns the maximum if and only if it is blind or the safe floor does not round above the maximum |
| Safety.BlindIff | src/control/loop.rs:133-143 | the raw maximum is returned, and the pipeline skipped, exactly from the 61st consecutive all-dropout tick on |
| Safety.PassesThrough | src/control/loop.rs:161-190 | a tick that is neither blind nor latched returns, and stores as final target, the limited speed to the nearest RPM, or the floor or maximum if it passes one of them |
| Safety.FallsSlowly | src/control/loop.rs:161-190 | between passthrough ticks without a reinit the output falls by less than ramp * sum of min(dt, 1) plus one RPM |
| Safety.EngagingTakesTime | src/control/adapter.rs:53-75 | from above the upper threshold to engagement the ramp budget plus one must exceed 5 % of range |
| SmcTypes.KeysDistinct | src/smc/keys.rs:56-95 | different whitelist entries never name the same register |
| KeyCache.KeyInfoCache.Put | src/smc/cache.rs:21-24 | overwrites the slot of the low byte, and no other |
| KeyCache.KeyInfoCache.Invalidate | src/smc/cache.rs:26-29 | empties the slot of the low byte, and no other |
| KeyCache.KeyInfoCache.Get | src/smc/cache.rs:16-19 | answers from the slot of the low byte |
| KeyCache.StaysCoherent | src/smc/cache.rs:16-29 | over every run of lookups and evictions of agreeing keys each filled slot holds what the SMC would answer |
| KeyCache.TransparentIff | src/smc/cache.rs:16-29 | cached and uncached lookups agree over every run if and only if present keys sharing a slot have equal size and type and are all present |
| KeyCache.UppercaseMachineMisprobed | src/smc/enumerate.rs:127-143 | a machine with uppercase mode keys: the probe of fan 1 is answered from fan 0's slot |
| Ring.RecordKeeps | src/smc/round_trip.rs:82-106 | payloads of up to four bytes are recorded whole, longer ones as their first four |
| Ring.RoundTripRing.Push | src/smc/round_trip.rs:153-157 | the history grows by the record; slots, cursor and saturating count follow it |
| Ring.RoundTripRing.Recent | src/smc/round_trip.rs:169-175 | exactly the last min(n, 256, count) records in order, with every index in range |
| SmcConnection.Connection.CallStruct | src/smc/ffi.rs:925-1005 | one to three attempts, a busy and a timeout each retried once, the last reply decisive |
| SmcConnection.SettlesUnique | src/smc/ffi.rs:944-996 | the kernel's behaviour determines the whole conversation and its outcome |
| SmcConnection.Connection.ReadKeyInfo | src/smc/ffi.rs:1014-1070 | cache first; otherwise asked, clamped to 32, checked for emptiness, remembered or evicted |
| SmcConnection.LookupFollows | src/smc/ffi.rs:1014-1070 | against a kernel with fixed answers a lookup is one step of the cache's event machine |
| SmcConnection.CacheInvisible | src/smc/ffi.rs:1014-1101 | over every run among agreeing keys the cached lookup returns what the SMC itself answers |
| SmcConnection.AnyCalls | src/smc/ffi.rs:1014-1289 | any sequence of lookups, reads and writes of agreeing keys on a fresh connection: every lookup returns what the SMC itself answers |
| SmcConnection.Connection.ReadKey | src/smc/ffi.rs:1081-1101 | the payload the SMC gave, size at most 32; a key that is gone is evicted |
| SmcConnection.Connection.ReadU8 | src/smc/ffi.rs:1109-1125 | the first byte of a one-byte ui8 |
| SmcConnection.Connection.ReadU32 | src/smc/ffi.rs:1133-1149 | four bytes of a ui32, most significant first |
| SmcConnection.Connection.ReadF32 | src/smc/ffi.rs:1158-1179 | the four bytes of a finite flt |
| SmcConnection.Connection.WriteRaw | src/smc/ffi.rs:1365-1398 | writes nothing but these bytes to this key; Ok if and only if the SMC accepted them last; at most six attempts; looked up, sent if the width fits, and the error is that of the step that failed |
| SmcConnection.SentIff | src/smc/ffi.rs:1365-1398 | the bytes are sent exactly if the slot, or if it is empty the SMC when asked, says that they fit; an empty slot is always asked about; "no such key" exactly if the SMC said so |
| SmcConnection.WroteTaught | src/smc/ffi.rs:1014-1070 | a slot filled by a write says what the SMC has just said about a key of that slot |
| SmcConnection.Connection.WriteKey | src/smc/ffi.rs:1253-1289 | the same for a whitelist entry |
| SmcConnection.Connection.WriteU8 | src/smc/ffi.rs:1295-1308 | refuses the float key without asking; otherwise one byte |
| SmcConnection.Connection.WriteF32 | src/smc/ffi.rs:1316-1332 | refuses byte keys and non-finite values without asking |
| SmcConnection.Connection.WriteU8Verified | src/smc/ffi.rs:1419-1496 | exactly one record, which tells what the SMC did: refused the write, or accepted it and then answered a read of the same key with nothing, with other bytes or with the same; the write is sent if the slot, or else the SMC, says one byte, and if it is not accepted the error is the one that stopped it; after a match the register can only hold the value |
| SmcConnection.Connection.WriteF32Verified | src/smc/ffi.rs:1503-1582 | the same for the four bytes of a float; a non-finite value touches nothing and leaves no record |
| SmcConnection.VerifiedIff | src/smc/ffi.rs:1419-1582 | a verified write is Ok if and only if it was accepted and its read-back answered with the value written |
| SmcConnection.OutcomeExact | src/smc/ffi.rs:1419-1582 | of a truthful record each of the four outcomes is recorded exactly when it happened: Match if and only if accepted and read back equal, Mismatch if and only if read back different, and so on |
| Trail.ToldExactly | src/smc/write_session.rs:249-630 | every record added in a run, whatever the run, tells what the SMC did in a stretch of the conversation, with its outcome exact; the stretches are disjoint and in the order of the records |
| SmcConnection.MismatchThoughEqual | src/smc/ffi.rs:1552-1555 | a recorded mismatch is between equal numbers if and only if it is between the two zeros |
| Singles.EqualIff | src/smc/ffi.rs:1552-1555 | two finite singles with different bytes are the same number if and only if they are the two zeros |
| Singles.FormatFixed | src/smc/types.rs:20-38 | the format of a single: consecutive fractions differ by one unit, the unit doubles with each exponent, and the smallest exponents share one |
| Singles.One | src/smc/types.rs:20-38 | the bytes 00 00 80 3F are 1.0 |
| SmcConnection.Connection.ForceWriteAutoMode | src/smc/ffi.rs:1596-1599 | writes only 0 to one mode register; Ok if and only if accepted |
| SmcConnection.Connection.ForceWriteFtstZero | src/smc/ffi.rs:1607-1610 | writes only 0 to Ftst; Ok if and only if accepted |
| SmcConnection.Connection.Close | src/smc/ffi.rs:860-901 | closed afterwards, also when it already was |
| Registers.ZeroSticks | src/smc/signal.rs:212-218 | while only zeros are written, by whoever, one accepted zero clears a register for good |
| Registers.ClearedIff | src/smc/signal.rs:212-218 | after any zeros a register is cleared if and only if one of them was accepted or it was cleared before |
| Registers.ForcedIff | src/smc/write_session.rs:482-500 | a write of 1 that was sent marks the register, accepted or not, and nothing else does |
| Registers.OneForcedExtends | src/smc/write_session.rs:470-531 | writing one fan while the others are automatic keeps at most one fan forced at every moment |
| Enumerate.ReadKeyCount | src/smc/enumerate.rs:45-55 | the number the SMC gives if it is from 1 to 8000, an error that names it otherwise, an error if it gives none |
| Enumerate.ProbeModeKey | src/smc/enumerate.rs:127-143 | with a filled slot the lowercase key, unasked; with an empty one what the SMC describes, lowercase before uppercase; no such key only if it denied both |
| Enumerate.ReadFan | src/smc/enumerate.rs:91-111 | every number in the entry is what the SMC gave for that key of that fan; no safe RPM only if it said so; the mode key as the probe of the shared slot decides |
| Enumerate.EnumerateFans | src/smc/enumerate.rs:73-115 | as many fans as FNum says, entry k has index k and is faithful, at most 208, nothing written; only the first mode key is probed, all later ones are lowercase; an open connection fails only for an implausible key count, a failing fan count, too many fans, or a fan whose minimum, maximum, speed or mode key is missing or whose safe speed fails otherwise than by being absent |
| Watchdog.AtomicFlag.CompareExchange | src/smc/write_session.rs:582-590 | the first caller wins, every other loses |
| Watchdog.DiagnosticUnlockSession.TryBeginRelease | src/smc/unlock.rs:198-210 | wins if and only if nobody had claimed the release; the flag is up afterwards |
| Watchdog.DiagnosticUnlockSession.Heartbeat | src/smc/unlock.rs:168-171 | stores the time |
| Watchdog.DiagnosticUnlockSession.StopWatchdog | src/smc/unlock.rs:151-159 | the stop flag is up and the thread handle gone, at the moment given |
| Watchdog.WatchdogLoop | src/smc/unlock.rs:114-148 | raises at the first stale wake-up if no flag was seen before or then, and otherwise never |
| Watchdog.NoFalseAlarm | src/smc/unlock.rs:114-148 | heartbeats less than 4000 ms apart: never raised |
| Watchdog.FiresInTime | src/smc/unlock.rs:114-148 | heartbeats stop at h, flags clear, wake-ups at most a gap apart: raised, between h + 4000 ms and h + 4000 ms + gap |
| Watchdog.FiresWithin4250 | src/smc/unlock.rs:65-148 | with wake-ups at most 250 ms apart: raised exactly once, between 4000 ms and 4250 ms after the last heartbeat |
| Watchdog.RaisesOnce | src/smc/unlock.rs:121-146 | raised at most once, and not at or after a wake-up that saw a flag |
| Watchdog.ClockSteps | src/smc/unlock.rs:128-130 | one forward step of the wall clock by four seconds raises it, a backward step never does |
| Selftest.MedianPermutes | src/smc/selftest.rs:156-169 | the median does not depend on the order of the samples |
| Selftest.MedianRobust | src/smc/selftest.rs:156-169 | with fewer than half the samples corrupted the median stays within the range of the rest |
| Selftest.PassMeansFaster | src/smc/selftest.rs:213-238 | a passing fan has an automatic reading at least 500 RPM above a forced-minimum reading |
| Selftest.VerdictIff | src/smc/selftest.rs:213-238 | a fan passes exactly if it is complete, free of mismatches and its medians are 500 apart or more; inconclusive exactly if less; failed otherwise; the report carries both medians and their difference |
| Selftest.IterationDelta | src/smc/selftest.rs:189-206 | the difference of an iteration is at least that between any bound below its automatic readings and any bound above its forced ones |
| Selftest.HalfFailed | src/smc/selftest.rs:156-185 | with exactly half the readings failed, twice the median lies between two that did not |
| Selftest.ReliableIff | src/smc/selftest.rs:175-238 | a pass is always borne out by two readings that did not fail, 500 RPM apart, if and only if the failures of the two kinds are both under, both at or both over half |
| Selftest.OverallPassIff | src/smc/selftest.rs:116-147 | exactly when the run passes, equal to all fans passing if and where all fans completed; exactly when it fails |
| Selftest.EarlyStopPasses | src/smc/selftest.rs:133-137 | a report on which the branch called impossible is taken |
| WriteSession.Session.BeginDiagnosticUnlock | src/smc/write_session.rs:340-421 | idempotent; 1 is written to Ftst if the slot, or else the SMC, says one byte; Ok exactly if the SMC has no such key, with no record, or accepted the write and read it back as 1, with its record; every error is the one that stopped it; no unlock on error, a fresh heartbeat otherwise |
| WriteSession.Session.CommitSetFan | src/smc/write_session.rs:249-324 | on every outcome: the unlock first, then for a request within 5 % of the minimum a verified write of 1 that is sent if the shared slot, or else the SMC, says one byte, with its one record, and then the heartbeat; a refused request writes no mode and records nothing more |
| WriteSession.CommitOkIff | src/smc/write_session.rs:311-323 | once the unlock is held, such a commit is Ok exactly if the SMC accepted the 1 and answered the read-back with it; and the SMC is asked, unless the slot says another width |
| WriteSession.Session.HoldAndSample | src/smc/selftest.rs:175-185 | five readings of the tachometer one after the other, each asked of the SMC: its value, or 0 if that reading failed |
| WriteSession.Session.Iterate | src/smc/write_session.rs:482-523 | minimum written and verified, sampled, automatic written and verified, sampled: two matching records in that order; on an error the complete first half or nothing, then a write that was attempted and one record that gives its error |
| WriteSession.Session.TestFan | src/smc/write_session.rs:470-531 | all iterations exchange by exchange, with the 2 * iterations records they left; on an error fewer complete iterations and one failed one; only this fan written |
| WriteSession.Session.RunSelftest | src/smc/write_session.rs:452-540 | Ok means fan after fan was tested completely, with exactly the records of those tests, all automatic again; an error, that some fans were and the next one failed, with exactly those records; on any outcome at most one fan forced at every moment |
| Ledger.RanConserves | src/smc/write_session.rs:452-540 | such a run accounts for every fan and iteration, leaves 2 * iterations * fans matches, and files every reading under the only mode the register could hold when the SMC gave it |
| Ledger.SelftestVerdict | src/smc/selftest.rs:116-147 | on a run that came back: no mismatch, a pass if and only if every fan passes, and the totals are iterations and 2 * iterations per fan |
| Ledger.PassMeansReportedFaster | src/smc/selftest.rs:226-238 | a passing fan whose failed readings stand alike in both modes was reported, by the SMC and in those modes, 500 RPM faster by itself than forced to its minimum |
| Ledger.FailedReadingsPass | src/smc/selftest.rs:175-185 | five failed readings at forced minimum and 2300 RPM under automatic pass |
| WriteSession.Session.ReleaseDiagnosticUnlock | src/smc/write_session.rs:550-571 | the watchdog is stopped before the SMC is asked anything; a verified zero to Ftst, sent if the slot, or else the SMC, says one byte, with its one record; no unlock afterwards |
| WriteSession.Session.Teardown | src/smc/write_session.rs:580-630 | the loser does nothing; the winner completes the release list in order, adds the record of the verified release of the unlock if it held one and no other, and closes the connection |
| WriteSession.TeardownIsFinal | src/smc/write_session.rs:580-618 | after a teardown that won, no sequence of further calls says anything to the SMC |
| Release.ForceAuto | src/smc/write_session.rs:592-595 | every fan is attempted and every willing register cleared whatever happened to the others, unless the shared cache slot says that it is not one byte wide |
| Release.ForceRelease | src/smc/signal.rs:212-218 | the same for the whole list, `Ftst` having a slot of its own |
| Release.WillingFanCleared | src/smc/signal.rs:212-217 | a register that would take its zero takes it, whatever the others refuse, if and only if the shared slot ends up without another width; it ends at 0 if and only if that, or it was 0 before |
| Release.WillingFtstCleared | src/smc/signal.rs:218 | `Ftst` takes its zero if and only if its own slot does not say another width; it ends at 0 if and only if that, or it was 0 before |
| Release.WillingFanAcceptedIff | src/smc/signal.rs:212-217 | with fixed descriptions, from what can be known beforehand: exactly if the cached description, or else that of the first fan that has one, is one byte wide |
| Release.WideNeighbourBlocks | src/smc/cache.rs:16-24 | the failing case: a first fan described as four bytes wide leaves a willing second fan without its zero |
| Release.CooperativeRelease | src/smc/signal.rs:212-218 | on an SMC that takes every write a release leaves every fan and Ftst at 0, whoever else writes zeros |
| WriteSession.AnyRun | src/smc/write_session.rs:249-630 | any sequence of session calls writes only 0 or 1, only to mode registers of enumerated fans or Ftst, forgets no record, and adds only records that stand in order for disjoint stretches of the conversation and tell what happened in them; nothing on a closed connection |
| WriteSession.SignalThread.Serve | src/smc/signal.rs:161-192 | ends on the first terminate or interrupt; hangups are noted, nothing is written before |
| WriteSession.SignalThread.TeardownAndExit | src/smc/signal.rs:201-222 | exit 0 after the complete release list if it won, exit 1 with nothing written if it lost |
| WriteSession.PanicHook.Body | src/smc/panic_hook.rs:106-135 | completes the release list once, on its own guard |
| WriteSession.Acquire | src/smc/write_session.rs:108-166 | lock, then three open connections, then enumeration; the other two caches blank; nothing written; one shared flag, down |
| Teardown.InvAlways | src/smc/write_session.rs:580-606 | the protocol's invariant holds in every reachable state of every interleaving |
| Teardown.InvHolds | src/smc/write_session.rs:140-163 | it holds when the session has been acquired |
| Teardown.AtMostOneReleases | src/smc/signal.rs:201-211 | the flag is up exactly when one of main and signal thread runs the list; never both |
| Teardown.RegisterFate | src/smc/signal.rs:212-218 | however a run ends: a register main can no longer force ends marked exactly if it was marked and no arm's write to it succeeded |
| Teardown.Attempted | src/smc/signal.rs:212-218 | a completed list has written every register, in the run or before it |
| Teardown.RegisterClearedIff | src/smc/write_session.rs:592-606 | register by register and whatever happens to the others: every completion of an arm's list, unless its own writes to the register failed, leaves it at 0 if and only if the list has not passed it and left it forced and main can no longer force it |
| Teardown.ListClearsIff | src/smc/write_session.rs:592-606 | the same for all registers together |
| Teardown.HoldEndsClearIff | src/cli/set.rs:137-146 | from any reachable hold: only exit(0), a completed hook or a second panic; the first two, with successful writes, always clear everything if and only if no register below the list's position is forced now |
| Teardown.AbruptClearIff | src/smc/signal.rs:206-210 | exit(1), main's exit after losing the flag, and a nested panic leave a register at 0, over all runs, if and only if it is 0 already and main can no longer force it |
| Refinement.ArmStep | src/smc/signal.rs:212-218 | zeros written to the register a list has reached are one step of the machine, successful exactly if one was accepted |
| Refinement.MainStep | src/smc/write_session.rs:249-531 | so are a commit, an unlock and a return to automatic; a 1 that was sent counts as forced whether or not it was accepted |
| Refinement.ListIsRun | src/smc/write_session.rs:592-606 | what the release methods do to the SMC, entry after entry, is a run of the machine, and its marks are what the registers may hold |
| Refinement.ReleaseEndsRun | src/smc/signal.rs:212-221 | a completed release is a run to that arm's exit |
| Teardown.SignalCutsMainShort | src/smc/signal.rs:206-210 | a run that ends in exit(1) with a fan still forced |
| Teardown.MainCutsSignalShort | src/smc/write_session.rs:586-590 | a run in which main loses the flag and exits first, a fan still forced |
| Teardown.SecondPanicAborts | src/smc/panic_hook.rs:106-114 | a run from the hold loop in which a second panic aborts, a fan still forced |
| Teardown.HookOverlapsSignal | src/smc/panic_hook.rs:106-135 | a run in which hook and signal thread release at the same time |
| Teardown.CommitOutlivesRelease | src/cli/run.rs:417-432 | from every start and for every fan, a run in which commits during a signal release leave it forced after exit(0) with all writes accepted |
| Teardown.FailedUnlockOneZero | src/smc/write_session.rs:340-421 | an unlock that failed after forcing Ftst gets one zero from main's release; if that fails, Ftst stays forced |
| Ulid.NewId | src/correlation.rs:69-103 | the packing loops produce the base-32 digits of time and entropy |
| Ulid.StreamedWhole | src/correlation.rs:82-103 | the 64-bit shift buffer loses no unread bit, nothing is left over, the flush loop never runs |
| Ulid.AlphabetIsCrockfords | src/correlation.rs:22 | the alphabet |
| Ulid.IdDecodes | src/correlation.rs:69-103 | a decoder recovers the entropy always and the time below 2^50 ms |
| Ulid.IdEncodes | src/correlation.rs:69-103 | every string of 26 letters of the alphabet is the identifier of what it decodes to |
| Ulid.TimeWraps | src/correlation.rs:71-80 | times that differ by a multiple of 2^50 ms give the same time field |
| Ulid.SortsByTime | src/correlation.rs:69-103 | text order is order by time and then by big-endian entropy |
| Ulid.NotMonotonicWithinMs | src/correlation.rs:26-27 | two identifiers of one millisecond in the wrong order |
| ForceRpm.Execute | src/cli/force.rs:101-216 | nothing written when the envelope is unusable; the ceiling as read, or 4233 above the floor if that reading failed; the whole list of attempted writes, from the first mode reset over each path and what follows it to the last reset, each asked of the SMC unless the cache, which knows only what it was told, says another width; baseline and every speed found after a path are what the SMC said, or NaN if it said nothing |
| ForceRpm.TryPath | src/cli/force.rs:218-238 | what each path writes; a second write only if the first was accepted; then one reading of the speed |
| ForceRpm.HoldAndTeardown | src/cli/force.rs:247-282 | the floor is put back exactly when asked or when the last path won; then the mode; nothing else |
| ForceRpm.Duty | src/cli/force.rs:147 | the fraction d in [0, 1] with d * (max - min) = target - min, or NaN exactly when the envelope is a point |
| ForceRpm.StopsAtFirst | src/cli/force.rs:240-245 | the run stops at the first path that was accepted and moved the fan by 500 RPM, and wins if and only if there is one |
| ForceRpm.RaisesAreUndone | src/cli/force.rs:182-209 | every attempted raise of the floor is followed by an attempt to take it back |
| ForceRpm.WhatIsLeft | src/cli/force.rs:207-216 | each register by itself, if its last write was accepted: the mode is 0; the floor is the four original bytes in reverse order after the last path, and untouched without it |
| ForceRpm.FloorRestoredIff | src/cli/force.rs:207-209 | whatever happened to the mode, the floor is restored if and only if the last path was not needed or its bytes are a palindrome |
| Parse.ValidateStrictInteger | src/cli/parse.rs:99-116 | accepts exactly the strings of digits, and blames the first other byte |
| Parse.ValidateStrictFloat | src/cli/parse.rs:119-154 | accepts exactly digits or digits.digits, and the empty string; a dot is blamed if and only if there is a leading one, a second one before any foreign byte, or a trailing one without any; otherwise the first foreign byte is |
| Parse.ParseFanIndex | src/cli/parse.rs:66-73 | accepts exactly non-empty strings of digits with value at most 255 |
| Parse.FanIndexRoundTrip | src/cli/parse.rs:66-73 | undoes decimal printing of every u8, with any number of leading zeros |
| Parse.DoubleZeroAccepted | src/cli/parse.rs:56-73 | `00` is accepted as fan 0 |
| Parse.ParseRpm | src/cli/parse.rs:83-96 | accepts exactly strict floats up to 50000; a larger one is out of range, or not finite if it rounds to infinity |
| Parse.FloatMeans | src/cli/parse.rs:83-96 | the value of a decimal: ten times it for each digit behind the dot is the number without the dot |
| Validate.Validate | src/config/validate.rs:13-59 | exactly the violations there are, and none if and only if the configuration is sound |
| Validate.SoundConfigIff | src/config/validate.rs:13-130 | a configuration of which nothing is to be reported is exactly a sound one |
| Validate.ValidateFan | src/config/validate.rs:61-130 | adds exactly the violations of the section |
| Validate.SoundFanIff | src/config/validate.rs:61-130 | there are none exactly if the section is sound |
| Validate.ReportedWhen | src/config/validate.rs:61-130 | in terms of bytes and numbers: which sensor names, breakpoints and margins of a section are reported |
| Validate.AcceptedCurvesValid | src/config/validate.rs:84-120 | curves of an accepted configuration satisfy what the curve theorems assume |
| Validate.NaNMarginAccepted | src/config/validate.rs:122-129 | a NaN margin is accepted |
| Validate.AllReportedIff | src/config/validate.rs:61-130 | a section reports everything that is wrong with it if and only if its curve has two breakpoints or more, or neither the margin nor its breakpoint is wrong; it never reports anything else |
| Validate.ShortCurveHides | src/config/validate.rs:84-91 | a bad margin and a breakpoint that is no temperature, neither reported behind a curve that is too short |
| SliceWriter.Writer.WriteStr | src/smc/panic_hook.rs:175-193 | the buffer holds the longest prefix of the message that fits |

## Left out

- Rounding of `f32` arithmetic, and the loss of precision when an RPM above 2^24 becomes an `f32`: finite floats are exact reals.
- Parse.ParseRpm: decimals are exact, so a value just above the ceiling that rounds to it is rejected here.
- ForceRpm.Execute: how a number is laid out in bytes on a raw write is an arbitrary function, except that the floor's own bytes come back reversed; the hold time is not modelled because nothing is written during it.
- WriteSession.Acquire: `flock`, file system checks and opening the user client are two inputs; signal masks are not modelled.
- SmcConnection.Connection.Close: the port number, its guard and the kernel call are not modelled.
- WriteSession.Session.Teardown: draining the ring to standard error and detaching the signal thread are not modelled.
- Registers.ZeroSticks: a session's registers are those its history speaks of; interference by other programs shows only as different replies.
- Enumerate.EnumerateFans: an index that overflows one byte aborts the process (release builds check overflow); here it is an error value.
- Teardown.HoldEndsClearIff: registers are marked as long as they may be forced, so a write that reports failure is never relied on; the 500 ms budget of a release is not modelled.
- Comfort.EmissionsBounded: stated from a state whose deadband offset is zero, as after construction or a reinit; `Comfort.AntiChatter` covers every other start.
- Safety.HoldsMax: the safe floor is constant over a run; the source rereads the environment on every clamp.
- Watchdog.FiresInTime: the bound on the interval between wake-ups is an assumption; a sleep of 250 ms may be longer.
- Selftest.OverallPassIff: wall-clock duration of the run is not modelled.
- The fields `active`, `final_target`, `consecutive_write_errors` and `fan_index` of the fan state, which no decision reads.
- The run loop itself (sleeping, wake detection, reload), configuration loading and file permissions, the `keys` and `probe` commands, output and logging, error texts and exit codes, `launchd`, EDR detection, IPC.
- `read_key_at_index`, `read_key_info_full` and `probe_write_ftst_zero`, used by the diagnostic commands only.
