/** The race to release the fans: the main thread (write_session.rs, cli/set.rs), the signal thread
    (signal.rs), the watchdog (unlock.rs) and the panic hook (panic_hook.rs), one atomic step at a
    time. Registers 0 to n-1 are the mode registers, register n is `Ftst`; each is marked as long
    as it may hold something other than 0. */
module Teardown {
  datatype Thread = MainThread | SignalThread | WatchdogThread

  // A release list is as far as the number of writes it has done, whether or not they succeeded.
  datatype Main = Working | Holding | Releasing(done: nat) | Lost
  datatype Signal = Waiting | Serving(done: nat)
  datatype Hook = Quiet | Hooking(on: Thread, done: nat)

  datatype Exit =
    | Running
    | MainExit // after its own release list
    | MainExitLost // teardown returned at once: someone else had the flag
    | SignalExit0 // after the signal thread's release list
    | SignalExit1 // `_exit(1)`: someone else had the flag
    | HookAbort // after the hook's release list
    | NestedAbort // a second panic while the hook runs

  datatype State = State(n: nat, regs: seq<bool>, unlocked: bool, flag: bool, pending: bool,
                         main: Main, signal: Signal, hook: Hook, exit: Exit)

  // `took`: the forcing write may have had an effect; `ok`: the operation reported success.
  datatype Action =
    | MainUnlock(took: bool, ok: bool)
    | MainForce(fan: nat, took: bool)
    | MainAuto(fan: nat, ok: bool)
    | MainHold
    | MainDrop
    | MainWrite(ok: bool)
    | MainLeave
    | SignalArrives
    | WatchdogFires
    | SignalTake
    | SignalWrite(ok: bool)
    | SignalLeave
    | Panic(on: Thread)
    | HookWrite(ok: bool)
    | HookLeave

  ghost predicate Initial(s: State) {
    && |s.regs| == s.n + 1 && !s.unlocked && !s.flag
    && s.main == Working && s.signal == Waiting && s.hook == Quiet && s.exit == Running
  }

  // The register the next write of a list goes to. Main writes `Ftst` twice when it holds the unlock.
  function Target(s: State, done: nat): nat {
    if done < s.n then done else s.n
  }

  function MainLength(s: State): nat { s.n + if s.unlocked then 2 else 1 }

  predicate MainRuns(s: State) { !(s.hook.Hooking? && s.hook.on == MainThread) }

  predicate SignalRuns(s: State) { !(s.hook.Hooking? && s.hook.on == SignalThread) }

  predicate Enabled(s: State, a: Action) {
    && s.exit == Running && |s.regs| == s.n + 1
    && match a
       case MainUnlock(_, _) => MainRuns(s) && s.main == Working && !s.unlocked
       case MainForce(fan, _) => MainRuns(s) && s.main == Working && fan < s.n
       case MainAuto(fan, _) => MainRuns(s) && s.main == Working && fan < s.n
       case MainHold => MainRuns(s) && s.main == Working
       case MainDrop => MainRuns(s) && s.main == Working
       case MainWrite(_) => MainRuns(s) && s.main.Releasing? && s.main.done < MainLength(s)
       case MainLeave => MainRuns(s) && (s.main == Lost || (s.main.Releasing? && s.main.done == MainLength(s)))
       case SignalArrives => true
       case WatchdogFires => s.unlocked && !s.flag
       case SignalTake => SignalRuns(s) && s.signal == Waiting && s.pending
       case SignalWrite(_) => SignalRuns(s) && s.signal.Serving? && s.signal.done < s.n + 1
       case SignalLeave => SignalRuns(s) && s.signal.Serving? && s.signal.done == s.n + 1
       case Panic(_) => true
       case HookWrite(_) => s.hook.Hooking? && s.hook.done < s.n + 1
       case HookLeave => s.hook.Hooking? && s.hook.done == s.n + 1
  }

  function Forced(s: State, reg: nat, took: bool): seq<bool>
    requires reg < |s.regs|
  {
    s.regs[reg := s.regs[reg] || took]
  }

  // After a failed write the register may still be forced.
  function Zeroed(s: State, reg: nat, ok: bool): seq<bool>
    requires reg < |s.regs|
  {
    s.regs[reg := s.regs[reg] && !ok]
  }

  function Apply(s: State, a: Action): State
    requires Enabled(s, a)
  {
    match a
    case MainUnlock(took, ok) => s.(regs := Forced(s, s.n, took), unlocked := ok)
    case MainForce(fan, took) => s.(regs := Forced(s, fan, took))
    case MainAuto(fan, ok) => s.(regs := Zeroed(s, fan, ok))
    case MainHold => s.(main := Holding)
    case MainDrop => if s.flag then s.(main := Lost) else s.(flag := true, main := Releasing(0))
    case MainWrite(ok) =>
      s.(regs := Zeroed(s, Target(s, s.main.done), ok), main := Releasing(s.main.done + 1))
    case MainLeave => s.(exit := if s.main == Lost then MainExitLost else MainExit)
    case SignalArrives => s.(pending := true)
    case WatchdogFires => s.(pending := true)
    case SignalTake =>
      if s.flag then s.(pending := false, exit := SignalExit1)
      else s.(pending := false, flag := true, signal := Serving(0))
    case SignalWrite(ok) =>
      s.(regs := Zeroed(s, Target(s, s.signal.done), ok), signal := Serving(s.signal.done + 1))
    case SignalLeave => s.(exit := SignalExit0)
    case Panic(on) => if s.hook == Quiet then s.(hook := Hooking(on, 0)) else s.(exit := NestedAbort)
    case HookWrite(ok) =>
      s.(regs := Zeroed(s, Target(s, s.hook.done), ok), hook := Hooking(s.hook.on, s.hook.done + 1))
    case HookLeave => s.(exit := HookAbort)
  }

  ghost predicate Reaches(s: State, run: seq<Action>, t: State)
    decreases |run|
  {
    if run == [] then t == s else Enabled(s, run[0]) && Reaches(Apply(s, run[0]), run[1..], t)
  }

  // ---- the invariant ----------------------------------------------------------------------

  // One flag, one winner.
  ghost predicate OneWinner(s: State) {
    && (s.flag <==> s.main.Releasing? || s.signal.Serving?)
    && !(s.main.Releasing? && s.signal.Serving?)
  }

  ghost predicate Flagged(s: State) {
    && |s.regs| == s.n + 1
    && OneWinner(s)
    && (s.main == Lost ==> s.signal.Serving?)
  }

  ghost predicate Ended(s: State) {
    match s.exit
    case Running => true
    case MainExit => s.main.Releasing? && s.main.done == MainLength(s)
    case MainExitLost => s.main == Lost
    case SignalExit0 => s.signal.Serving? && s.signal.done == s.n + 1
    case SignalExit1 => s.main.Releasing?
    case HookAbort => s.hook.Hooking? && s.hook.done == s.n + 1
    case NestedAbort => s.hook.Hooking?
  }

  ghost predicate Inv(s: State) { Flagged(s) && Ended(s) && forall arm :: Done(s, arm) <= Length(s, arm) }

  lemma InvHolds(s: State)
    requires Initial(s)
    ensures Inv(s)
  {
  }

  lemma FlaggedKept(s: State, a: Action)
    requires Flagged(s) && Enabled(s, a)
    ensures Flagged(Apply(s, a))
  {
  }

  lemma EndedKept(s: State, a: Action)
    requires Flagged(s) && Enabled(s, a)
    ensures Ended(Apply(s, a))
  {
  }

  lemma InvKept(s: State, a: Action)
    requires Inv(s) && Enabled(s, a)
    ensures Inv(Apply(s, a))
  {
    hide Enabled, Apply;
    FlaggedKept(s, a);
    EndedKept(s, a);
    forall arm ensures Done(Apply(s, a), arm) <= Length(Apply(s, a), arm) {
      StepDone(s, a, arm);
      assert Done(s, arm) <= Length(s, arm);
    }
  }

  lemma {:induction false} InvAlways(s: State, run: seq<Action>, t: State)
    requires Inv(s) && Reaches(s, run, t)
    ensures Inv(t)
    decreases |run|
  {
    hide Enabled, Apply, Inv;
    if run != [] {
      InvKept(s, run[0]);
      InvAlways(Apply(s, run[0]), run[1..], t);
    }
  }

  // In every interleaving at most one of main and the signal thread ever runs the release list,
  // and the flag says that one does.
  lemma AtMostOneReleases(s: State, run: seq<Action>, t: State)
    requires Initial(s) && Reaches(s, run, t)
    ensures OneWinner(t)
    ensures t.exit == SignalExit1 ==> t.main.Releasing?
    ensures t.exit == MainExitLost ==> t.signal.Serving?
  {
    InvHolds(s);
    InvAlways(s, run, t);
  }

  // ---- who can still write what -----------------------------------------------------------

  datatype Arm = ByMain | BySignal | ByHook

  predicate Begun(s: State, arm: Arm) {
    match arm
    case ByMain => s.main.Releasing?
    case BySignal => s.signal.Serving?
    case ByHook => s.hook.Hooking?
  }

  function Done(s: State, arm: Arm): nat {
    match arm
    case ByMain => if s.main.Releasing? then s.main.done else 0
    case BySignal => if s.signal.Serving? then s.signal.done else 0
    case ByHook => if s.hook.Hooking? then s.hook.done else 0
  }

  function Length(s: State, arm: Arm): nat { if arm == ByMain then MainLength(s) else s.n + 1 }

  predicate Runs(s: State, arm: Arm) {
    match arm
    case ByMain => MainRuns(s)
    case BySignal => SignalRuns(s)
    case ByHook => true
  }

  // How the process ends when the arm completes its list.
  function Ending(arm: Arm): Exit {
    match arm
    case ByMain => MainExit
    case BySignal => SignalExit0
    case ByHook => HookAbort
  }

  function Writing(arm: Arm, ok: bool): Action {
    match arm
    case ByMain => MainWrite(ok)
    case BySignal => SignalWrite(ok)
    case ByHook => HookWrite(ok)
  }

  function Leaving(arm: Arm): Action {
    match arm
    case ByMain => MainLeave
    case BySignal => SignalLeave
    case ByHook => HookLeave
  }

  // The arm's list has passed `r` and will not come back to it.
  predicate Behind(s: State, arm: Arm, r: nat) {
    Begun(s, arm) && r <= s.n && r < Done(s, arm) && (r < s.n || Done(s, arm) >= Length(s, arm))
  }

  // Main can still force `r`: commits never look at the flag.
  predicate MayForce(s: State, r: nat) {
    s.main == Working && MainRuns(s) && (r < s.n || (r == s.n && !s.unlocked))
  }

  // `a` is the arm's write to `r`, and this is how it went.
  predicate ArmWrites(s: State, a: Action, arm: Arm, r: nat, ok: bool) {
    Begun(s, arm) && a == Writing(arm, ok) && r == Target(s, Done(s, arm))
  }

  // Somewhere in the run.
  ghost predicate Wrote(s: State, run: seq<Action>, arm: Arm, r: nat, ok: bool)
    decreases |run|
  {
    && run != [] && Enabled(s, run[0])
    && (ArmWrites(s, run[0], arm, r, ok) || Wrote(Apply(s, run[0]), run[1..], arm, r, ok))
  }

  // Some arm's write to `r` succeeded.
  ghost predicate Wiped(s: State, run: seq<Action>, r: nat) {
    Wrote(s, run, ByMain, r, true) || Wrote(s, run, BySignal, r, true) || Wrote(s, run, ByHook, r, true)
  }

  // The arm's writes to `r` did not all fail, if there were any.
  ghost predicate Spared(s: State, run: seq<Action>, arm: Arm, r: nat) {
    Wrote(s, run, arm, r, true) || !Wrote(s, run, arm, r, false)
  }

  // ---- one step ---------------------------------------------------------------------------

  // A register main cannot force changes in one way only: an arm's successful write to it.
  lemma StepFate(s: State, a: Action, r: nat)
    requires Inv(s) && Enabled(s, a) && r <= s.n && !MayForce(s, r)
    ensures var t := Apply(s, a);
            && t.n == s.n && !MayForce(t, r)
            && (t.regs[r] <==>
                  s.regs[r] && !ArmWrites(s, a, ByMain, r, true) && !ArmWrites(s, a, BySignal, r, true)
                  && !ArmWrites(s, a, ByHook, r, true))
  {
  }

  // A write by an arm clears the register, and if it is main's, main forces nothing any more.
  lemma StepClears(s: State, a: Action, arm: Arm, r: nat)
    requires Inv(s) && Enabled(s, a) && r <= s.n && ArmWrites(s, a, arm, r, true)
    ensures var t := Apply(s, a); !t.regs[r] && t.n == s.n && (arm == ByMain || !MayForce(s, r) ==> !MayForce(t, r))
  {
  }

  // An arm's list moves on by its own writes and by nothing else.
  ghost predicate MovesOn(s: State, a: Action, t: State, arm: Arm) {
    var own := a == Writing(arm, true) || a == Writing(arm, false);
    && t.n == s.n
    && (Begun(s, arm) ==> Begun(t, arm) && Length(t, arm) == Length(s, arm))
    && Done(t, arm) == (if own then Done(s, arm) + 1 else Done(s, arm))
    && (own ==> Begun(s, arm) && Done(s, arm) < Length(s, arm))
  }

  lemma MainMovesOn(s: State, a: Action)
    requires Enabled(s, a)
    ensures MovesOn(s, a, Apply(s, a), ByMain)
  {
  }

  lemma SignalMovesOn(s: State, a: Action)
    requires Enabled(s, a)
    ensures MovesOn(s, a, Apply(s, a), BySignal)
  {
  }

  lemma HookMovesOn(s: State, a: Action)
    requires Enabled(s, a)
    ensures MovesOn(s, a, Apply(s, a), ByHook)
  {
  }

  lemma StepDone(s: State, a: Action, arm: Arm)
    requires Enabled(s, a)
    ensures MovesOn(s, a, Apply(s, a), arm)
  {
    hide Enabled, Apply, MovesOn;
    match arm
    case ByMain => MainMovesOn(s, a);
    case BySignal => SignalMovesOn(s, a);
    case ByHook => HookMovesOn(s, a);
  }

  lemma StepAhead(s: State, a: Action, arm: Arm, r: nat)
    requires Enabled(s, a) && r <= s.n && !Behind(s, arm, r) && Done(s, arm) <= Length(s, arm)
    requires !ArmWrites(s, a, arm, r, true) && !ArmWrites(s, a, arm, r, false)
    ensures !Behind(Apply(s, a), arm, r) && Apply(s, a).n == s.n && Done(Apply(s, a), arm) <= Length(Apply(s, a), arm)
  {
    hide Enabled, Apply;
    StepDone(s, a, arm);
  }

  // ---- whole runs -------------------------------------------------------------------------

  // What every run from a state in which main cannot force `r` leaves there, however it ends.
  lemma {:induction false} RegisterFate(s: State, run: seq<Action>, t: State, r: nat)
    requires Inv(s) && Reaches(s, run, t) && r <= s.n && !MayForce(s, r)
    ensures t.n == s.n && |t.regs| == t.n + 1
    ensures t.regs[r] <==> s.regs[r] && !Wiped(s, run, r)
    decreases |run|
  {
    hide Enabled, Apply, MayForce, ArmWrites;
    if run != [] {
      StepFate(s, run[0], r);
      InvKept(s, run[0]);
      RegisterFate(Apply(s, run[0]), run[1..], t, r);
    }
  }

  // One successful write of the arm to `r` is enough, whatever its other writes did.
  lemma {:induction false} WriteClears(s: State, run: seq<Action>, t: State, arm: Arm, r: nat)
    requires Inv(s) && Reaches(s, run, t) && r <= s.n && Wrote(s, run, arm, r, true)
    requires arm == ByMain || !MayForce(s, r)
    ensures t.n == s.n && |t.regs| == t.n + 1 && !t.regs[r]
    decreases |run|
  {
    hide Enabled, Apply, MayForce, ArmWrites;
    InvKept(s, run[0]);
    if ArmWrites(s, run[0], arm, r, true) {
      StepClears(s, run[0], arm, r);
      RegisterFate(Apply(s, run[0]), run[1..], t, r);
    } else {
      StepKeepsCount(s, run[0]);
      if arm != ByMain {
        StepFate(s, run[0], r);
      }
      WriteClears(Apply(s, run[0]), run[1..], t, arm, r);
    }
  }

  lemma StepKeepsCount(s: State, a: Action)
    requires Enabled(s, a)
    ensures Apply(s, a).n == s.n
  {
  }

  // An arm that completes its list has passed every register: each was written in the run or before it.
  lemma {:induction false} Attempted(s: State, run: seq<Action>, t: State, arm: Arm, r: nat)
    requires Inv(s) && Reaches(s, run, t) && r <= s.n && t.exit == Ending(arm)
    ensures Behind(s, arm, r) || Wrote(s, run, arm, r, true) || Wrote(s, run, arm, r, false)
    decreases |run|
  {
    hide Enabled, Apply, ArmWrites;
    if run != [] && !Behind(s, arm, r)
       && !ArmWrites(s, run[0], arm, r, true) && !ArmWrites(s, run[0], arm, r, false) {
      StepAhead(s, run[0], arm, r);
      InvKept(s, run[0]);
      Attempted(Apply(s, run[0]), run[1..], t, arm, r);
    }
  }

  // ---- runs that exist --------------------------------------------------------------------

  lemma {:induction false} RunsJoin(s: State, first: seq<Action>, t: State, second: seq<Action>, u: State)
    requires Reaches(s, first, t) && Reaches(t, second, u)
    ensures Reaches(s, first + second, u)
    decreases |first|
  {
    hide Enabled, Apply;
    if first == [] {
      assert first + second == second;
    } else {
      RunsJoin(Apply(s, first[0]), first[1..], t, second, u);
      assert (first + second)[1..] == first[1..] + second;
    }
  }

  // No write of the arm fails in the run.
  predicate Smooth(run: seq<Action>, arm: Arm) {
    Writing(arm, false) !in run
  }

  lemma {:induction false} SmoothSpares(s: State, run: seq<Action>, arm: Arm, r: nat)
    requires Smooth(run, arm)
    ensures Spared(s, run, arm, r)
    decreases |run|
  {
    hide Enabled, Apply;
    if run != [] && Enabled(s, run[0]) {
      assert run[0] in run && Smooth(run[1..], arm);
      SmoothSpares(Apply(s, run[0]), run[1..], arm, r);
    }
  }

  lemma Step(s: State, a: Action, run: seq<Action>, t: State)
    requires Enabled(s, a) && Reaches(Apply(s, a), run, t)
    ensures Reaches(s, [a] + run, t)
  {
    hide Enabled, Apply;
    assert ([a] + run)[1..] == run;
  }

  lemma One(s: State, a: Action, t: State)
    requires Enabled(s, a) && t == Apply(s, a)
    ensures Reaches(s, [a], t)
  {
    hide Enabled, Apply;
    assert Reaches(t, [], t);
    Step(s, a, [], t);
    assert [a] + [] == [a];
  }

  lemma Two(s: State, a: Action, b: Action, t: State)
    requires Enabled(s, a) && Enabled(Apply(s, a), b) && t == Apply(Apply(s, a), b)
    ensures Reaches(s, [a, b], t)
  {
    hide Enabled, Apply;
    One(Apply(s, a), b, t);
    Step(s, a, [b], t);
    assert [a] + [b] == [a, b];
  }

  // The arm is under way, undisturbed, and what it has passed is as it was.
  ghost predicate Onward(s: State, t: State, arm: Arm) {
    && t.exit == Running && Begun(t, arm) && Runs(t, arm) && t.n == s.n && |t.regs| == |s.regs| == s.n + 1
    && Length(t, arm) == Length(s, arm)
    && (arm != ByMain ==> forall r: nat :: MayForce(s, r) ==> MayForce(t, r))
    && forall r: nat :: Behind(s, arm, r) ==> Behind(t, arm, r) && t.regs[r] == s.regs[r]
  }

  lemma WriteGoesOn(s: State, arm: Arm)
    requires Inv(s) && s.exit == Running && Begun(s, arm) && Runs(s, arm) && Done(s, arm) < Length(s, arm)
    ensures Enabled(s, Writing(arm, true))
    ensures var t := Apply(s, Writing(arm, true)); Onward(s, t, arm) && Done(t, arm) == Done(s, arm) + 1
  {
  }

  // The arm does all its writes.
  lemma {:induction false} Sweep(s: State, arm: Arm) returns (run: seq<Action>, t: State)
    requires Inv(s) && s.exit == Running && Begun(s, arm) && Runs(s, arm)
    ensures Reaches(s, run, t) && Smooth(run, arm) && Inv(t) && Onward(s, t, arm) && Done(t, arm) == Length(t, arm)
    decreases Length(s, arm) - Done(s, arm)
  {
    hide Enabled, Apply, MayForce, Ended;
    if Done(s, arm) == Length(s, arm) {
      run, t := [], s;
    } else {
      var a := Writing(arm, true);
      WriteGoesOn(s, arm);
      InvKept(s, a);
      assert Done(Apply(s, a), arm) <= Length(Apply(s, a), arm);
      var rest: seq<Action>;
      rest, t := Sweep(Apply(s, a), arm);
      Step(s, a, rest, t);
      run := [a] + rest;
    }
  }

  // And then leaves.
  lemma Finish(s: State, arm: Arm) returns (run: seq<Action>, t: State)
    requires Inv(s) && s.exit == Running && Begun(s, arm) && Runs(s, arm)
    ensures Reaches(s, run, t) && t.exit == Ending(arm) && Smooth(run, arm) && t.n == s.n && |t.regs| == |s.regs|
    ensures forall r: nat :: Behind(s, arm, r) ==> t.regs[r] == s.regs[r]
  {
    var sweep, swept := Sweep(s, arm);
    t := LeaveNow(swept, arm);
    RunsJoin(s, sweep, swept, [Leaving(arm)], t);
    run := sweep + [Leaving(arm)];
  }

  lemma LeaveNow(s: State, arm: Arm) returns (t: State)
    requires Inv(s) && s.exit == Running && Begun(s, arm) && Runs(s, arm) && Done(s, arm) == Length(s, arm)
    ensures Reaches(s, [Leaving(arm)], t) && t == s.(exit := Ending(arm))
  {
    t := s.(exit := Ending(arm));
    One(s, Leaving(arm), t);
  }

  // The signal thread or the hook starts while main is at work.
  lemma Begin(s: State, arm: Arm, r: nat) returns (run: seq<Action>, t: State)
    requires Inv(s) && s.exit == Running && Runs(s, arm) && arm != ByMain && MayForce(s, r)
    ensures Reaches(s, run, t) && Smooth(run, arm) && Inv(t) && t.exit == Running && t.n == s.n
    ensures Begun(t, arm) && Runs(t, arm) && MayForce(t, r)
  {
    if Begun(s, arm) {
      run, t := [], s;
    } else if arm == BySignal {
      run, t := [SignalArrives, SignalTake], s.(flag := true, signal := Serving(0), pending := false);
      Two(s, SignalArrives, SignalTake, t);
    } else {
      run, t := [Panic(WatchdogThread)], s.(hook := Hooking(WatchdogThread, 0));
      One(s, Panic(WatchdogThread), t);
    }
    InvAlways(s, run, t);
  }

  // Main forces a register it may force.
  lemma ForceNow(s: State, arm: Arm, r: nat) returns (a: Action, t: State)
    requires Inv(s) && s.exit == Running && arm != ByMain && Begun(s, arm) && Runs(s, arm) && MayForce(s, r)
    requires Done(s, arm) == Length(s, arm)
    ensures Reaches(s, [a], t) && Smooth([a], arm) && Inv(t) && t.exit == Running && t.n == s.n
    ensures Begun(t, arm) && Runs(t, arm) && Behind(t, arm, r) && t.regs[r]
  {
    a := if r < s.n then MainForce(r, true) else MainUnlock(true, true);
    t := Apply(s, a);
    One(s, a, t);
    InvAlways(s, [a], t);
  }

  // The arm completes, without a failed write, and leaves `r` forced.
  lemma LeftForced(s: State, arm: Arm, r: nat) returns (run: seq<Action>, t: State)
    requires Inv(s) && s.exit == Running && Runs(s, arm) && r <= s.n
    requires (Behind(s, arm, r) && s.regs[r]) || (arm != ByMain && MayForce(s, r))
    ensures Reaches(s, run, t) && t.exit == Ending(arm) && Smooth(run, arm) && r < |t.regs| && t.regs[r]
  {
    if Behind(s, arm, r) && s.regs[r] {
      run, t := Finish(s, arm);
    } else {
      var begin, begun := Begin(s, arm, r);
      var sweep, swept := Sweep(begun, arm);
      var force, forced := ForceNow(swept, arm, r);
      var finish, end := Finish(forced, arm);
      RunsJoin(s, begin, begun, sweep, swept);
      RunsJoin(s, begin + sweep, swept, [force], forced);
      RunsJoin(s, begin + sweep + [force], forced, finish, end);
      run, t := begin + sweep + [force] + finish, end;
    }
  }

  // ---- how completed lists end ------------------------------------------------------------

  predicate ClearIn(t: State, r: nat) { r < |t.regs| && !t.regs[r] }

  // The list has not passed `r` and left it forced, and main can no longer force it behind the list's back.
  predicate Secure(s: State, arm: Arm, r: nat) {
    (Behind(s, arm, r) ==> ClearIn(s, r)) && (arm == ByMain || !MayForce(s, r))
  }

  lemma CompletedClears(s: State, run: seq<Action>, t: State, arm: Arm, r: nat)
    requires Inv(s) && Reaches(s, run, t) && r <= s.n && t.exit == Ending(arm) && Spared(s, run, arm, r)
    requires Secure(s, arm, r)
    ensures ClearIn(t, r) && t.n == s.n
  {
    hide Enabled, Apply, Reaches, Wrote;
    if Wrote(s, run, arm, r, true) {
      WriteClears(s, run, t, arm, r);
    } else {
      Attempted(s, run, t, arm, r);
      RegisterFate(s, run, t, r);
    }
  }

  // Register by register and whatever happens to the others: every time the arm ends the process by
  // completing its list, `r` is 0 unless the arm's own writes to it failed, exactly if it is secure.
  lemma RegisterClearedIff(s: State, arm: Arm, r: nat)
    requires Inv(s) && s.exit == Running && Runs(s, arm) && r <= s.n
    ensures (forall run, t :: Reaches(s, run, t) && t.exit == Ending(arm) && Spared(s, run, arm, r) ==> ClearIn(t, r))
            <==> Secure(s, arm, r)
  {
    hide Enabled, Apply, Behind, MayForce;
    if Secure(s, arm, r) {
      forall run, t | Reaches(s, run, t) && t.exit == Ending(arm) && Spared(s, run, arm, r) ensures ClearIn(t, r) {
        CompletedClears(s, run, t, arm, r);
      }
    } else {
      var run, t := LeftForced(s, arm, r);
      SmoothSpares(s, run, arm, r);
      assert !ClearIn(t, r);
    }
  }

  ghost predicate AllClear(s: State) {
    forall r: nat :: r <= s.n ==> ClearIn(s, r)
  }

  ghost predicate AllSpared(s: State, run: seq<Action>, arm: Arm) {
    forall r: nat :: r <= s.n ==> Spared(s, run, arm, r)
  }

  // All registers together.
  lemma ListClearsIff(s: State, arm: Arm)
    requires Inv(s) && s.exit == Running && Runs(s, arm)
    ensures (forall run, t :: Reaches(s, run, t) && t.exit == Ending(arm) && AllSpared(s, run, arm) ==> AllClear(t))
            <==> forall r: nat :: r <= s.n ==> Secure(s, arm, r)
  {
    hide Enabled, Apply, Behind, MayForce;
    if forall r: nat :: r <= s.n ==> Secure(s, arm, r) {
      forall run, t | Reaches(s, run, t) && t.exit == Ending(arm) && AllSpared(s, run, arm) ensures AllClear(t) {
        CompletedClears(s, run, t, arm, 0);
        forall r: nat | r <= t.n ensures ClearIn(t, r) {
          CompletedClears(s, run, t, arm, r);
        }
      }
    } else {
      var r: nat :| r <= s.n && !Secure(s, arm, r);
      var run, t := LeftForced(s, arm, r);
      forall q: nat | q <= s.n ensures Spared(s, run, arm, q) {
        SmoothSpares(s, run, arm, q);
      }
      LengthKept(s, run, t);
      assert AllSpared(s, run, arm) && !ClearIn(t, r);
    }
  }

  lemma {:induction false} LengthKept(s: State, run: seq<Action>, t: State)
    requires Reaches(s, run, t)
    ensures t.n == s.n
    decreases |run|
  {
    hide Enabled, Apply;
    if run != [] {
      StepKeepsCount(s, run[0]);
      LengthKept(Apply(s, run[0]), run[1..], t);
    }
  }

  // ---- the hold phase of `fand set` -------------------------------------------------------

  lemma HoldStep(s: State, a: Action)
    requires Enabled(s, a) && s.main == Holding
    ensures Apply(s, a).main == Holding
  {
  }

  lemma {:induction false} HoldKept(s: State, run: seq<Action>, t: State)
    requires s.main == Holding && Reaches(s, run, t)
    ensures t.main == Holding
    decreases |run|
  {
    hide Enabled, Apply;
    if run != [] {
      HoldStep(s, run[0]);
      HoldKept(Apply(s, run[0]), run[1..], t);
    }
  }

  // Once main is in the hold loop the process ends only by the signal thread's exit(0), by a completed
  // panic hook or by a second panic. In the first two cases every fan and `Ftst` are back to 0, if that
  // arm's writes succeed, exactly if its list has passed none that is forced now.
  lemma HoldEndsClearIff(start: State, prefix: seq<Action>, s: State, arm: Arm)
    requires Initial(start) && Reaches(start, prefix, s) && s.main == Holding && s.exit == Running
    requires arm != ByMain && Runs(s, arm)
    ensures forall run, t :: Reaches(s, run, t) ==> t.exit in {Running, NestedAbort, SignalExit0, HookAbort}
    ensures (forall run, t :: Reaches(s, run, t) && t.exit == Ending(arm) && AllSpared(s, run, arm) ==> AllClear(t))
            <==> forall r: nat :: r <= s.n && r < Done(s, arm) ==> ClearIn(s, r)
  {
    InvHolds(start);
    InvAlways(start, prefix, s);
    forall run, t | Reaches(s, run, t) ensures t.exit in {Running, NestedAbort, SignalExit0, HookAbort} {
      InvAlways(s, run, t);
      HoldKept(s, run, t);
    }
    ListClearsIff(s, arm);
    forall r: nat | r <= s.n ensures Secure(s, arm, r) <==> (r < Done(s, arm) ==> ClearIn(s, r)) {
    }
  }

  // ---- the ways it can end otherwise ------------------------------------------------------

  // One or two steps from here the process ends without having completed any list.
  predicate Imminent(s: State, e: Exit) {
    match e
    case SignalExit1 => s.main.Releasing? && SignalRuns(s)
    case MainExitLost => s.main == Lost && MainRuns(s)
    case NestedAbort => true
    case _ => false
  }

  lemma AbruptNow(s: State, e: Exit) returns (run: seq<Action>, t: State)
    requires Inv(s) && s.exit == Running && Imminent(s, e)
    ensures Reaches(s, run, t) && t.exit == e && t.regs == s.regs
  {
    match e {
      case SignalExit1 =>
        run, t := [SignalArrives, SignalTake], s.(pending := false, exit := SignalExit1);
        Two(s, SignalArrives, SignalTake, t);
      case MainExitLost =>
        run, t := [MainLeave], s.(exit := MainExitLost);
        One(s, MainLeave, t);
      case NestedAbort =>
        if s.hook == Quiet {
          run := [Panic(WatchdogThread), Panic(WatchdogThread)];
          t := s.(hook := Hooking(WatchdogThread, 0), exit := NestedAbort);
          Two(s, Panic(WatchdogThread), Panic(WatchdogThread), t);
        } else {
          run, t := [Panic(WatchdogThread)], s.(exit := NestedAbort);
          One(s, Panic(WatchdogThread), t);
        }
    }
  }

  lemma AbruptForced(s: State, e: Exit, r: nat) returns (run: seq<Action>, t: State)
    requires Inv(s) && s.exit == Running && Imminent(s, e) && r <= s.n && (MayForce(s, r) || !ClearIn(s, r))
    ensures Reaches(s, run, t) && t.exit == e && !ClearIn(t, r)
  {
    if MayForce(s, r) {
      var a := if r < s.n then MainForce(r, true) else MainUnlock(true, true);
      var forced := Apply(s, a);
      One(s, a, forced);
      InvAlways(s, [a], forced);
      run, t := AbruptNow(forced, e);
      RunsJoin(s, [a], forced, run, t);
      run := [a] + run;
    } else {
      run, t := AbruptNow(s, e);
    }
  }

  // After every run that ends like this, `r` is 0.
  ghost predicate AlwaysClear(s: State, e: Exit, r: nat) {
    forall run, t :: Reaches(s, run, t) && t.exit == e ==> ClearIn(t, r)
  }

  // These endings promise nothing about a register that they do not find cleared already: `r` is 0
  // after every one of them exactly if it is 0 now and main can no longer force it.
  lemma AbruptClearIff(s: State, e: Exit, r: nat)
    requires Inv(s) && s.exit == Running && Imminent(s, e) && r <= s.n
    ensures AlwaysClear(s, e, r) <==> ClearIn(s, r) && !MayForce(s, r)
  {
    hide Enabled, Apply, MayForce, Imminent;
    if ClearIn(s, r) && !MayForce(s, r) {
      forall run, t | Reaches(s, run, t) && t.exit == e ensures ClearIn(t, r) {
        RegisterFate(s, run, t, r);
      }
    } else {
      var run, t := AbruptForced(s, e, r);
      assert !ClearIn(t, r);
    }
  }

  // ---- and such runs exist ----------------------------------------------------------------

  function Started(fans: nat): State {
    State(fans, seq(fans + 1, _ => false), false, false, false, Working, Waiting, Quiet, Running)
  }

  // A signal that arrives while main is still releasing kills the process with fan 0 forced.
  lemma SignalCutsMainShort() returns (run: seq<Action>, t: State)
    ensures Reaches(Started(1), run, t) && t.exit == SignalExit1 && !ClearIn(t, 0)
  {
    var s := Started(1);
    var a := s.(regs := [true, false], flag := true, main := Releasing(0));
    Two(s, MainForce(0, true), MainDrop, a);
    InvHolds(s);
    InvAlways(s, [MainForce(0, true), MainDrop], a);
    run, t := AbruptNow(a, SignalExit1);
    RunsJoin(s, [MainForce(0, true), MainDrop], a, run, t);
    run := [MainForce(0, true), MainDrop] + run;
  }

  // Main loses the flag, returns from its teardown, and exits before the signal thread has written anything.
  lemma MainCutsSignalShort() returns (run: seq<Action>, t: State)
    ensures Reaches(Started(1), run, t) && t.exit == MainExitLost && !ClearIn(t, 0)
  {
    var s := Started(1);
    var a := s.(regs := [true, false], pending := true);
    var b := a.(pending := false, flag := true, signal := Serving(0), main := Lost);
    Two(s, MainForce(0, true), SignalArrives, a);
    Two(a, SignalTake, MainDrop, b);
    RunsJoin(s, [MainForce(0, true), SignalArrives], a, [SignalTake, MainDrop], b);
    InvHolds(s);
    InvAlways(s, [MainForce(0, true), SignalArrives] + [SignalTake, MainDrop], b);
    run, t := AbruptNow(b, MainExitLost);
    RunsJoin(s, [MainForce(0, true), SignalArrives] + [SignalTake, MainDrop], b, run, t);
    run := [MainForce(0, true), SignalArrives] + [SignalTake, MainDrop] + run;
  }

  // A second panic while the hook runs aborts at once, even from the hold loop.
  lemma SecondPanicAborts() returns (run: seq<Action>, t: State)
    ensures Reaches(Started(1), run, t) && t.main == Holding && t.exit == NestedAbort && !ClearIn(t, 0)
  {
    var s := Started(1);
    var a := s.(regs := [true, false], main := Holding);
    Two(s, MainForce(0, true), MainHold, a);
    InvHolds(s);
    InvAlways(s, [MainForce(0, true), MainHold], a);
    run, t := AbruptNow(a, NestedAbort);
    HoldKept(a, run, t);
    RunsJoin(s, [MainForce(0, true), MainHold], a, run, t);
    run := [MainForce(0, true), MainHold] + run;
  }

  // The hook has a guard of its own: it releases at the same time as the signal thread.
  lemma HookOverlapsSignal() returns (run: seq<Action>, t: State)
    ensures Reaches(Started(1), run, t) && t.exit == Running && t.signal.Serving? && t.hook.Hooking?
  {
    hide Reaches;
    var s := Started(1);
    var a := s.(flag := true, signal := Serving(0));
    var b := a.(hook := Hooking(MainThread, 1));
    Two(s, SignalArrives, SignalTake, a);
    Two(a, Panic(MainThread), HookWrite(true), b);
    RunsJoin(s, [SignalArrives, SignalTake], a, [Panic(MainThread), HookWrite(true)], b);
    run, t := [SignalArrives, SignalTake] + [Panic(MainThread), HookWrite(true)], b;
  }

  // Commits never look at the flag: a tick that commits during a signal release, whose writes
  // all succeed, leaves a fan forced after exit(0). So it is from the start, for any number of fans.
  lemma CommitOutlivesRelease(s: State, r: nat) returns (run: seq<Action>, t: State)
    requires Initial(s) && r < s.n
    ensures Reaches(s, run, t) && t.exit == SignalExit0 && AllSpared(s, run, BySignal) && !ClearIn(t, r)
  {
    InvHolds(s);
    run, t := LeftForced(s, BySignal, r);
    forall q: nat | q <= s.n ensures Spared(s, run, BySignal, q) {
      SmoothSpares(s, run, BySignal, q);
    }
  }

  // An unlock that failed but did force `Ftst` gets one zero from main's release, not two: if that one
  // write fails, `Ftst` outlives the release.
  lemma FailedUnlockOneZero() returns (run: seq<Action>, t: State)
    ensures Reaches(Started(0), run, t) && t.exit == MainExit && !ClearIn(t, 0)
  {
    var s := Started(0);
    var a := s.(regs := [true], flag := true, main := Releasing(0));
    var b := a.(main := Releasing(1), exit := MainExit);
    Two(s, MainUnlock(true, false), MainDrop, a);
    Two(a, MainWrite(false), MainLeave, b);
    RunsJoin(s, [MainUnlock(true, false), MainDrop], a, [MainWrite(false), MainLeave], b);
    run, t := [MainUnlock(true, false), MainDrop] + [MainWrite(false), MainLeave], b;
  }
}
