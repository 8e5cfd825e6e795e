/** The race of src/smc against the SMC: every atomic step of the state machine is what a stretch of
    the conversation does to the registers, and a release list is a run of such steps. */
module Refinement {
  import opened Registers
  import opened Release
  import opened SmcConnection
  import opened SmcTypes
  import T = Teardown

  // A register is marked exactly as long as it may hold something other than 0.
  ghost predicate Marks(s: T.State, log: seq<Exchange>) {
    && s.n <= 208 && |s.regs| == s.n + 1
    && forall r: nat :: r <= s.n ==> (s.regs[r] <==> !Cleared(log, RegisterKey(s.n, r)))
  }

  lemma RegistersApart(n: nat, q: nat, r: nat)
    requires n <= 208 && q <= n && r <= n
    ensures RegisterKey(n, q) == RegisterKey(n, r) <==> q == r
  {
    KeysDistinct(if q < n then FanMode(q) else Ftst, if r < n then FanMode(r) else Ftst);
  }

  lemma Elsewhere(before: seq<Exchange>, after: seq<Exchange>, key: nat, bytes: seq<Byte>, other: nat)
    requires WritesOnly(before, after, key, bytes) && other != key
    ensures Cleared(after, other) <==> Cleared(before, other)
  {
    forall v: Byte ensures MayHold(after, other, v) <==> MayHold(before, other, v) {
      OthersKeep(before, after, key, bytes, other, v);
    }
  }

  // ---- single writes ----------------------------------------------------------------------

  // Zeros written to register `r`: the machine's `Zeroed`, successful exactly if one was accepted.
  lemma ZeroMarks(s: T.State, r: nat, ok: bool, log: seq<Exchange>, log': seq<Exchange>)
    requires Marks(s, log) && r <= s.n && WritesOnly(log, log', RegisterKey(s.n, r), [0])
    requires ok <==> Accepted(log, log', RegisterKey(s.n, r))
    ensures Marks(s.(regs := T.Zeroed(s, r, ok)), log')
  {
    hide Cleared, WritesOnly, Accepted, RegisterKey;
    forall q: nat | q <= s.n
      ensures T.Zeroed(s, r, ok)[q] <==> !Cleared(log', RegisterKey(s.n, q))
    {
      RegistersApart(s.n, q, r);
      if q == r {
        OnlyZeros(log, log', RegisterKey(s.n, r));
        ClearedIff(log, log', RegisterKey(s.n, r));
      } else {
        Elsewhere(log, log', RegisterKey(s.n, r), [0], RegisterKey(s.n, q));
      }
    }
  }

  lemma OnlyZeros(before: seq<Exchange>, after: seq<Exchange>, key: nat)
    requires WritesOnly(before, after, key, [0])
    ensures ZerosTo(before, after, key)
  {
  }

  // Ones written to register `r`: the machine's `Forced`, taken exactly if one was sent, accepted or not.
  lemma ForceMarks(s: T.State, r: nat, took: bool, log: seq<Exchange>, log': seq<Exchange>)
    requires Marks(s, log) && r <= s.n && WritesOnly(log, log', RegisterKey(s.n, r), [1])
    requires took <==> !ReadsOnly(log, log')
    ensures Marks(s.(regs := T.Forced(s, r, took)), log')
  {
    hide Cleared, WritesOnly, ReadsOnly, RegisterKey;
    forall q: nat | q <= s.n
      ensures T.Forced(s, r, took)[q] <==> !Cleared(log', RegisterKey(s.n, q))
    {
      RegistersApart(s.n, q, r);
      if q == r {
        ForcedIff(log, log', RegisterKey(s.n, r));
      } else {
        Elsewhere(log, log', RegisterKey(s.n, r), [1], RegisterKey(s.n, q));
      }
    }
  }

  // ---- steps of the machine ---------------------------------------------------------------

  // One write of an arm's list, at any moment of any interleaving.
  lemma ArmStep(s: T.State, arm: T.Arm, ok: bool, log: seq<Exchange>, log': seq<Exchange>)
    requires T.Enabled(s, T.Writing(arm, ok)) && Marks(s, log)
    requires var key := RegisterKey(s.n, T.Done(s, arm));
             WritesOnly(log, log', key, [0]) && (ok <==> Accepted(log, log', key))
    ensures Marks(T.Apply(s, T.Writing(arm, ok)), log')
  {
    hide Cleared, WritesOnly, Accepted;
    ZeroMarks(s, T.Target(s, T.Done(s, arm)), ok, log, log');
  }

  // A commit, an unlock, and a fan put back to automatic by main.
  lemma MainStep(s: T.State, a: T.Action, log: seq<Exchange>, log': seq<Exchange>)
    requires T.Enabled(s, a) && Marks(s, log)
    requires match a
             case MainForce(fan, took) =>
               WritesOnly(log, log', ModeKey(fan), [1]) && (took <==> !ReadsOnly(log, log'))
             case MainUnlock(took, _) =>
               WritesOnly(log, log', FTST_KEY, [1]) && (took <==> !ReadsOnly(log, log'))
             case MainAuto(fan, ok) =>
               WritesOnly(log, log', ModeKey(fan), [0]) && (ok <==> Accepted(log, log', ModeKey(fan)))
             case _ => false
    ensures Marks(T.Apply(s, a), log')
  {
    hide Cleared, WritesOnly, ReadsOnly, Accepted;
    match a {
      case MainForce(fan, took) => ForceMarks(s, fan, took, log, log');
      case MainUnlock(took, _) => ForceMarks(s, s.n, took, log, log');
      case MainAuto(fan, ok) => ZeroMarks(s, fan, ok, log, log');
    }
  }

  // Steps that write nothing go with a conversation that writes nothing.
  lemma SilentStep(s: T.State, a: T.Action, log: seq<Exchange>, log': seq<Exchange>)
    requires T.Enabled(s, a) && Marks(s, log) && ReadsOnly(log, log') && T.Apply(s, a).regs == s.regs
    ensures Marks(T.Apply(s, a), log')
  {
    T.StepKeepsCount(s, a);
    forall key, v: Byte ensures MayHold(log', key, v) <==> MayHold(log, key, v) {
      AfterReads(log, log', key, v);
    }
  }

  // ---- a whole list -----------------------------------------------------------------------

  // The run consists of writes of the arm.
  predicate OwnWrites(run: seq<T.Action>, arm: T.Arm) {
    forall a :: a in run ==> a == T.Writing(arm, true) || a == T.Writing(arm, false)
  }

  // What the methods that release do to the SMC, entry after entry, is a run of the machine.
  lemma {:induction false} ListIsRun(s: T.State, arm: T.Arm, log: seq<Exchange>, log': seq<Exchange>, length: nat)
    returns (run: seq<T.Action>, t: T.State)
    requires T.Inv(s) && s.exit == T.Running && T.Begun(s, arm) && T.Runs(s, arm) && T.Done(s, arm) == 0
    requires Marks(s, log) && Listed(log, log', s.n, length) && length <= T.Length(s, arm)
    ensures T.Reaches(s, run, t) && |run| == length && OwnWrites(run, arm) && Marks(t, log')
    ensures T.Inv(t) && t.exit == T.Running && t.n == s.n && T.Begun(t, arm) && T.Runs(t, arm)
    ensures T.Done(t, arm) == length && T.Length(t, arm) == T.Length(s, arm)
    decreases length
  {
    hide T.Enabled, T.Apply, T.Inv, T.Reaches, Marks, WritesOnly, Accepted;
    if length == 0 {
      run, t := [], s;
      NoSteps(s);
    } else {
      var k := length - 1;
      var mid: seq<Exchange> :| Listed(log, mid, s.n, k) && WritesOnly(mid, log', RegisterKey(s.n, k), [0]);
      var u: T.State;
      run, u := ListIsRun(s, arm, log, mid, k);
      var a: T.Action;
      a, t := NextWrite(u, arm, mid, log');
      T.RunsJoin(s, run, u, [a], t);
      run := run + [a];
    }
  }

  lemma NoSteps(s: T.State)
    ensures T.Reaches(s, [], s)
  {
  }

  lemma NextWrite(s: T.State, arm: T.Arm, log: seq<Exchange>, log': seq<Exchange>) returns (a: T.Action, t: T.State)
    requires T.Inv(s) && s.exit == T.Running && T.Begun(s, arm) && T.Runs(s, arm)
    requires T.Done(s, arm) < T.Length(s, arm) && Marks(s, log)
    requires WritesOnly(log, log', RegisterKey(s.n, T.Done(s, arm)), [0])
    ensures (a == T.Writing(arm, true) || a == T.Writing(arm, false)) && T.Reaches(s, [a], t)
    ensures T.Inv(t) && t.exit == T.Running && t.n == s.n && T.Begun(t, arm) && T.Runs(t, arm) && Marks(t, log')
    ensures T.Done(t, arm) == T.Done(s, arm) + 1 && T.Length(t, arm) == T.Length(s, arm)
  {
    hide Marks, WritesOnly, Accepted;
    a := T.Writing(arm, Accepted(log, log', RegisterKey(s.n, T.Done(s, arm))));
    t := T.Apply(s, a);
    ArmStep(s, arm, Accepted(log, log', RegisterKey(s.n, T.Done(s, arm))), log, log');
    T.One(s, a, t);
    T.InvKept(s, a);
  }

  // A completed release ends as the machine does: what the registers hold is what the theorems about
  // completed lists speak of.
  lemma ReleaseEndsRun(s: T.State, arm: T.Arm, log: seq<Exchange>, log': seq<Exchange>)
    returns (run: seq<T.Action>, t: T.State)
    requires T.Inv(s) && s.exit == T.Running && T.Begun(s, arm) && T.Runs(s, arm) && T.Done(s, arm) == 0
    requires Marks(s, log) && Listed(log, log', s.n, T.Length(s, arm))
    ensures T.Reaches(s, run, t) && t.exit == T.Ending(arm) && Marks(t, log')
  {
    hide T.Enabled, T.Apply, Listed;
    var writes, u := ListIsRun(s, arm, log, log', T.Length(s, arm));
    t := T.LeaveNow(u, arm);
    T.RunsJoin(s, writes, u, [T.Leaving(arm)], t);
    run := writes + [T.Leaving(arm)];
  }
}
