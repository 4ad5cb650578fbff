/** Which schedules of the protocol leave a real deadlock unrecorded. */
module DeadlockSchedule {
  import opened Bytes
  import opened DeadlockSpec

  /** u owns m and its after_lock is done. */
  ghost predicate Holds(s: Sys, m: Mutex, u: Tid) {
    m in s.owner && s.owner[m] == u && PcOf(s, u) != Got(m)
  }

  ghost predicate Recorded(s: Sys, m: Mutex, u: Tid) {
    m in s.g.locks && s.g.locks[m].holder == Some(u)
  }

  /** Nobody unlocks m. */
  predicate NoRelease(steps: seq<Step>, m: Mutex) {
    forall i :: 0 <= i < |steps| ==> !(steps[i].Release? && steps[i].m == m)
  }

  predicate Possible(s: Sys, a: Step) {
    Enabled(s, a) && LookupsSucceed(s, a)
  }

  /** Somewhere in the run an after_unlock of m takes place. */
  ghost predicate CleansUp(s: Sys, steps: seq<Step>, m: Mutex)
    decreases |steps|
  {
    steps != [] && Possible(s, steps[0]) &&
    ((steps[0].Cleanup? && PcOf(s, steps[0].t) == Rel(m)) || CleansUp(Apply(s, steps[0]), steps[1..], m))
  }

  /**
   * Somewhere in the run an after_lock of m takes place after which m is not unlocked any more, and an
   * after_unlock of m, left over from an earlier owner, follows it.
   */
  ghost predicate LateCleanup(s: Sys, steps: seq<Step>, m: Mutex)
    decreases |steps|
  {
    steps != [] && Possible(s, steps[0]) &&
    var s', rest := Apply(s, steps[0]), steps[1..];
    (steps[0].Finish? && PcOf(s, steps[0].t) == Got(m) && NoRelease(rest, m) && CleansUp(s', rest, m))
    || LateCleanup(s', rest, m)
  }

  /** One step, while u keeps m: its record is lost exactly by an after_unlock of m. */
  lemma HoldingStep(s: Sys, a: Step, m: Mutex, u: Tid)
    requires Inv(s) && Possible(s, a) && Holds(s, m, u) && !(a.Release? && a.m == m)
    ensures Holds(Apply(s, a), m, u) && !(a.Finish? && PcOf(s, a.t) == Got(m))
    ensures Recorded(Apply(s, a), m, u) <==> Recorded(s, m, u) && !(a.Cleanup? && PcOf(s, a.t) == Rel(m))
  {
    hide UsedExact, HoldersOk, WaitsExact;
  }

  lemma {:induction false} Holding(s: Sys, steps: seq<Step>, m: Mutex, u: Tid)
    requires Inv(s) && Run(s, steps).Some? && Holds(s, m, u) && NoRelease(steps, m)
    ensures Holds(Run(s, steps).value, m, u) && !LateCleanup(s, steps, m)
    ensures Recorded(Run(s, steps).value, m, u) <==> Recorded(s, m, u) && !CleansUp(s, steps, m)
    decreases |steps|
  {
    if steps == [] {
    } else {
      hide Inv, Recorded, Holds;
      HoldingStep(s, steps[0], m, u);
      StepInv(s, steps[0]);
      Holding(Apply(s, steps[0]), steps[1..], m, u);
    }
  }

  /** Ownership with after_lock done begins with an after_lock, which records the owner. */
  lemma TakingStep(s: Sys, a: Step, m: Mutex, u: Tid)
    requires Inv(s) && Possible(s, a)
    ensures a.Finish? && PcOf(s, a.t) == Got(m) ==> Holds(Apply(s, a), m, a.t) && Recorded(Apply(s, a), m, a.t)
    ensures Holds(Apply(s, a), m, u) && !(a.Finish? && PcOf(s, a.t) == Got(m)) ==>
      Holds(s, m, u) && !(a.Release? && a.m == m)
  {
    hide UsedExact, HoldersOk, WaitsExact;
  }

  lemma FirstRelease(steps: seq<Step>, m: Mutex)
    requires steps != []
    ensures NoRelease(steps, m) <==> !(steps[0].Release? && steps[0].m == m) && NoRelease(steps[1..], m)
  {
    assert forall i :: 0 < i < |steps| ==> steps[i] == steps[1..][i - 1];
  }

  lemma OneHolder(s: Sys, m: Mutex, u: Tid, v: Tid)
    requires Holds(s, m, u) && Holds(s, m, v)
    ensures u == v
  {
  }

  /** Whether the owner of m is still on record at the end of a run is decided by the schedule. */
  lemma {:induction false} RecordedAtEnd(s: Sys, steps: seq<Step>, m: Mutex, u: Tid)
    requires Inv(s) && Run(s, steps).Some? && Holds(Run(s, steps).value, m, u)
    requires !(Holds(s, m, u) && NoRelease(steps, m))
    ensures Recorded(Run(s, steps).value, m, u) <==> !LateCleanup(s, steps, m)
    decreases |steps|
  {
    if steps == [] {
    } else {
      hide Inv, Recorded, Holds;
      var a, s', rest := steps[0], Apply(s, steps[0]), steps[1..];
      StepInv(s, a);
      TakingStep(s, a, m, u);
      if a.Finish? && PcOf(s, a.t) == Got(m) && NoRelease(rest, m) {
        Holding(s', rest, m, a.t);
        OneHolder(Run(s, steps).value, m, u, a.t);
      } else {
        FirstRelease(steps, m);
        RecordedAtEnd(s', rest, m, u);
      }
    }
  }

  /**
   * A real deadlock at the end of a run is recorded as a cycle if and only if no mutex on it suffered a late
   * after_unlock: one that followed the last after_lock of that mutex.
   */
  lemma DeadlockSeen(steps: seq<Step>, c: seq<Tid>)
    requires Run(INIT, steps).Some? && RealDeadlock(Run(INIT, steps).value, c)
    ensures var s := Run(INIT, steps).value;
      RecordedCycle(s.g, c) <==>
        forall i :: 0 <= i < |c| && PcOf(s, c[i]).Wants? ==> !LateCleanup(INIT, steps, PcOf(s, c[i]).m)
  {
    hide Run, LateCleanup, Inv;
    var s := Run(INIT, steps).value;
    InitInv();
    RunInv(INIT, steps);
    forall i | 0 <= i < |c|
      ensures PcOf(s, c[i]).Wants?
      ensures Next(s.g, c[i]) == Some(c[Succ(i, |c|)]) <==> !LateCleanup(INIT, steps, PcOf(s, c[i]).m)
    {
      EdgeSeen(steps, c, i);
    }
  }

  lemma EdgeSeen(steps: seq<Step>, c: seq<Tid>, i: nat)
    requires Run(INIT, steps).Some? && Inv(Run(INIT, steps).value) && RealDeadlock(Run(INIT, steps).value, c) && i < |c|
    ensures var s := Run(INIT, steps).value;
      PcOf(s, c[i]).Wants? &&
      (Next(s.g, c[i]) == Some(c[Succ(i, |c|)]) <==> !LateCleanup(INIT, steps, PcOf(s, c[i]).m))
  {
    hide Run, LateCleanup, UsedExact, HoldersOk;
    var s, j := Run(INIT, steps).value, Succ(i, |c|);
    assert BlockedBy(s, c[i], c[j]) && BlockedBy(s, c[j], c[Succ(j, |c|)]);
    assert WaitOf(s.g, c[i]) == Expected(PcOf(s, c[i]));
    InitInv();
    RecordedAtEnd(INIT, steps, PcOf(s, c[i]).m, c[j]);
  }

  /** If nobody is inside the unlock hook of m when its owner's after_lock is done, no late after_unlock can follow. */
  lemma {:induction false} QuietTaking(s: Sys, steps: seq<Step>, m: Mutex, u: Tid)
    requires Inv(s) && Run(s, steps).Some? && Holds(s, m, u) && NoRelease(steps, m)
    requires forall t :: PcOf(s, t) != Rel(m)
    ensures !CleansUp(s, steps, m)
    decreases |steps|
  {
    if steps == [] {
    } else {
      HoldingStep(s, steps[0], m, u);
      StepInv(s, steps[0]);
      FirstRelease(steps, m);
      var s' := Apply(s, steps[0]);
      forall t
        ensures PcOf(s', t) != Rel(m)
      {
        assert PcOf(s, t) != Rel(m);
      }
      QuietTaking(Apply(s, steps[0]), steps[1..], m, u);
    }
  }

  ghost predicate Loses(s: Sys, steps: seq<Step>, m: Mutex) {
    Run(s, steps).Some? && NoRelease(steps, m) && CleansUp(s, steps, m)
  }

  /**
   * The guard: once the after_lock of m is done, some continuation can erase the owner if and only if another thread
   * is still inside its unlock hook of m at that moment.
   */
  lemma CanBeLost(s: Sys, m: Mutex, u: Tid)
    requires Inv(s) && Holds(s, m, u)
    ensures (exists steps :: Loses(s, steps, m)) <==> exists t :: PcOf(s, t) == Rel(m)
  {
    if exists t :: PcOf(s, t) == Rel(m) {
      var t :| PcOf(s, t) == Rel(m);
      var a := Cleanup(t);
      LookupsAlwaysSucceed(s, a);
      assert [a][1..] == [];
      assert Run(s, [a]) == Run(Apply(s, a), []);
      assert Loses(s, [a], m);
    } else {
      forall steps
        ensures !Loses(s, steps, m)
      {
        if Run(s, steps).Some? && NoRelease(steps, m) {
          QuietTaking(s, steps, m, u);
        }
      }
    }
  }

  lemma {:induction false} Extend(s0: Sys, steps: seq<Step>, s: Sys, a: Step)
    requires Run(s0, steps) == Some(s) && Enabled(s, a) && LookupsSucceed(s, a)
    ensures Run(s0, steps + [a]) == Some(Apply(s, a))
    decreases |steps|
  {
    if steps == [] {
      assert steps + [a] == [a] && [a][1..] == [];
    } else {
      assert (steps + [a])[1..] == steps[1..] + [a];
      Extend(Apply(s0, steps[0]), steps[1..], s, a);
    }
  }

  /** Thread 3 holds mutex 1, releases it, and is overtaken inside the unlock hook by thread 1. */
  lemma Overtaken()
    ensures var steps := [Begin(3, 1), Acquire(3), Finish(3), Release(3, 1),
                          Begin(1, 1), Acquire(1), Finish(1), Cleanup(3)];
            Run(INIT, steps) ==
            Some(Sys(map[3 := Idle, 1 := Idle], map[1 := 1],
                     Graph(map[3 := None, 1 := None], map[1 := LockRec(None, 1)])))
  {
    var s1 := Apply(INIT, Begin(3, 1));
    var s2 := Apply(s1, Acquire(3));
    var s3 := Apply(s2, Finish(3));
    var s4 := Apply(s3, Release(3, 1));
    var p: seq<Step> := [];
    Extend(INIT, p, INIT, Begin(3, 1));
    Extend(INIT, p + [Begin(3, 1)], s1, Acquire(3));
    Extend(INIT, p + [Begin(3, 1)] + [Acquire(3)], s2, Finish(3));
    var q := p + [Begin(3, 1)] + [Acquire(3)] + [Finish(3)];
    Extend(INIT, q, s3, Release(3, 1));
    assert s4 == Sys(map[3 := Rel(1)], map[], Graph(map[3 := None], map[1 := LockRec(Some(3), 1)]));
    Overtaken2(q + [Release(3, 1)], s4);
    assert q + [Release(3, 1)] + [Begin(1, 1)] + [Acquire(1)] + [Finish(1)] + [Cleanup(3)] ==
      [Begin(3, 1), Acquire(3), Finish(3), Release(3, 1), Begin(1, 1), Acquire(1), Finish(1), Cleanup(3)];
  }

  lemma Overtaken2(r: seq<Step>, s4: Sys)
    requires Run(INIT, r) == Some(s4)
    requires s4 == Sys(map[3 := Rel(1)], map[], Graph(map[3 := None], map[1 := LockRec(Some(3), 1)]))
    ensures Run(INIT, r + [Begin(1, 1)] + [Acquire(1)] + [Finish(1)] + [Cleanup(3)]) ==
            Some(Sys(map[3 := Idle, 1 := Idle], map[1 := 1],
                     Graph(map[3 := None, 1 := None], map[1 := LockRec(None, 1)])))
  {
    var s5 := Apply(s4, Begin(1, 1));
    var s6 := Apply(s5, Acquire(1));
    var s7 := Apply(s6, Finish(1));
    Extend(INIT, r, s4, Begin(1, 1));
    Extend(INIT, r + [Begin(1, 1)], s5, Acquire(1));
    Extend(INIT, r + [Begin(1, 1)] + [Acquire(1)], s6, Finish(1));
    Extend(INIT, r + [Begin(1, 1)] + [Acquire(1)] + [Finish(1)], s7, Cleanup(3));
    assert Apply(s7, Cleanup(3)) == Sys(map[3 := Idle, 1 := Idle], map[1 := 1],
                     Graph(map[3 := None, 1 := None], map[1 := LockRec(None, 1)]));
  }

  /** An idle thread takes a mutex that nobody owns or waits for. */
  lemma TakesFree(r: seq<Step>, s: Sys, t: Tid, m: Mutex)
    requires Run(INIT, r) == Some(s) && PcOf(s, t) == Idle && m !in s.owner && m !in s.g.locks
    ensures Run(INIT, r + [Begin(t, m)] + [Acquire(t)] + [Finish(t)]) ==
            Some(Sys(s.pc[t := Idle], s.owner[m := t],
                     Graph(s.g.waits[t := None], s.g.locks[m := LockRec(Some(t), 1)])))
  {
    hide Run;
    var s1 := Sys(s.pc[t := Wants(m)], s.owner, Graph(s.g.waits[t := Some(m)], s.g.locks[m := LockRec(None, 1)]));
    var s2 := Sys(s1.pc[t := Got(m)], s.owner[m := t], s1.g);
    Extend(INIT, r, s, Begin(t, m));
    Extend(INIT, r + [Begin(t, m)], s1, Acquire(t));
    Extend(INIT, r + [Begin(t, m)] + [Acquire(t)], s2, Finish(t));
    assert s2.pc[t := Idle] == s.pc[t := Idle] && s2.g.waits[t := None] == s.g.waits[t := None];
    assert s2.g.locks[m := LockRec(Some(t), 1)] == s.g.locks[m := LockRec(Some(t), 1)];
  }

  /** The state after thread 2 has taken mutex 2 as well. */
  lemma SecondHolder(r: seq<Step>, s0: Sys)
    requires Run(INIT, r) == Some(s0)
    requires s0 == Sys(map[3 := Idle, 1 := Idle], map[1 := 1],
                       Graph(map[3 := None, 1 := None], map[1 := LockRec(None, 1)]))
    ensures Run(INIT, r + [Begin(2, 2)] + [Acquire(2)] + [Finish(2)]) ==
            Some(Sys(map[3 := Idle, 1 := Idle, 2 := Idle], map[1 := 1, 2 := 2],
                     Graph(map[3 := None, 1 := None, 2 := None], map[1 := LockRec(None, 1), 2 := LockRec(Some(2), 1)])))
  {
    hide Run;
    TakesFree(r, s0, 2, 2);
    assert s0.pc[2 := Idle] == map[3 := Idle, 1 := Idle, 2 := Idle] && s0.owner[2 := 2] == map[1 := 1, 2 := 2];
    assert s0.g.waits[2 := None] == map[3 := None, 1 := None, 2 := None];
    assert s0.g.locks[2 := LockRec(Some(2), 1)] == map[1 := LockRec(None, 1), 2 := LockRec(Some(2), 1)];
  }

  lemma CrossWait(r: seq<Step>, s3: Sys)
    requires Run(INIT, r) == Some(s3)
    requires s3 == Sys(map[3 := Idle, 1 := Idle, 2 := Idle], map[1 := 1, 2 := 2],
                       Graph(map[3 := None, 1 := None, 2 := None],
                             map[1 := LockRec(None, 1), 2 := LockRec(Some(2), 1)]))
    ensures var s := Run(INIT, r + [Begin(1, 2)] + [Begin(2, 1)]);
            s.Some? && RealDeadlock(s.value, [1, 2]) && Next(s.value.g, 2) == None
  {
    var s4 := Apply(s3, Begin(1, 2));
    var s5 := Apply(s4, Begin(2, 1));
    Extend(INIT, r, s3, Begin(1, 2));
    Extend(INIT, r + [Begin(1, 2)], s4, Begin(2, 1));
    assert BlockedBy(s5, 1, 2) && BlockedBy(s5, 2, 1);
  }

  /** The condition can fail: after that, the deadlock of threads 1 and 2 is not recorded, because
      the late after_unlock has erased thread 1 as holder of mutex 1. */
  lemma DeadlockMissed()
    ensures exists steps ::
              && Run(INIT, steps).Some?
              && RealDeadlock(Run(INIT, steps).value, [1, 2])
              && !RecordedCycle(Run(INIT, steps).value.g, [1, 2])
  {
    hide Run, Next, RealDeadlock;
    var r := [Begin(3, 1), Acquire(3), Finish(3), Release(3, 1), Begin(1, 1), Acquire(1), Finish(1), Cleanup(3)];
    Overtaken();
    SecondHolder(r, Run(INIT, r).value);
    var q := r + [Begin(2, 2)] + [Acquire(2)] + [Finish(2)];
    CrossWait(q, Run(INIT, q).value);
    var s := Run(INIT, q + [Begin(1, 2)] + [Begin(2, 1)]).value;
    assert [1, 2][1] == 2 && Next(s.g, [1, 2][1]) == None;
  }
}
