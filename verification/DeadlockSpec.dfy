/** The deadlock detector as a protocol. Each lock or unlock call of a thread is several atomic
    steps, freely interleaved with those of other threads: the hook's bookkeeping before, the real
    mutex operation, the bookkeeping after. The recorded graph can lag behind or be wrong about the
    real locks; the theorems say what an alarm nevertheless proves. */
module DeadlockSpec {
  import opened Bytes

  type Tid = nat
  type Mutex = nat

  /** A resource_lock: who is recorded as holder, and how many lock calls are outstanding. */
  datatype LockRec = LockRec(holder: Option<Tid>, used: int)

  /** The recorded graph: what each known thread waits for, and the existing lock records. */
  datatype Graph = Graph(waits: map<Tid, Option<Mutex>>, locks: map<Mutex, LockRec>)

  const EMPTY := Graph(map[], map[])

  function WaitOf(g: Graph, t: Tid): Option<Mutex> {
    if t in g.waits then g.waits[t] else None
  }

  /** get_wait_vertex: the recorded holder of what t waits for. */
  function Next(g: Graph, t: Tid): Option<Tid> {
    match WaitOf(g, t)
    case Some(m) => if m in g.locks then g.locks[m].holder else None
    case None => None
  }

  // ---------------------------------------------------------------- bookkeeping steps

  /** before_lock */
  function BeforeLock(g: Graph, t: Tid, m: Mutex): Graph {
    var l := if m in g.locks then g.locks[m] else LockRec(None, 0);
    Graph(g.waits[t := Some(m)], g.locks[m := l.(used := l.used + 1)])
  }

  /** after_lock */
  function AfterLock(g: Graph, t: Tid, m: Mutex): Graph
    requires t in g.waits && m in g.locks
  {
    Graph(g.waits[t := None], g.locks[m := g.locks[m].(holder := Some(t))])
  }

  /** after_unlock: the record is freed when nobody uses it any more. */
  function AfterUnlock(g: Graph, m: Mutex): Graph
    requires m in g.locks
  {
    var l := LockRec(None, g.locks[m].used - 1);
    if l.used == 0 then g.(locks := g.locks - {m}) else g.(locks := g.locks[m := l])
  }

  // ---------------------------------------------------------------- the system

  /** Where a thread is inside the hooks. Wants: before_lock done, real lock pending. Got: real lock
      taken, after_lock pending. Rel: real unlock done, after_unlock pending. */
  datatype Pc = Idle | Wants(m: Mutex) | Got(m: Mutex) | Rel(m: Mutex)

  datatype Sys = Sys(pc: map<Tid, Pc>, owner: map<Mutex, Tid>, g: Graph)

  const INIT := Sys(map[], map[], EMPTY)

  function PcOf(s: Sys, t: Tid): Pc {
    if t in s.pc then s.pc[t] else Idle
  }

  datatype Step =
    | Begin(t: Tid, m: Mutex)    // before_lock
    | Acquire(t: Tid)            // the real pthread_mutex_lock returns
    | Finish(t: Tid)             // after_lock
    | Release(t: Tid, m: Mutex)  // the real pthread_mutex_unlock
    | Cleanup(t: Tid)            // after_unlock

  /** Mutexes are not recursive and released by their owner only. A thread may ask for a mutex it
      already holds; it then blocks itself. */
  predicate Enabled(s: Sys, a: Step) {
    match a
    case Begin(t, _) => PcOf(s, t) == Idle
    case Acquire(t) => PcOf(s, t).Wants? && PcOf(s, t).m !in s.owner
    case Finish(t) => PcOf(s, t).Got?
    case Release(t, m) => PcOf(s, t) == Idle && m in s.owner && s.owner[m] == t
    case Cleanup(t) => PcOf(s, t).Rel?
  }

  /** The lookups of after_lock and after_unlock succeed, so their asserts do not fire. */
  predicate LookupsSucceed(s: Sys, a: Step) {
    match a
    case Finish(t) => PcOf(s, t).Got? ==> t in s.g.waits && PcOf(s, t).m in s.g.locks
    case Cleanup(t) => PcOf(s, t).Rel? ==> PcOf(s, t).m in s.g.locks
    case _ => true
  }

  function Apply(s: Sys, a: Step): Sys
    requires Enabled(s, a) && LookupsSucceed(s, a)
  {
    match a
    case Begin(t, m) => Sys(s.pc[t := Wants(m)], s.owner, BeforeLock(s.g, t, m))
    case Acquire(t) => var m := PcOf(s, t).m; Sys(s.pc[t := Got(m)], s.owner[m := t], s.g)
    case Finish(t) => var m := PcOf(s, t).m; Sys(s.pc[t := Idle], s.owner, AfterLock(s.g, t, m))
    case Release(t, m) => Sys(s.pc[t := Rel(m)], s.owner - {m}, s.g)
    case Cleanup(t) => var m := PcOf(s, t).m; Sys(s.pc[t := Idle], s.owner, AfterUnlock(s.g, m))
  }

  // ---------------------------------------------------------------- invariant

  /** Threads whose lock call on m is outstanding without their owning m. */
  ghost function Others(s: Sys, m: Mutex): set<Tid> {
    set t | t in s.pc && (s.pc[t] == Wants(m) || s.pc[t] == Rel(m))
  }

  /** Lock calls on m between before_lock and after_unlock. */
  ghost function Stakes(s: Sys, m: Mutex): nat {
    |Others(s, m)| + if m in s.owner then 1 else 0
  }

  function Expected(p: Pc): Option<Mutex> {
    if p.Wants? || p.Got? then Some(p.m) else None
  }

  ghost predicate WaitsExact(s: Sys) {
    forall t :: WaitOf(s.g, t) == Expected(PcOf(s, t))
  }

  ghost predicate GotOwns(s: Sys) {
    forall t :: PcOf(s, t).Got? ==> PcOf(s, t).m in s.owner && s.owner[PcOf(s, t).m] == t
  }

  ghost predicate UsedExact(s: Sys) {
    forall m :: if m in s.g.locks then s.g.locks[m].used == Stakes(s, m) > 0 else Stakes(s, m) == 0
  }

  /** A recorded holder really owns the mutex and has been recorded as such, or is on its way out of
      the unlock hook. */
  ghost predicate HolderOk(s: Sys, m: Mutex, t: Tid) {
    PcOf(s, t) == Rel(m) || (m in s.owner && s.owner[m] == t && PcOf(s, t) != Got(m))
  }

  ghost predicate HoldersOk(s: Sys) {
    forall m :: m in s.g.locks && s.g.locks[m].holder.Some? ==> HolderOk(s, m, s.g.locks[m].holder.value)
  }

  ghost predicate Inv(s: Sys) {
    WaitsExact(s) && GotOwns(s) && UsedExact(s) && HoldersOk(s)
  }

  lemma InitInv()
    ensures Inv(INIT)
  {
    forall m
      ensures Stakes(INIT, m) == 0
    {
      assert Others(INIT, m) == {};
    }
  }

  lemma MoveOther(s: Sys, t: Tid, p: Pc, m: Mutex)
    ensures var s' := s.(pc := s.pc[t := p]);
            Others(s', m) == (if p == Wants(m) || p == Rel(m) then Others(s, m) + {t} else Others(s, m) - {t})
    ensures t in Others(s, m) <==> PcOf(s, t) == Wants(m) || PcOf(s, t) == Rel(m)
  {
  }

  /** How a step changes the number of outstanding calls on each mutex. */
  lemma StakesStep(s: Sys, a: Step, m: Mutex)
    requires GotOwns(s) && Enabled(s, a) && LookupsSucceed(s, a)
    ensures Stakes(Apply(s, a), m) == Stakes(s, m) +
            (match a
             case Begin(_, n) => if n == m then 1 else 0
             case Cleanup(t) => if PcOf(s, t).m == m then -1 else 0
             case _ => 0)
  {
    var s' := Apply(s, a);
    MoveOther(s, a.t, PcOf(s', a.t), m);
    assert Others(s', m) == Others(s.(pc := s'.pc), m);
  }

  lemma LookupsAlwaysSucceed(s: Sys, a: Step)
    requires Inv(s) && Enabled(s, a)
    ensures LookupsSucceed(s, a)
  {
    var p := PcOf(s, a.t);
    assert WaitOf(s.g, a.t) == Expected(p);
    if p.Got? || p.Rel? {
      assert p.Rel? ==> a.t in Others(s, p.m);
      assert Stakes(s, p.m) > 0;
    }
  }

  lemma UsedStep(s: Sys, a: Step)
    requires Inv(s) && Enabled(s, a) && LookupsSucceed(s, a)
    ensures UsedExact(Apply(s, a))
  {
    var s' := Apply(s, a);
    forall m
      ensures if m in s'.g.locks then s'.g.locks[m].used == Stakes(s', m) > 0 else Stakes(s', m) == 0
    {
      hide Stakes;
      StakesStep(s, a, m);
    }
  }

  lemma HoldersStep(s: Sys, a: Step)
    requires Inv(s) && Enabled(s, a) && LookupsSucceed(s, a)
    ensures HoldersOk(Apply(s, a))
  {
    var s' := Apply(s, a);
    hide UsedExact, WaitsExact;
    forall m | m in s'.g.locks && s'.g.locks[m].holder.Some?
      ensures HolderOk(s', m, s'.g.locks[m].holder.value)
    {
      var h := s'.g.locks[m].holder.value;
      if m in s.g.locks && s.g.locks[m].holder == Some(h) {
        assert HolderOk(s, m, h);
      }
    }
  }

  lemma WaitsStep(s: Sys, a: Step)
    requires Inv(s) && Enabled(s, a) && LookupsSucceed(s, a)
    ensures WaitsExact(Apply(s, a)) && GotOwns(Apply(s, a))
  {
    var s' := Apply(s, a);
    hide UsedExact, HoldersOk;
    forall t
      ensures WaitOf(s'.g, t) == Expected(PcOf(s', t))
      ensures PcOf(s', t).Got? ==> PcOf(s', t).m in s'.owner && s'.owner[PcOf(s', t).m] == t
    {
      assert WaitOf(s.g, t) == Expected(PcOf(s, t));
      assert t != a.t ==> PcOf(s', t) == PcOf(s, t);
    }
  }

  /** Every step keeps the invariant. */
  lemma StepInv(s: Sys, a: Step)
    requires Inv(s) && Enabled(s, a)
    ensures LookupsSucceed(s, a) && Inv(Apply(s, a))
  {
    LookupsAlwaysSucceed(s, a);
    UsedStep(s, a);
    HoldersStep(s, a);
    WaitsStep(s, a);
  }

  /** When after_unlock frees a lock record, no thread is recorded as waiting for it. */
  lemma FreedUnwanted(s: Sys, t: Tid)
    requires Inv(s) && PcOf(s, t).Rel? && PcOf(s, t).m in s.g.locks && s.g.locks[PcOf(s, t).m].used == 1
    ensures forall u :: WaitOf(s.g, u) != Some(PcOf(s, t).m)
  {
    var m := PcOf(s, t).m;
    assert Stakes(s, m) == 1 && t in Others(s, m);
    assert Others(s, m) == {t} by {
      assert |Others(s, m) - {t}| == |Others(s, m)| - 1;
      assert Others(s, m) - {t} == {};
    }
    forall u
      ensures WaitOf(s.g, u) != Some(m)
    {
      assert WaitOf(s.g, u) == Expected(PcOf(s, u));
      assert PcOf(s, u) == Wants(m) || PcOf(s, u) == Rel(m) ==> u in Others(s, m);
    }
  }

  // ---------------------------------------------------------------- runs

  /** The state after a run from s, if every step is enabled in its turn. */
  ghost function Run(s: Sys, steps: seq<Step>): Option<Sys>
    decreases |steps|
  {
    if steps == [] then Some(s)
    else if Enabled(s, steps[0]) && LookupsSucceed(s, steps[0]) then Run(Apply(s, steps[0]), steps[1..])
    else None
  }

  lemma {:induction false} RunInv(s: Sys, steps: seq<Step>)
    requires Inv(s)
    ensures Run(s, steps).Some? ==> Inv(Run(s, steps).value)
    decreases |steps|
  {
    if steps == [] || !Enabled(s, steps[0]) {
    } else {
      StepInv(s, steps[0]);
      RunInv(Apply(s, steps[0]), steps[1..]);
    }
  }

  // ---------------------------------------------------------------- alarms

  function Succ(i: nat, n: nat): nat
    requires i < n
  {
    if i + 1 == n then 0 else i + 1
  }

  /** A cycle of the recorded graph. */
  ghost predicate RecordedCycle(g: Graph, c: seq<Tid>) {
    |c| > 0 && forall i :: 0 <= i < |c| ==> Next(g, c[i]) == Some(c[Succ(i, |c|)])
  }

  /** t is blocked in the real lock call for a mutex that u really owns. */
  ghost predicate BlockedBy(s: Sys, t: Tid, u: Tid) {
    PcOf(s, t).Wants? && PcOf(s, t).m in s.owner && s.owner[PcOf(s, t).m] == u
  }

  ghost predicate RealDeadlock(s: Sys, c: seq<Tid>) {
    |c| > 0 && forall i :: 0 <= i < |c| ==> BlockedBy(s, c[i], c[Succ(i, |c|)])
  }

  /** In any state where the invariant holds, a recorded cycle is a real deadlock: every thread on it
      is really blocked on a mutex the next one really owns. */
  lemma AlarmIsReal(s: Sys, c: seq<Tid>)
    requires Inv(s) && RecordedCycle(s.g, c)
    ensures RealDeadlock(s, c)
  {
    forall i | 0 <= i < |c|
      ensures BlockedBy(s, c[i], c[Succ(i, |c|)])
    {
      var t, u := c[i], c[Succ(i, |c|)];
      assert Next(s.g, t) == Some(u) && Next(s.g, u).Some?;
      assert WaitOf(s.g, t) == Expected(PcOf(s, t)) && WaitOf(s.g, u) == Expected(PcOf(s, u));
      var m := PcOf(s, t).m;
      assert HolderOk(s, m, u);
    }
  }

  /** Soundness over all runs: whatever the interleaving, an alarm is never false. */
  lemma AlarmSound(steps: seq<Step>, c: seq<Tid>)
    requires Run(INIT, steps).Some? && RecordedCycle(Run(INIT, steps).value.g, c)
    ensures RealDeadlock(Run(INIT, steps).value, c)
  {
    InitInv();
    RunInv(INIT, steps);
    AlarmIsReal(Run(INIT, steps).value, c);
  }

  lemma DeadlockStable(s: Sys, a: Step, c: seq<Tid>)
    requires RealDeadlock(s, c) && Enabled(s, a) && LookupsSucceed(s, a)
    ensures RealDeadlock(Apply(s, a), c)
  {
    var s' := Apply(s, a);
    forall i | 0 <= i < |c|
      ensures BlockedBy(s', c[i], c[Succ(i, |c|)])
    {
      var j := Succ(i, |c|);
      assert BlockedBy(s, c[i], c[j]) && BlockedBy(s, c[j], c[Succ(j, |c|)]);
    }
  }

  /** The deadlock an alarm reports lasts for ever: no continuation of the run resolves it. */
  lemma {:induction false} DeadlockForever(s: Sys, steps: seq<Step>, c: seq<Tid>)
    requires RealDeadlock(s, c) && Run(s, steps).Some?
    ensures RealDeadlock(Run(s, steps).value, c)
    decreases |steps|
  {
    if steps == [] {
    } else {
      DeadlockStable(s, steps[0], c);
      DeadlockForever(Apply(s, steps[0]), steps[1..], c);
    }
  }
}
