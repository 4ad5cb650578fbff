/** The thread pool of ThreadPool.cpp as steps taken under its mutex. */
module ThreadPool {
  import opened Bytes

  const MIN_THREADS: nat := 4

  class Thread {
    var needToTerminate: bool

    constructor ()
      ensures !needToTerminate
    {
      needToTerminate := false;
    }
  }

  /** Where the accepted tasks are; a task is named by its place in the order of acceptance. */
  datatype Ledger = Ledger(accepted: nat, started: nat, running: map<Thread, nat>, finished: set<nat>)

  ghost predicate RunsSomewhere(l: Ledger, i: nat) {
    exists t :: t in l.running && l.running[t] == i
  }

  ghost predicate NoneLost(l: Ledger) {
    forall i: nat :: i < l.started && i !in l.finished ==> RunsSomewhere(l, i)
  }

  ghost predicate NoneTwice(l: Ledger) {
    && (forall t :: t in l.running ==> l.running[t] < l.started && l.running[t] !in l.finished)
    && (forall t, u :: t in l.running && u in l.running && l.running[t] == l.running[u] ==> t == u)
    && (forall i :: i in l.finished ==> i < l.started)
  }

  /** Every task that was started is either finished or running on exactly one thread. */
  ghost predicate Conserved(l: Ledger) {
    l.started <= l.accepted && NoneLost(l) && NoneTwice(l)
  }

  function Start(l: Ledger, t: Thread): Ledger {
    l.(started := l.started + 1, running := l.running[t := l.started])
  }

  function Finish(l: Ledger, t: Thread): Ledger
    requires t in l.running
  {
    l.(running := l.running - {t}, finished := l.finished + {l.running[t]})
  }

  lemma StartConserved(l: Ledger, t: Thread)
    requires Conserved(l) && t !in l.running && l.started < l.accepted
    ensures Conserved(Start(l, t)) && |Start(l, t).running| == |l.running| + 1
  {
    hide NoneTwice, RunsSomewhere;
    var m := Start(l, t);
    assert m.running.Keys == l.running.Keys + {t};
    StartNotTwice(l, t);
    forall i: nat | i < m.started && i !in m.finished
      ensures RunsSomewhere(m, i)
    {
      StartNotLost(l, t, i);
    }
  }

  lemma StartNotTwice(l: Ledger, t: Thread)
    requires NoneTwice(l) && t !in l.running
    ensures NoneTwice(Start(l, t))
  {
  }

  lemma StartNotLost(l: Ledger, t: Thread, i: nat)
    requires t !in l.running && (i == l.started || RunsSomewhere(l, i))
    ensures RunsSomewhere(Start(l, t), i)
  {
    var m := Start(l, t);
    if i == l.started {
      assert t in m.running && m.running[t] == i;
    } else {
      var u :| u in l.running && l.running[u] == i;
      assert u in m.running && m.running[u] == i;
    }
  }

  lemma FinishConserved(l: Ledger, t: Thread)
    requires Conserved(l) && t in l.running
    ensures Conserved(Finish(l, t)) && |Finish(l, t).running| == |l.running| - 1
  {
    hide RunsSomewhere;
    var m := Finish(l, t);
    assert l.running.Keys == m.running.Keys + {t};
    forall i: nat | i < m.started && i !in m.finished
      ensures RunsSomewhere(m, i)
    {
      FinishNotLost(l, t, i);
    }
  }

  lemma FinishNotLost(l: Ledger, t: Thread, i: nat)
    requires t in l.running && i != l.running[t] && RunsSomewhere(l, i)
    ensures RunsSomewhere(Finish(l, t), i)
  {
    var u :| u in l.running && l.running[u] == i;
    assert u in Finish(l, t).running;
  }

  /** The books agree with what the pool holds: tasks wait in the order in which they came. */
  ghost predicate Books(l: Ledger, log: seq<int>, taskList: seq<int>, busy: nat) {
    Conserved(l) && l.accepted == |log| && taskList == log[l.started..] && busy == |l.running|
  }

  lemma BooksAccept(l: Ledger, log: seq<int>, taskList: seq<int>, busy: nat, task: int)
    requires Books(l, log, taskList, busy)
    ensures Books(l.(accepted := l.accepted + 1), log + [task], taskList + [task], busy)
  {
  }

  lemma BooksStart(l: Ledger, log: seq<int>, taskList: seq<int>, busy: nat, t: Thread)
    requires Books(l, log, taskList, busy) && taskList != [] && t !in l.running
    ensures Books(Start(l, t), log, taskList[1..], busy + 1) && taskList[0] == log[l.started]
  {
    StartConserved(l, t);
  }

  lemma BooksFinish(l: Ledger, log: seq<int>, taskList: seq<int>, busy: nat, t: Thread)
    requires Books(l, log, taskList, busy) && t in l.running
    ensures busy > 0 && Books(Finish(l, t), log, taskList, busy - 1)
  {
    FinishConserved(l, t);
  }

  /** Every accepted task is in exactly one place: waiting, running on one thread, or finished. */
  lemma OnePlace(l: Ledger, log: seq<int>, taskList: seq<int>, busy: nat, i: nat)
    requires Books(l, log, taskList, busy) && i < |log|
    ensures i >= l.started ==> i - l.started < |taskList| && taskList[i - l.started] == log[i]
    ensures i >= l.started ==> i !in l.finished && !RunsSomewhere(l, i)
    ensures i < l.started ==> ((i in l.finished) != RunsSomewhere(l, i))
    ensures forall t, u :: t in l.running && u in l.running && l.running[t] == i == l.running[u] ==> t == u
  {
  }

  /** The threads marked for termination are exactly the first n. */
  ghost predicate MarkedPrefix(threads: seq<Thread>, n: nat)
    reads threads
  {
    n <= |threads| && forall i :: 0 <= i < |threads| ==> (threads[i].needToTerminate <==> i < n)
  }

  lemma Marks(threads: seq<Thread>, n: nat)
    requires MarkedPrefix(threads, n)
    ensures forall i :: 0 <= i < |threads| ==> (threads[i].needToTerminate <==> i < n)
  {
  }

  ghost predicate AllDistinct(threads: seq<Thread>) {
    forall i, j :: 0 <= i < j < |threads| ==> threads[i] != threads[j]
  }

  /** The threads of the list: the marked ones come first, and enough are not marked. */
  ghost predicate Crew(threads: seq<Thread>, marked: nat)
    reads threads
  {
    AllDistinct(threads) && MarkedPrefix(threads, marked) && |threads| - marked >= MIN_THREADS
  }

  ghost predicate Within(running: map<Thread, nat>, threads: seq<Thread>) {
    forall t :: t in running ==> t in threads
  }

  lemma WithinFinish(l: Ledger, t: Thread, threads: seq<Thread>)
    requires Within(l.running, threads) && t in l.running
    ensures Within(Finish(l, t).running, threads)
  {
    assert forall u :: u in Finish(l, t).running ==> u in l.running;
  }

  lemma MarkedFew(threads: seq<Thread>, marked: nat)
    requires Crew(threads, marked)
    ensures marked <= |threads|
  {
  }

  lemma CrewCut(threads: seq<Thread>, marked: nat, i: nat)
    requires Crew(threads, marked) && i < |threads| && threads[i].needToTerminate
    ensures i < marked && Crew(threads[..i] + threads[i + 1..], marked - 1) && AllDistinct(threads)
    ensures threads[i] !in threads[..i] + threads[i + 1..]
    ensures (threads[..i] + threads[i + 1..])[marked - 1..] == threads[marked..]
  {
    var r := threads[..i] + threads[i + 1..];
    assert i < marked;
    assert forall k :: 0 <= k < |r| ==> r[k] == threads[if k < i then k else k + 1];
    assert AllDistinct(r);
    assert MarkedPrefix(r, marked - 1);
  }

  lemma CrewRemove(threads: seq<Thread>, marked: nat, t: Thread)
    requires Crew(threads, marked) && t in threads && t.needToTerminate
    ensures var r := Without(threads, t);
      && marked > 0 && Crew(r, marked - 1) && |r| == |threads| - 1 && t !in r
      && r[marked - 1..] == threads[marked..] && (forall u :: u in r ==> u in threads)
      && forall i :: 0 <= i < |threads| && threads[i] == t ==> r == threads[..i] + threads[i + 1..]
  {
    hide Crew, AllDistinct;
    forall i | 0 <= i < |threads| && threads[i] == t
      ensures i < marked && Without(threads, t) == threads[..i] + threads[i + 1..]
    {
      CrewCut(threads, marked, i);
      WithoutAt(threads, t, i);
    }
    var i :| 0 <= i < |threads| && threads[i] == t;
    CrewCut(threads, marked, i);
  }

  lemma CrewGrow(threads: seq<Thread>, marked: nat, t: Thread, running: map<Thread, nat>)
    requires Crew(threads, marked) && t !in threads && !t.needToTerminate
    ensures Crew(threads + [t], marked)
    ensures Within(running, threads[marked..]) ==> Within(running, (threads + [t])[marked..])
  {
    assert (threads + [t])[marked..] == threads[marked..] + [t];
  }

  /** What happens next: a task arrives, or the thread at a place of the list gets the mutex. */
  datatype Step = Accept(task: int) | Wake(i: nat) | Done(i: nat)

  ghost function Arriving(steps: seq<Step>): seq<int> {
    if steps == [] then []
    else
      var last := steps[|steps| - 1];
      Arriving(steps[..|steps| - 1]) + if last.Accept? then [last.task] else []
  }

  lemma ArrivingNext(steps: seq<Step>, i: nat)
    requires i < |steps|
    ensures Arriving(steps[..i + 1]) == Arriving(steps[..i]) + if steps[i].Accept? then [steps[i].task] else []
  {
    assert steps[..i + 1][..i] == steps[..i];
  }

  /** How many threads there are to be when n are there. */
  function Grown(n: nat, busy: nat, waiting: nat, maxThreads: nat): nat {
    if busy >= n && waiting >= n / 2 then (if 2 * n < maxThreads then 2 * n else maxThreads) else n
  }

  /** How many of n threads are to be marked. */
  function Surplus(n: nat, busy: nat, waiting: nat): int {
    if waiting == 0 && busy == 0 then n - (if n / 2 < MIN_THREADS then MIN_THREADS else n / 2) else 0
  }

  // ---------------------------------------------------------------- the pool as a function of its steps

  /** What each thread is doing, by its place in the list: waiting, or working on a task. */
  datatype View = View(work: seq<Option<nat>>, marked: nat, waiting: seq<int>, started: nat, finished: set<nat>)

  predicate AllBusy(work: seq<Option<nat>>) {
    forall i :: 0 <= i < |work| ==> work[i] != None
  }

  predicate AllIdle(work: seq<Option<nat>>) {
    forall i :: 0 <= i < |work| ==> work[i] == None
  }

  function Idle(n: nat): seq<Option<nat>> {
    seq(n, _ => None)
  }

  /** A thread at place i that gets the mutex leaves if it is marked, or takes the oldest task. */
  ghost function AfterWake(v: View, i: nat, maxThreads: nat): View {
    if i >= |v.work| || v.work[i] != None then v
    else if i < v.marked then v.(work := v.work[..i] + v.work[i + 1..], marked := v.marked - 1)
    else if v.waiting == [] then v
    else
      var work := v.work[i := Some(v.started)];
      var n := |work|;
      var more := if AllBusy(work) && |v.waiting| - 1 >= n / 2 then (if 2 * n < maxThreads then n else maxThreads - n)
                  else 0;
      v.(work := work + Idle(if more < 0 then 0 else more), waiting := v.waiting[1..], started := v.started + 1)
  }

  /** A thread finishes its task; an idle pool marks its surplus. */
  ghost function AfterDone(v: View, i: nat): View {
    if i >= |v.work| || v.work[i] == None then v
    else
      var work := v.work[i := None];
      var n := |work|;
      var surplus := n - if n / 2 < 4 then 4 else n / 2;
      v.(work := work, finished := v.finished + {v.work[i].value},
         marked := if v.waiting == [] && AllIdle(work) && surplus > v.marked then surplus else v.marked)
  }

  /** The wake-up of a thread that takes a task, with m new threads. */
  lemma AfterTaking(v: View, i: nat, maxThreads: nat, m: nat)
    requires v.marked <= i < |v.work| <= maxThreads && v.work[i] == None && v.waiting != []
    requires var n := |v.work|;
      if AllBusy(v.work[i := Some(v.started)]) && |v.waiting| - 1 >= n / 2 then
        n + m == maxThreads <= 2 * n || n + m == 2 * n <= maxThreads
      else m == 0
    ensures AfterWake(v, i, maxThreads)
         == View(v.work[i := Some(v.started)] + Idle(m), v.marked, v.waiting[1..], v.started + 1, v.finished)
  {
    hide AllBusy, Idle;
  }

  ghost function After(v: View, step: Step, maxThreads: nat): View {
    match step
    case Accept(task) => v.(waiting := v.waiting + [task])
    case Wake(i) => AfterWake(v, i, maxThreads)
    case Done(i) => AfterDone(v, i)
  }

  ghost function AfterAll(v: View, steps: seq<Step>, maxThreads: nat): View
    decreases |steps|
  {
    if steps == [] then v else AfterAll(After(v, steps[0], maxThreads), steps[1..], maxThreads)
  }

  /** A run can be cut anywhere. */
  lemma {:induction false} RunsJoin(v: View, steps: seq<Step>, more: seq<Step>, maxThreads: nat)
    ensures AfterAll(v, steps + more, maxThreads) == AfterAll(AfterAll(v, steps, maxThreads), more, maxThreads)
    decreases |steps|
  {
    hide After;
    if steps == [] {
      assert steps + more == more;
    } else {
      assert (steps + more)[1..] == steps[1..] + more;
      RunsJoin(After(v, steps[0], maxThreads), steps[1..], more, maxThreads);
    }
  }

  function Work(threads: seq<Thread>, running: map<Thread, nat>): (w: seq<Option<nat>>)
    ensures |w| == |threads|
    ensures forall i :: 0 <= i < |w| ==>
      w[i] == if threads[i] in running then Some(running[threads[i]]) else None
  {
    seq(|threads|, i requires 0 <= i < |threads| => if threads[i] in running then Some(running[threads[i]]) else None)
  }

  ghost function Members(threads: seq<Thread>): set<Thread> {
    set t | t in threads
  }

  lemma {:induction false} MembersCount(threads: seq<Thread>)
    requires AllDistinct(threads)
    ensures |Members(threads)| == |threads|
  {
    if threads == [] {
    } else {
      MembersCount(threads[1..]);
      assert Members(threads) == {threads[0]} + Members(threads[1..]);
    }
  }

  lemma SameSize(a: set<Thread>, b: set<Thread>)
    requires a <= b && |a| >= |b|
    ensures a == b
  {
    assert b == a + (b - a) && |b| == |a| + |b - a|;
    assert b - a == {};
  }

  /** The count of busy threads decides whether all are busy or all idle. */
  lemma BusyCount(threads: seq<Thread>, running: map<Thread, nat>)
    requires AllDistinct(threads) && Within(running, threads)
    ensures |running| >= |threads| <==> AllBusy(Work(threads, running))
    ensures |running| == 0 <==> AllIdle(Work(threads, running))
  {
    var w, keys := Work(threads, running), running.Keys;
    MembersCount(threads);
    assert keys <= Members(threads) && |keys| == |running|;
    if |running| >= |threads| {
      SameSize(keys, Members(threads));
      assert forall i :: 0 <= i < |threads| ==> threads[i] in keys;
    }
    if AllBusy(w) {
      forall t | t in Members(threads)
        ensures t in keys
      {
        var i :| 0 <= i < |threads| && threads[i] == t;
        assert w[i] != None;
      }
      assert keys == Members(threads);
    }
    forall t | t in running
      ensures exists i :: 0 <= i < |w| && w[i] != None
    {
      var i :| 0 <= i < |threads| && threads[i] == t;
      assert w[i] != None;
    }
    assert AllIdle(w) ==> running == map[];
  }

  /** The list after a thread has left, taken a task, or finished one. */
  lemma WorkLeaves(threads: seq<Thread>, running: map<Thread, nat>, i: nat)
    requires i < |threads|
    ensures Work(threads[..i] + threads[i + 1..], running)
         == Work(threads, running)[..i] + Work(threads, running)[i + 1..]
  {
  }

  lemma WorkTaken(threads: seq<Thread>, more: seq<Thread>, running: map<Thread, nat>, i: nat, k: nat)
    requires AllDistinct(threads) && i < |threads| && Within(running, threads)
    requires forall t :: t in more ==> t !in threads
    ensures Work(threads + more, running[threads[i] := k]) == Work(threads, running)[i := Some(k)] + Idle(|more|)
  {
    var l := Work(threads + more, running[threads[i] := k]);
    var r := Work(threads, running)[i := Some(k)] + Idle(|more|);
    forall j | 0 <= j < |l|
      ensures l[j] == r[j]
    {
      if j >= |threads| {
        assert more[j - |threads|] in more;
      }
    }
  }

  lemma SplitDistinct(threads: seq<Thread>, n: nat)
    requires AllDistinct(threads) && n <= |threads|
    ensures forall t :: t in threads[n..] ==> t !in threads[..n]
  {
  }

  lemma WorkDone(threads: seq<Thread>, running: map<Thread, nat>, i: nat)
    requires AllDistinct(threads) && i < |threads|
    ensures Work(threads, running - {threads[i]}) == Work(threads, running)[i := None]
  {
  }

  /** Thread i alone works off n tasks. */
  ghost function Rounds(i: nat, n: nat): seq<Step> {
    if n == 0 then [] else [Wake(i), Done(i)] + Rounds(i, n - 1)
  }

  /** No task is stuck: one waiting thread that is not marked can finish all of them, in their order. */
  lemma {:induction false} TasksGetDone(v: View, i: nat, maxThreads: nat)
    requires v.marked <= i < |v.work| <= maxThreads && v.work[i] == None
    ensures var w := AfterAll(v, Rounds(i, |v.waiting|), maxThreads);
      && w.waiting == [] && w.started == v.started + |v.waiting|
      && forall k :: k in w.finished <==> k in v.finished || v.started <= k < v.started + |v.waiting|
    decreases |v.waiting|
  {
    var n := |v.waiting|;
    if n == 0 {
    } else {
      var steps := Rounds(i, n);
      assert steps[0] == Wake(i) && steps[1..][0] == Done(i) && steps[1..][1..] == Rounds(i, n - 1);
      var w := AfterWake(v, i, maxThreads);
      var u := AfterDone(w, i);
      assert w.work[i] == Some(v.started) && u.work[i] == None;
      if n == 1 {
        assert AfterAll(v, steps, maxThreads) == u;
      } else {
        TasksGetDone(u, i, maxThreads);
      }
    }
  }

  class Pool {
    const maxThreads: nat
    var taskList: seq<int>
    var threads: seq<Thread>
    var busy: nat
    /** All tasks ever accepted. */
    ghost var log: seq<int>
    /** Stands for what each thread is doing as well as for the history. */
    var ledger: Ledger
    ghost var marked: nat

    ghost predicate Valid()
      reads this, threads
    {
      && Books(ledger, log, taskList, busy)
      && Crew(threads, marked)
      && |threads| <= maxThreads
      && Within(ledger.running, threads[marked..])
    }

    /** The pool as a value. */
    ghost function Sight(): View
      reads this
    {
      View(Work(threads, ledger.running), marked, taskList, ledger.started, ledger.finished)
    }

    lemma Working()
      requires Valid()
      ensures AllDistinct(threads) && Within(ledger.running, threads) && |ledger.running| == busy
      ensures forall i :: 0 <= i < |threads| ==> (threads[i].needToTerminate <==> i < marked)
      ensures marked <= |threads| <= maxThreads
    {
    }

    /** The constructor and init: the minimum number of threads is started. */
    constructor (maxThreads: nat)
      requires maxThreads >= MIN_THREADS
      ensures Valid() && fresh(threads) && |threads| == 4 && log == [] && marked == 0
    {
      this.maxThreads := maxThreads;
      taskList, busy, log, marked := [], 0, [], 0;
      ledger := Ledger(0, 0, map[], {});
      threads := [];
      new;
      for i := 0 to MIN_THREADS
        invariant |threads| == i && fresh(threads) && AllDistinct(threads) && MarkedPrefix(threads, 0)
        invariant taskList == [] && busy == 0 && log == [] && marked == 0 && ledger == Ledger(0, 0, map[], {})
      {
        ghost var t := CreateAThread();
      }
    }

    /** createAThread */
    method CreateAThread() returns (ghost pth: Thread)
      modifies `threads
      ensures fresh(pth) && !pth.needToTerminate && threads == old(threads) + [pth]
    {
      var p := new Thread();
      threads := threads + [p];
      pth := p;
    }

    /** The loop of terminateSomeThread: the first threads of the list are marked. */
    method MarkFirst(terminateNum: nat)
      requires AllDistinct(threads) && MarkedPrefix(threads, marked) && terminateNum <= |threads|
      modifies threads
      ensures MarkedPrefix(threads, if terminateNum < marked then marked else terminateNum)
    {
      var i := 0;
      while i < terminateNum && i < |threads|
        invariant 0 <= i <= terminateNum
        invariant MarkedPrefix(threads, if i < marked then marked else i)
      {
        threads[i].needToTerminate := true;
        i := i + 1;
      }
    }

    /** terminateSomeThread */
    method TerminateSomeThread() returns (terminateNum: int)
      requires Valid()
      modifies threads, `marked
      ensures Valid() && old(marked) <= marked
      ensures terminateNum == Surplus(|threads|, busy, |taskList|)
      ensures marked == if terminateNum > old(marked) then terminateNum else old(marked)
      ensures forall i :: 0 <= i < |threads| ==> // an idle pool keeps half of its threads, and at least four
        (threads[i].needToTerminate <==>
           old(threads[i].needToTerminate)
           || (taskList == [] && busy == 0 && i < |threads| - 4 && i < |threads| - |threads| / 2))
    {
      hide Books, MarkedPrefix, AllDistinct, Within;
      Marks(threads, marked);
      terminateNum := 0;
      if taskList == [] && busy == 0 {
        NobodyAtWork();
        var needThreadNum := |threads| / 2;
        if needThreadNum < MIN_THREADS {
          needThreadNum := MIN_THREADS;
        }
        terminateNum := |threads| - needThreadNum;
        MarkFirst(terminateNum);
        marked := if terminateNum > marked then terminateNum else marked;
        Marks(threads, marked);
      }
    }

    lemma NobodyAtWork()
      requires Valid() && busy == 0
      ensures forall some :: Within(ledger.running, some)
    {
      assert ledger.running == map[];
    }

    /** activeSomeThread */
    method ActiveSomeThread() returns (needThreadNum: int)
      requires Valid()
      modifies `threads
      ensures Valid() && needThreadNum >= 0
      ensures |threads| == Grown(|old(threads)|, busy, |taskList|, maxThreads)
      ensures |threads| == |old(threads)| + needThreadNum && old(threads) <= threads
      ensures busy >= |old(threads)| && |taskList| >= |old(threads)| / 2 ==> // all are busy and many tasks wait
        |threads| == maxThreads <= 2 * |old(threads)| || |threads| == 2 * |old(threads)| <= maxThreads
      ensures busy < |old(threads)| || |taskList| < |old(threads)| / 2 ==> threads == old(threads)
      ensures fresh(set t | t in threads && t !in old(threads))
    {
      hide Books, Crew, Within;
      needThreadNum := 0;
      if busy >= |threads| && |taskList| >= |threads| / 2 {
        needThreadNum := |threads| * 2;
        if maxThreads < needThreadNum {
          needThreadNum := maxThreads;
        }
        needThreadNum := needThreadNum - |threads|;
        for i := 0 to needThreadNum
          invariant |threads| == |old(threads)| + i && old(threads) <= threads
          invariant Valid()
          invariant fresh(set t | t in threads && t !in old(threads))
        {
          ghost var was := threads;
          ghost var t := CreateAThread();
          CrewGrow(was, marked, t, ledger.running);
        }
      }
    }

    /** acceptATask */
    method AcceptATask(task: int)
      requires Valid()
      modifies `taskList, `log, `ledger
      ensures Valid() && log == old(log) + [task] && taskList == old(taskList) + [task]
      ensures ledger == old(ledger).(accepted := old(ledger).accepted + 1)
    {
      hide Books, Crew;
      BooksAccept(ledger, log, taskList, busy, task);
      taskList := taskList + [task];
      log := log + [task];
      ledger := ledger.(accepted := ledger.accepted + 1);
    }

    /** The condition under which a waiting thread goes on. */
    predicate Ready(t: Thread)
      reads this, t
    {
      taskList != [] || t.needToTerminate
    }

    /** An unmarked thread may take a task. */
    lemma Take(t: Thread)
      requires Valid() && t in threads && !t.needToTerminate
      ensures Within(Start(ledger, t).running, threads[marked..])
      ensures taskList != [] ==> ledger.started < |log|
    {
      var i :| 0 <= i < |threads| && threads[i] == t;
      assert threads[marked..][i - marked] == t;
    }

    /** The count of busy threads once thread i has taken a task. */
    lemma TakenCount(i: nat)
      requires Valid() && i < |threads| && threads[i] !in ledger.running && !threads[i].needToTerminate
      ensures var work := Work(threads, ledger.running)[i := Some(ledger.started)];
        busy + 1 >= |threads| <==> AllBusy(work)
    {
      hide Valid, AllBusy, AllDistinct;
      Working();
      var t := threads[i];
      var run := ledger.running[t := ledger.started];
      assert run.Keys == ledger.running.Keys + {t};
      WorkTaken(threads, [], ledger.running, i, ledger.started);
      var work := Work(threads, ledger.running)[i := Some(ledger.started)];
      assert threads + [] == threads && work + Idle(0) == work && |run| == |run.Keys| && |run.Keys| == busy + 1;
      assert Within(run, threads);
      BusyCount(threads, run);
    }

    lemma TakenSight(v: View, ts: seq<Thread>, run: map<Thread, nat>, i: nat)
      requires i < |ts| && v.work == Work(ts, run) && v.waiting != [] && AllDistinct(ts) && Within(run, ts)
      requires ts <= threads && forall t :: t in threads[|ts|..] ==> t !in ts
      requires ledger == Ledger(ledger.accepted, v.started + 1, run[ts[i] := v.started], v.finished)
      requires marked == v.marked && taskList == v.waiting[1..]
      ensures Sight() == View(v.work[i := Some(v.started)] + Idle(|threads| - |ts|), v.marked, v.waiting[1..],
                              v.started + 1, v.finished)
    {
      hide Idle, AllDistinct, Within;
      WorkTaken(ts, threads[|ts|..], run, i, v.started);
      assert threads == ts + threads[|ts|..];
    }

    /** The oldest task goes to a waiting thread; more threads are started if all are busy now. */
    method TakeTask(t: Thread) returns (task: int)
      requires Valid() && t in threads && t !in ledger.running && !t.needToTerminate && taskList != []
      modifies `threads, `taskList, `busy, `ledger
      ensures Valid() && ledger == Start(old(ledger), t)
      ensures old(ledger).started < |log| && task == log[old(ledger).started]
      ensures busy == old(busy) + 1 && taskList == old(taskList)[1..] && old(threads) <= threads
      ensures |threads| == Grown(|old(threads)|, busy, |taskList|, maxThreads)
      ensures busy >= |old(threads)| && |taskList| >= |old(threads)| / 2 ==>
        |threads| == maxThreads <= 2 * |old(threads)| || |threads| == 2 * |old(threads)| <= maxThreads
      ensures busy < |old(threads)| || |taskList| < |old(threads)| / 2 ==> threads == old(threads)
      ensures fresh(set u | u in threads && u !in old(threads))
    {
      hide Books, Crew, Within, Grown, Start;
      Take(t);
      BooksStart(ledger, log, taskList, busy, t);
      task := taskList[0];
      taskList := taskList[1..];
      busy := busy + 1;
      ledger := Start(ledger, t);
      var n := ActiveSomeThread();
    }

    /** The same, seen as a value: the thread is at place i of the list. */
    method TakeAt(t: Thread, ghost i: nat) returns (task: int)
      requires Valid() && t !in ledger.running && !t.needToTerminate && taskList != []
      requires i < |threads| && threads[i] == t
      modifies `threads, `taskList, `busy, `ledger
      ensures Valid() && ledger == Start(old(ledger), t) && Sight() == AfterWake(old(Sight()), i, maxThreads)
      ensures old(ledger).started < |log| && task == log[old(ledger).started]
      ensures busy == old(busy) + 1 && taskList == old(taskList)[1..] && old(threads) <= threads
      ensures |threads| == Grown(|old(threads)|, busy, |taskList|, maxThreads)
      ensures busy >= |old(threads)| && |taskList| >= |old(threads)| / 2 ==>
        |threads| == maxThreads <= 2 * |old(threads)| || |threads| == 2 * |old(threads)| <= maxThreads
      ensures busy < |old(threads)| || |taskList| < |old(threads)| / 2 ==> threads == old(threads)
      ensures fresh(set u | u in threads && u !in old(threads))
    {
      hide Valid, AllBusy, Grown, Idle, AfterWake, AllDistinct, Within, Work;
      Working();
      TakenCount(i);
      ghost var ts, run, v := threads, ledger.running, Sight();
      task := TakeTask(t);
      Extended(ts);
      TakenSight(v, ts, run, i);
      AfterTaking(v, i, maxThreads, |threads| - |ts|);
    }

    lemma Extended(ts: seq<Thread>)
      requires Valid() && ts <= threads
      ensures forall t :: t in threads[|ts|..] ==> t !in ts
    {
      assert threads[..|ts|] == ts;
      SplitDistinct(threads, |ts|);
    }

    /** m_thd_list.remove(t); before destruction the list never becomes empty. */
    method Remove(t: Thread)
      requires Valid() && t in threads && t.needToTerminate
      modifies `threads, `marked
      ensures Valid() && t !in threads && |threads| == |old(threads)| - 1 && marked == old(marked) - 1
      ensures |threads| >= MIN_THREADS && forall u :: u in threads ==> u in old(threads)
      ensures forall i :: 0 <= i < |old(threads)| && old(threads)[i] == t ==>
        threads == old(threads)[..i] + old(threads)[i + 1..]
    {
      hide Books, Within;
      CrewRemove(threads, marked, t);
      threads := Without(threads, t);
      marked := marked - 1;
    }

    /** A marked thread leaves the list, seen as a value. */
    method RemoveAt(t: Thread, ghost i: nat)
      requires Valid() && t !in ledger.running && t.needToTerminate && i < |threads| && threads[i] == t
      modifies `threads, `marked
      ensures Valid() && Sight() == AfterWake(old(Sight()), i, maxThreads)
      ensures t !in threads && |threads| == |old(threads)| - 1 && marked == old(marked) - 1
      ensures fresh(set u | u in threads && u !in old(threads))
    {
      hide Valid, AllBusy, Idle, AllDistinct, Within;
      Working();
      WorkLeaves(threads, ledger.running, i);
      Remove(t);
    }

    /** thread_function, from getting the mutex as a waiting thread to giving it up; i is its place in the list. */
    method WakeUp(t: Thread, ghost i: nat) returns (task: int)
      requires Valid() && t !in ledger.running && Ready(t) && i < |threads| && threads[i] == t
      modifies `threads, `taskList, `busy, `ledger, `marked
      ensures Valid() && log == old(log) && Sight() == AfterWake(old(Sight()), i, maxThreads)
      ensures t.needToTerminate ==> ledger == old(ledger) && taskList == old(taskList) && busy == old(busy)
      ensures t.needToTerminate ==> t !in threads && |threads| == |old(threads)| - 1 && marked == old(marked) - 1
      ensures !t.needToTerminate ==> old(ledger).started < |log| && task == log[old(ledger).started]
      ensures !t.needToTerminate ==> ledger == Start(old(ledger), t)
      ensures !t.needToTerminate ==> old(threads) <= threads && marked == old(marked)
      ensures !t.needToTerminate ==> busy == old(busy) + 1 && taskList == old(taskList)[1..]
      ensures !t.needToTerminate ==> |threads| == Grown(|old(threads)|, busy, |taskList|, maxThreads)
      ensures !t.needToTerminate && busy >= |old(threads)| && |taskList| >= |old(threads)| / 2 ==>
        |threads| == maxThreads <= 2 * |old(threads)| || |threads| == 2 * |old(threads)| <= maxThreads
      ensures !t.needToTerminate && (busy < |old(threads)| || |taskList| < |old(threads)| / 2) ==>
        threads == old(threads)
      ensures fresh(set u | u in threads && u !in old(threads))
    {
      hide Valid, Grown, Start, Sight, AfterWake;
      if t.needToTerminate {
        task := 0;
        RemoveAt(t, i);
      } else {
        task := TakeAt(t, i);
      }
    }

    lemma DoneCount(i: nat)
      requires Valid() && i < |threads| && threads[i] in ledger.running
      ensures busy == 1 <==> AllIdle(Work(threads, ledger.running)[i := None])
    {
      hide Valid, AllIdle, AllDistinct;
      Working();
      var t := threads[i];
      var run := ledger.running - {t};
      assert ledger.running.Keys == run.Keys + {t};
      WorkDone(threads, ledger.running, i);
      assert Within(run, threads);
      BusyCount(threads, run);
    }

    /** thread_function, from getting the mutex back after a task to waiting again. */
    method FinishTask(t: Thread)
      requires Valid() && t in ledger.running
      modifies threads, `busy, `ledger, `marked
      ensures Valid() && log == old(log) && ledger == Finish(old(ledger), t)
      ensures var n := Surplus(|threads|, old(busy) - 1, |taskList|);
        marked == if n > old(marked) then n else old(marked)
      ensures busy == old(busy) - 1
      ensures forall i :: 0 <= i < |threads| ==>
        (threads[i].needToTerminate <==>
           old(threads[i].needToTerminate)
           || (taskList == [] && busy == 0 && i < |threads| - 4 && i < |threads| - |threads| / 2))
    {
      hide Books, Crew, Within, Surplus, Finish;
      BooksFinish(ledger, log, taskList, busy, t);
      MarkedFew(threads, marked);
      WithinFinish(ledger, t, threads[marked..]);
      busy := busy - 1;
      ledger := Finish(ledger, t);
      var n := TerminateSomeThread();
    }

    /** The same, seen as a value: the thread is at place i of the list. */
    method FinishAt(t: Thread, ghost i: nat)
      requires Valid() && t in ledger.running && i < |threads| && threads[i] == t
      modifies threads, `busy, `ledger, `marked
      ensures Valid() && log == old(log) && ledger == Finish(old(ledger), t)
      ensures Sight() == AfterDone(old(Sight()), i)
    {
      hide Valid, AllIdle;
      Working();
      DoneCount(i);
      WorkDone(threads, ledger.running, i);
      FinishTask(t);
    }

    /** One step of the schedule; a step that is not possible now is skipped. */
    method Perform(step: Step)
      requires Valid()
      modifies this, threads
      ensures Valid() && log == old(log) + if step.Accept? then [step.task] else []
      ensures Sight() == After(old(Sight()), step, maxThreads)
      ensures old(ledger).started <= ledger.started && old(ledger).finished <= ledger.finished
      ensures forall i :: 0 <= i < |threads| ==> threads[i] in old(threads) || fresh(threads[i])
      ensures step.Accept? ==> taskList == old(taskList) + [step.task]
      ensures step.Wake? && step.i < |old(threads)| && old(threads[step.i] !in ledger.running) ==>
        var t := old(threads)[step.i];
        if old(t.needToTerminate) then t !in threads && ledger == old(ledger)
        else if old(taskList) != [] then
          && t in ledger.running && ledger.running[t] == old(ledger).started && taskList == old(taskList)[1..]
          && ledger.started == old(ledger).started + 1
        else ledger == old(ledger)
      ensures step.Done? && step.i < |old(threads)| && old(threads[step.i] in ledger.running) ==>
        var t := old(threads)[step.i];
        t !in ledger.running && ledger.finished == old(ledger).finished + {old(ledger).running[t]}
    {
      hide Valid;
      Working();
      match step
      case Accept(task) =>
        AcceptATask(task);
      case Wake(i) =>
        if i < |threads| && threads[i] !in ledger.running && Ready(threads[i]) {
          var task := WakeUp(threads[i], i);
        }
      case Done(i) =>
        if i < |threads| && threads[i] in ledger.running {
          FinishAt(threads[i], i);
        }
    }

    /**
     * Any interleaving of arriving tasks and threads, from a fresh pool or any state reached from one: the pool ends
     * where the steps take it as a value.
     */
    method Run(steps: seq<Step>)
      requires Valid()
      modifies this, threads
      ensures Valid() && log == old(log) + Arriving(steps)
      ensures Sight() == AfterAll(old(Sight()), steps, maxThreads)
      ensures old(ledger).started <= ledger.started && old(ledger).finished <= ledger.finished
    {
      hide Valid, Sight, After;
      assert steps[..0] == [];
      for i := 0 to |steps|
        invariant Valid() && log == old(log) + Arriving(steps[..i])
        invariant Sight() == AfterAll(old(Sight()), steps[..i], maxThreads)
        invariant old(ledger).started <= ledger.started && old(ledger).finished <= ledger.finished
        invariant forall i :: 0 <= i < |threads| ==> threads[i] in old(threads) || fresh(threads[i])
      {
        ArrivingNext(steps, i);
        RunsJoin(old(Sight()), steps[..i], [steps[i]], maxThreads);
        assert steps[..i + 1] == steps[..i] + [steps[i]] && [steps[i]][1..] == [];
        Perform(steps[i]);
      }
      assert steps[..|steps|] == steps;
    }
  }

  /** std::list::remove, on a list that holds the element once. */
  function Without(threads: seq<Thread>, t: Thread): (r: seq<Thread>) {
    if threads == [] then []
    else if threads[0] == t then Without(threads[1..], t)
    else [threads[0]] + Without(threads[1..], t)
  }

  lemma {:induction false} WithoutAt(threads: seq<Thread>, t: Thread, i: nat)
    requires AllDistinct(threads) && i < |threads| && threads[i] == t
    ensures Without(threads, t) == threads[..i] + threads[i + 1..]
  {
    if i == 0 {
      WithoutNone(threads[1..], t);
    } else {
      WithoutAt(threads[1..], t, i - 1);
      assert threads[1..][..i - 1] == threads[1..i];
    }
  }

  lemma {:induction false} WithoutNone(threads: seq<Thread>, t: Thread)
    requires t !in threads
    ensures Without(threads, t) == threads
  {
    if threads == [] {
    } else {
      WithoutNone(threads[1..], t);
    }
  }
}
