/** deadlock_detector.c on the heap: vertices and lock records that point to each other, the hooks
    that update them, and the detector's scan. The two linked lists are kept as sequences. */
module Deadlock {
  import opened Bytes
  import opened DeadlockSpec
  import opened DeadlockScan
  import opened DeadlockSchedule

  class Vertex {
    const tid: Tid
    var waitting: ResourceLock?
    var visited: bool

    constructor (tid: Tid)
      ensures this.tid == tid && waitting == null && !visited
    {
      this.tid := tid;
      waitting := null;
      visited := false;
    }
  }

  class ResourceLock {
    const lock: Mutex
    var holder: Vertex?
    var used: int

    constructor (mtx: Mutex)
      ensures lock == mtx && holder == null && used == 0
    {
      lock := mtx;
      holder := null;
      used := 0;
    }
  }

  /** The vertex list spells out who waits for what; no waitting pointer dangles. */
  ghost predicate VerticesOk(waits: map<Tid, Option<Mutex>>, vs: seq<Vertex>, ls: seq<ResourceLock>)
    reads vs`waitting
  {
    && (forall i, j :: 0 <= i < j < |vs| ==> vs[i].tid != vs[j].tid)
    && (forall v :: v in vs ==>
          && v.tid in waits
          && (v.waitting != null ==> v.waitting in ls)
          && waits[v.tid] == (if v.waitting == null then None else Some(v.waitting.lock)))
    && (forall t :: t in waits ==> exists v :: v in vs && v.tid == t)
  }

  /** The lock list spells out the lock records; every holder is a listed vertex. */
  ghost predicate LocksOk(recs: map<Mutex, LockRec>, vs: seq<Vertex>, ls: seq<ResourceLock>)
    reads ls`holder, ls`used
  {
    && (forall i, j :: 0 <= i < j < |ls| ==> ls[i].lock != ls[j].lock)
    && (forall l :: l in ls ==>
          && l.lock in recs
          && (l.holder != null ==> l.holder in vs)
          && recs[l.lock] == LockRec(if l.holder == null then None else Some(l.holder.tid), l.used))
    && (forall m :: m in recs ==> exists l :: l in ls && l.lock == m)
  }

  lemma OneVertex(waits: map<Tid, Option<Mutex>>, vs: seq<Vertex>, ls: seq<ResourceLock>, v: Vertex, w: Vertex)
    requires VerticesOk(waits, vs, ls) && v in vs && w in vs && v.tid == w.tid
    ensures v == w
  {
  }

  /** Writing one waitting pointer. */
  method SetWaitting(v: Vertex, l: ResourceLock?,
                     ghost waits: map<Tid, Option<Mutex>>, ghost vs: seq<Vertex>, ghost ls: seq<ResourceLock>)
    requires VerticesOk(waits, vs, ls) && v in vs && (l != null ==> l in ls)
    modifies v`waitting
    ensures VerticesOk(waits[v.tid := if l == null then None else Some(l.lock)], vs, ls)
  {
    v.waitting := l;
    forall w | w in vs && w.tid == v.tid
      ensures w == v
    {
    }
  }

  /** Writing the two fields of one lock record. */
  method SetRecord(l: ResourceLock, holder: Vertex?, used: int,
                   ghost recs: map<Mutex, LockRec>, ghost vs: seq<Vertex>, ghost ls: seq<ResourceLock>)
    requires LocksOk(recs, vs, ls) && l in ls && (holder != null ==> holder in vs)
    modifies l`holder, l`used
    ensures LocksOk(recs[l.lock := LockRec(if holder == null then None else Some(holder.tid), used)], vs, ls)
    ensures l.used == used
  {
    l.holder := holder;
    l.used := used;
  }

  ghost function Without(s: seq<ResourceLock>, i: nat): seq<ResourceLock>
    requires i < |s|
  {
    s[..i] + s[i + 1..]
  }

  lemma CutFacts(s: seq<ResourceLock>, i: nat)
    requires i < |s| && forall a, b :: 0 <= a < b < |s| ==> s[a].lock != s[b].lock
    ensures var r := Without(s, i);
            && (forall a, b :: 0 <= a < b < |r| ==> r[a].lock != r[b].lock)
            && (forall k :: k in r <==> k in s && k.lock != s[i].lock)
  {
    var r := Without(s, i);
    forall k
      ensures k in r <==> k in s && k.lock != s[i].lock
    {
      if k in s && k.lock != s[i].lock {
        var j :| 0 <= j < |s| && s[j] == k;
        assert k == if j < i then r[j] else r[j - 1];
      }
      if k in r {
        var j :| 0 <= j < |r| && r[j] == k;
        assert k == if j < i then s[j] else s[j + 1];
      }
    }
  }

  lemma CutVertices(waits: map<Tid, Option<Mutex>>, vs: seq<Vertex>, ls: seq<ResourceLock>, i: nat)
    requires VerticesOk(waits, vs, ls) && i < |ls|
    requires forall a, b :: 0 <= a < b < |ls| ==> ls[a].lock != ls[b].lock
    requires forall t :: t in waits ==> waits[t] != Some(ls[i].lock)
    ensures VerticesOk(waits, vs, Without(ls, i))
  {
    CutFacts(ls, i);
    hide Without;
  }

  lemma CutLocks(recs: map<Mutex, LockRec>, vs: seq<Vertex>, ls: seq<ResourceLock>, i: nat)
    requires LocksOk(recs, vs, ls) && i < |ls|
    ensures LocksOk(recs - {ls[i].lock}, vs, Without(ls, i))
  {
    CutFacts(ls, i);
    hide Without;
  }

  lemma OneVertexMore(waits: map<Tid, Option<Mutex>>, recs: map<Mutex, LockRec>,
                      vs: seq<Vertex>, ls: seq<ResourceLock>, v: Vertex)
    requires VerticesOk(waits, vs, ls) && LocksOk(recs, vs, ls) && v.tid !in waits && v.waitting == null
    ensures VerticesOk(waits[v.tid := None], vs + [v], ls) && LocksOk(recs, vs + [v], ls)
  {
    assert v in vs + [v];
  }

  lemma OneLockMore(waits: map<Tid, Option<Mutex>>, recs: map<Mutex, LockRec>,
                    vs: seq<Vertex>, ls: seq<ResourceLock>, l: ResourceLock)
    requires VerticesOk(waits, vs, ls) && LocksOk(recs, vs, ls) && l.lock !in recs && l.holder == null && l.used == 0
    ensures VerticesOk(waits, vs, ls + [l]) && LocksOk(recs[l.lock := LockRec(None, 0)], vs, ls + [l])
  {
    assert l in ls + [l];
  }

  class TaskGraph {
    var vertices: seq<Vertex>
    var locks: seq<ResourceLock>

    /** The recorded graph these objects spell out. */
    ghost var g: Graph

    ghost predicate Valid()
      reads this`vertices, this`locks, this`g, vertices`waitting, locks`holder, locks`used
    {
      VerticesOk(g.waits, vertices, locks) && LocksOk(g.locks, vertices, locks)
    }

    constructor ()
      ensures Valid() && g == EMPTY && vertices == [] && locks == []
    {
      vertices := [];
      locks := [];
      g := EMPTY;
    }

    method SearchVertex(tid: Tid) returns (v: Vertex?)
      requires Valid()
      ensures if tid in g.waits then v != null && v in vertices && v.tid == tid else v == null
      ensures Valid()
    {
      var i := 0;
      while i < |vertices|
        invariant 0 <= i <= |vertices|
        invariant forall j :: 0 <= j < i ==> vertices[j].tid != tid
      {
        if tid == vertices[i].tid {
          return vertices[i];
        }
        i := i + 1;
      }
      v := null;
    }

    method SearchLock(mtx: Mutex) returns (l: ResourceLock?)
      requires Valid()
      ensures if mtx in g.locks then l != null && l in locks && l.lock == mtx else l == null
      ensures Valid()
    {
      var i := 0;
      while i < |locks|
        invariant 0 <= i <= |locks|
        invariant forall j :: 0 <= j < i ==> locks[j].lock != mtx
      {
        if mtx == locks[i].lock {
          return locks[i];
        }
        i := i + 1;
      }
      l := null;
    }

    /** search_vertex, then add_vertex and add_vertex_to_graph when there is none. */
    method VertexFor(tid: Tid) returns (v: Vertex)
      requires Valid()
      modifies this`vertices, this`g
      ensures Valid() && v in vertices && v.tid == tid && old(vertices) <= vertices
      ensures g == old(g).(waits := old(g).waits[tid := WaitOf(old(g), tid)])
      ensures v in old(vertices) || fresh(v)
      ensures forall x :: x in vertices ==> x in old(vertices) || x == v
    {
      hide VerticesOk, LocksOk;
      var found := SearchVertex(tid);
      if found == null {
        v := new Vertex(tid);
        OneVertexMore(g.waits, g.locks, vertices, locks, v);
        vertices := vertices + [v];
        g := g.(waits := g.waits[tid := None]);
      } else {
        v := found;
        assert g.waits == g.waits[tid := WaitOf(g, tid)];
      }
    }

    method LockFor(mtx: Mutex) returns (l: ResourceLock)
      requires Valid()
      modifies this`locks, this`g
      ensures Valid() && l in locks && l.lock == mtx && old(locks) <= locks
      ensures var rec := if mtx in old(g).locks then old(g).locks[mtx] else LockRec(None, 0);
        g == old(g).(locks := old(g).locks[mtx := rec])
      ensures l in old(locks) || fresh(l)
      ensures forall x :: x in locks ==> x in old(locks) || x == l
    {
      hide VerticesOk, LocksOk;
      var found := SearchLock(mtx);
      if found == null {
        l := new ResourceLock(mtx);
        OneLockMore(g.waits, g.locks, vertices, locks, l);
        locks := locks + [l];
        g := g.(locks := g.locks[mtx := LockRec(None, 0)]);
      } else {
        l := found;
        assert g.locks == g.locks[mtx := g.locks[mtx]];
      }
    }

    /** Every entry of the lists was there before or has been allocated since. */
    twostate predicate Grown(vs: seq<Vertex>, ls: seq<ResourceLock>)
      reads this
    {
      fresh(set v | v in vertices && v !in vs) && fresh(set l | l in locks && l !in ls)
    }

    /** before_lock. */
    method BeforeLock(tid: Tid, mtx: Mutex)
      requires Valid()
      modifies this, vertices`waitting, locks`used, locks`holder
      ensures Valid() && g == DeadlockSpec.BeforeLock(old(g), tid, mtx)
      ensures Grown(old(vertices), old(locks))
    {
      hide Valid;
      var vtx := VertexFor(tid);
      var lock := LockFor(mtx);
      Link(vtx, lock);
      assert g == DeadlockSpec.BeforeLock(old(g), tid, mtx);
    }

    /** add_relation_before_lock. */
    method Link(vtx: Vertex, lock: ResourceLock)
      requires Valid() && vtx in vertices && lock in locks && lock.lock in g.locks
      modifies vtx`waitting, lock`used, lock`holder, this`g
      ensures Valid()
      ensures g == Graph(old(g).waits[vtx.tid := Some(lock.lock)],
                         old(g).locks[lock.lock := old(g).locks[lock.lock].(used := old(g).locks[lock.lock].used + 1)])
    {
      hide VerticesOk, LocksOk;
      LockRecord(lock);
      SetWaitting(vtx, lock, g.waits, vertices, locks);
      SetRecord(lock, lock.holder, lock.used + 1, g.locks, vertices, locks);
      g := Graph(g.waits[vtx.tid := Some(lock.lock)],
                 g.locks[lock.lock := g.locks[lock.lock].(used := g.locks[lock.lock].used + 1)]);
    }

    /** after_lock. Its lookups succeed whenever the hooks are called in order. */
    method AfterLock(tid: Tid, mtx: Mutex)
      requires Valid() && tid in g.waits && mtx in g.locks
      modifies this`g, vertices`waitting, locks`holder, locks`used
      ensures Valid() && g == DeadlockSpec.AfterLock(old(g), tid, mtx)
    {
      hide Valid;
      var vtx := SearchVertex(tid);
      var lock := SearchLock(mtx);
      BecomeHolder(vtx, lock);
    }

    lemma LockRecord(lock: ResourceLock)
      requires Valid() && lock in locks
      ensures lock.lock in g.locks && (lock.holder != null ==> lock.holder in vertices)
      ensures g.locks[lock.lock] == LockRec(if lock.holder == null then None else Some(lock.holder.tid), lock.used)
    {
    }

    /** become_holder_after_lock. */
    method BecomeHolder(vtx: Vertex, lock: ResourceLock)
      requires Valid() && vtx in vertices && lock in locks && vtx.tid in g.waits && lock.lock in g.locks
      modifies this`g, vtx`waitting, lock`holder, lock`used
      ensures Valid() && g == DeadlockSpec.AfterLock(old(g), vtx.tid, lock.lock)
    {
      hide VerticesOk, LocksOk;
      LockRecord(lock);
      SetRecord(lock, vtx, lock.used, g.locks, vertices, locks);
      SetWaitting(vtx, null, g.waits, vertices, locks);
      g := DeadlockSpec.AfterLock(g, vtx.tid, lock.lock);
    }

    /** dereference_after_unlock. */
    method Dereference(lock: ResourceLock)
      requires Valid() && lock in locks && lock.lock in g.locks
      modifies this`g, lock`holder, lock`used
      ensures Valid() && lock.used == old(g).locks[lock.lock].used - 1
      ensures g == old(g).(locks := old(g).locks[lock.lock := LockRec(None, old(g).locks[lock.lock].used - 1)])
    {
      hide VerticesOk, LocksOk;
      LockRecord(lock);
      SetRecord(lock, null, lock.used - 1, g.locks, vertices, locks);
      g := g.(locks := g.locks[lock.lock := LockRec(None, g.locks[lock.lock].used - 1)]);
    }

    /** after_unlock. The record is freed with its last user; nothing may point to it then. */
    method AfterUnlock(mtx: Mutex)
      requires Valid() && mtx in g.locks
      requires g.locks[mtx].used == 1 ==> forall t :: WaitOf(g, t) != Some(mtx)
      modifies this`g, this`locks, locks`holder, locks`used
      ensures Valid() && g == DeadlockSpec.AfterUnlock(old(g), mtx)
      ensures forall k :: k in locks ==> k in old(locks)
    {
      hide Valid;
      var lock := SearchLock(mtx);
      ghost var before := g;
      Dereference(lock);
      if lock.used == 0 {
        assert forall t :: WaitOf(g, t) == WaitOf(before, t);
        RemoveLock(lock);
        assert before.locks[mtx := LockRec(None, 0)] - {mtx} == before.locks - {mtx};
      }
    }

    /** Unlinks a record from the list, as the loop of after_unlock does. */
    method RemoveLock(lock: ResourceLock)
      requires Valid() && lock in locks && forall t :: WaitOf(g, t) != Some(lock.lock)
      modifies this`locks, this`g
      ensures Valid() && g == old(g).(locks := old(g).locks - {lock.lock})
      ensures forall k :: k in locks ==> k in old(locks)
    {
      hide Valid;
      var i := 0;
      while i < |locks| && locks[i] != lock
        invariant 0 <= i <= |locks| && locks == old(locks) && g == old(g) && Valid()
        invariant forall j :: 0 <= j < i ==> locks[j] != lock
      {
        i := i + 1;
      }
      Cut(i);
    }

    lemma Distinct()
      requires Valid()
      ensures forall a, b :: 0 <= a < b < |locks| ==> locks[a].lock != locks[b].lock
      ensures forall t :: t in g.waits ==> WaitOf(g, t) == g.waits[t]
    {
    }

    method Cut(i: nat)
      requires Valid() && i < |locks| && forall t :: WaitOf(g, t) != Some(locks[i].lock)
      modifies this`locks, this`g
      ensures Valid() && g == old(g).(locks := old(g).locks - {old(locks[i]).lock})
      ensures forall k :: k in locks ==> k in old(locks)
    {
      hide VerticesOk, LocksOk;
      Distinct();
      CutVertices(g.waits, vertices, locks, i);
      CutLocks(g.locks, vertices, locks, i);
      CutFacts(locks, i);
      ghost var gone := locks[i];
      locks := locks[..i] + locks[i + 1..];
      g := g.(locks := g.locks - {gone.lock});
    }

    /** What get_wait_vertex reads. */
    lemma NextIs(v: Vertex)
      requires Valid() && v in vertices
      ensures Next(g, v.tid) ==
              if v.waitting == null || v.waitting.holder == null then None else Some(v.waitting.holder.tid)
      ensures v.waitting != null ==> v.waitting in locks
      ensures v.waitting != null && v.waitting.holder != null ==> v.waitting.holder in vertices
    {
    }

    method GetWaitVertex(v: Vertex) returns (w: Vertex?)
      requires Valid() && v in vertices
      ensures Next(g, v.tid) == if w == null then None else Some(w.tid)
      ensures w != null ==> w in vertices
      ensures Valid()
    {
      NextIs(v);
      w := if v.waitting != null then v.waitting.holder else null;
    }

    method AllVertexUnvisited()
      requires Valid()
      modifies vertices`visited
      ensures Valid() && forall v :: v in vertices ==> !v.visited
    {
      hide Valid;
      var i := 0;
      while i < |vertices|
        invariant 0 <= i <= |vertices| && Valid()
        invariant forall j :: 0 <= j < i ==> !vertices[j].visited
      {
        vertices[i].visited := false;
        i := i + 1;
      }
    }

    /** search_cross: follow the wait chain and mark it. It stops at a marked vertex, which then lies
        on a cycle, or at the end of the chain. */
    method SearchCross(vtx: Vertex) returns (cross: Vertex?)
      requires Valid() && vtx in vertices && forall v :: v in vertices ==> !v.visited
      modifies vertices`visited
      ensures Valid()
      ensures cross != null <==> RunsIntoCycle(g, vtx.tid)
      ensures cross != null ==> cross in vertices && OnCycle(g, cross.tid)
      ensures cross == null ==>
                && Ends(g, vtx.tid) && vtx.visited
                && forall v :: v in vertices && v.visited ==> OnWalk(g, vtx.tid, v.tid)
    {
      hide Valid, Walk, OnCycle, RunsIntoCycle, Ends, Next, OnWalk;
      var cur := vtx;
      ghost var path: seq<Tid> := [];
      WalkStart(vtx.tid);
      ghost var todo := set v | v in vertices;
      while true
        invariant Valid() && cur in vertices
        invariant IsPath(g, vtx.tid, path) && Walk(g, vtx.tid, |path|) == Some(cur.tid)
        invariant forall v :: v in vertices ==> (v.visited <==> v.tid in path)
        invariant path != [] ==> path[0] == vtx.tid
        invariant forall v :: v in todo <==> v in vertices && !v.visited
        decreases todo
      {
        if cur.visited {
          cross := cur;
          Revisited(vtx.tid, path, cur.tid);
          return;
        }
        cur.visited := true;
        todo := todo - {cur};
        path := path + [cur.tid];
        Mark(cur, path);
        var next := GetWaitVertex(cur);
        StepTo(vtx.tid, path);
        if next == null {
          cross := null;
          PathEnds(vtx.tid, path);
          return;
        }
        cur := next;
      }
    }

    lemma WalkStart(t: Tid)
      ensures Walk(g, t, 0) == Some(t)
    {
    }

    lemma StepTo(t: Tid, path: seq<Tid>)
      requires IsPath(g, t, path) && |path| > 0
      ensures Walk(g, t, |path|) == Next(g, path[|path| - 1])
    {
    }

    lemma PathEnds(t: Tid, path: seq<Tid>)
      requires IsPath(g, t, path) && Walk(g, t, |path|) == None && |path| > 0 && path[0] == t
      ensures Ends(g, t) && !RunsIntoCycle(g, t)
      ensures forall u :: u in path ==> OnWalk(g, t, u)
    {
      EndsOrRepeats(g, t);
      forall u | u in path
        ensures OnWalk(g, t, u)
      {
        var i :| 0 <= i < |path| && path[i] == u;
        assert Walk(g, t, i) == Some(u);
      }
    }

    lemma Mark(cur: Vertex, path: seq<Tid>)
      requires Valid() && cur in vertices && cur.visited && |path| > 0 && path[|path| - 1] == cur.tid
      requires forall v :: v in vertices && v != cur ==> (v.visited <==> v.tid in path[..|path| - 1])
      ensures forall v :: v in vertices ==> (v.visited <==> v.tid in path)
    {
      forall v | v in vertices
        ensures v.visited <==> v.tid in path
      {
        if v.tid == cur.tid {
          OneVertex(g.waits, vertices, locks, v, cur);
        }
        assert path == path[..|path| - 1] + [cur.tid];
      }
    }

    lemma Revisited(t: Tid, path: seq<Tid>, c: Tid)
      requires IsPath(g, t, path) && Walk(g, t, |path|) == Some(c) && c in path
      ensures RunsIntoCycle(g, t) && OnCycle(g, c)
    {
      var i :| 0 <= i < |path| && path[i] == c;
      WalkOn(g, t, i, |path| - i);
      assert Walk(g, t, i) == Walk(g, t, |path|);
      assert Walk(g, c, |path| - i) == Some(c);
    }

    /** The scan of detector_routine. Vertices marked by a walk that found nothing are skipped; still
        it finds a cycle whenever the recorded graph has one. */
    method Scan() returns (cross: Vertex?)
      requires Valid()
      modifies vertices`visited
      ensures Valid()
      ensures cross != null ==> cross in vertices && OnCycle(g, cross.tid)
      ensures cross == null ==> forall t :: !OnCycle(g, t)
    {
      hide Valid, Walk, OnCycle, RunsIntoCycle, Ends, OnWalk;
      var i := 0;
      while i < |vertices|
        invariant 0 <= i <= |vertices| && Valid()
        invariant forall j :: 0 <= j < i ==> Ends(g, vertices[j].tid)
      {
        AllVertexUnvisited();
        cross := SearchCross(vertices[i]);
        if cross != null {
          return;
        }
        ghost var start, i0 := vertices[i].tid, i;
        while i < |vertices| && vertices[i].visited
          invariant 0 <= i <= |vertices| && Valid()
          invariant forall j :: 0 <= j < i ==> Ends(g, vertices[j].tid)
          invariant i >= i0 && (i == i0 ==> vertices[i].visited)
          invariant Ends(g, start) && forall v :: v in vertices && v.visited ==> OnWalk(g, start, v.tid)
          decreases |vertices| - i
        {
          EndsOnWalk(g, start, vertices[i].tid);
          i := i + 1;
        }
      }
      cross := null;
      forall t
        ensures !OnCycle(g, t)
      {
        NoneOnCycle(t);
      }
    }

    lemma NoneOnCycle(t: Tid)
      requires Valid() && forall j :: 0 <= j < |vertices| ==> Ends(g, vertices[j].tid)
      ensures !OnCycle(g, t)
    {
      if t in g.waits {
        assert Ends(g, t);
      } else {
        assert Walk(g, t, 1) == Next(g, t) == None;
        assert Ends(g, t);
      }
      EndsOrRepeats(g, t);
      if OnCycle(g, t) {
        CycleRepeats(g, t);
      }
    }

    lemma ReturnTime(t: Tid) returns (n: nat)
      requires OnCycle(g, t)
      ensures n > 0 && Walk(g, t, n) == Some(t)
    {
      n :| n > 0 && Walk(g, t, n) == Some(t);
    }

    /** print_cycle's walk: from a vertex on a cycle it comes back, having listed exactly a cycle. */
    method PrintCycle(cross: Vertex) returns (tids: seq<Tid>)
      requires Valid() && cross in vertices && OnCycle(g, cross.tid)
      ensures RecordedCycle(g, tids) && tids[0] == cross.tid
    {
      hide Valid, Walk, OnCycle, Next, RecordedCycle, VerticesOk, LocksOk;
      ghost var n := ReturnTime(cross.tid);
      WalkStart(cross.tid);
      tids := [];
      var vtx: Vertex? := cross;
      while true
        invariant vtx != null && vtx in vertices && |tids| < n && Valid()
        invariant tids != [] ==> tids[0] == cross.tid
        invariant IsPath(g, cross.tid, tids) && Walk(g, cross.tid, |tids|) == Some(vtx.tid)
        decreases n - |tids|
      {
        tids := tids + [vtx.tid];
        ghost var last := vtx.tid;
        vtx := GetWaitVertex(vtx);
        StepTo(cross.tid, tids);
        if vtx == null {
          WalkStays(g, cross.tid, |tids|, n);
          assert false;
          return;
        }
        if vtx == cross {
          PathIsCycle(g, cross.tid, tids);
          return;
        }
        if |tids| == n {
          OneVertex(g.waits, vertices, locks, vtx, cross);
        }
      }
    }

    /** One round of the detector: an alarm lists a cycle of the recorded graph, and there is one
        exactly when the recorded graph has a cycle. */
    method Detect() returns (alarm: Option<seq<Tid>>)
      requires Valid()
      modifies vertices`visited
      ensures Valid()
      ensures alarm.Some? ==> RecordedCycle(g, alarm.value)
      ensures alarm.None? ==> forall c :: !RecordedCycle(g, c)
    {
      var cross := Scan();
      if cross != null {
        var tids := PrintCycle(cross);
        alarm := Some(tids);
      } else {
        alarm := None;
        forall c
          ensures !RecordedCycle(g, c)
        {
          if RecordedCycle(g, c) {
            CycleOnCycle(g, c);
          }
        }
      }
    }
  
    lemma FreedIfLast(s: Sys, t: Tid)
      requires Inv(s) && PcOf(s, t).Rel? && PcOf(s, t).m in s.g.locks
      ensures s.g.locks[PcOf(s, t).m].used == 1 ==> forall u :: WaitOf(s.g, u) != Some(PcOf(s, t).m)
    {
      if s.g.locks[PcOf(s, t).m].used == 1 {
        FreedUnwanted(s, t);
      }
    }

    /** The bookkeeping part of one protocol step: what the pthread_mutex_lock and
        pthread_mutex_unlock hooks call. In every reachable state of the protocol the lookups and the
        freeing are safe, and the objects follow the recorded graph exactly. */
    method Perform(a: Step, s: Sys)
      requires Valid() && Inv(s) && s.g == g && Enabled(s, a)
      modifies this, vertices`waitting, locks`holder, locks`used
      ensures Valid() && LookupsSucceed(s, a) && g == Apply(s, a).g
      ensures Grown(old(vertices), old(locks))
    {
      hide VerticesOk, LocksOk, Inv;
      LookupsAlwaysSucceed(s, a);
      match a
      case Begin(t, m) => BeforeLock(t, m);
      case Acquire(_) =>
      case Finish(t) => AfterLock(t, PcOf(s, t).m);
      case Release(_, _) =>
      case Cleanup(t) =>
        FreedIfLast(s, t);
        AfterUnlock(PcOf(s, t).m);
    }

    /** The hooks carry out a whole run of the protocol, from any state whose recorded graph is this one. */
    method PerformRun(steps: seq<Step>, s: Sys)
      requires Valid() && Inv(s) && s.g == g && Run(s, steps).Some?
      modifies this, vertices`waitting, locks`holder, locks`used
      ensures Valid() && g == Run(s, steps).value.g
      ensures Grown(old(vertices), old(locks))
      decreases |steps|
    {
      hide VerticesOk, LocksOk, Inv;
      if steps != [] {
        StepInv(s, steps[0]);
        Perform(steps[0], s);
        PerformRun(steps[1..], Apply(s, steps[0]));
      }
    }

    /** A detector round after any run of the protocol: an alarm lists threads that really are in a
        deadlock, which no continuation of the run can resolve; without one, every real deadlock lost
        the record of an owner to a late after_unlock. */
    method DetectorRound(ghost steps: seq<Step>) returns (alarm: Option<seq<Tid>>)
      requires Valid() && Run(INIT, steps).Some? && Run(INIT, steps).value.g == g
      modifies vertices`visited
      ensures Valid()
      ensures alarm.Some? ==> Doomed(Run(INIT, steps).value, alarm.value)
      ensures alarm.None? ==> forall c :: RealDeadlock(Run(INIT, steps).value, c) ==> Overlooked(steps, c)
    {
      hide VerticesOk, LocksOk, Run, RealDeadlock, LateCleanup;
      alarm := Detect();
      ghost var s := Run(INIT, steps).value;
      if alarm.Some? {
        AlarmSound(steps, alarm.value);
        forall later | Run(s, later).Some?
          ensures RealDeadlock(Run(s, later).value, alarm.value)
        {
          DeadlockForever(s, later, alarm.value);
        }
      } else {
        forall c | RealDeadlock(s, c)
          ensures Overlooked(steps, c)
        {
          DeadlockSeen(steps, c);
        }
      }
    }
  }

  /** These threads are in a deadlock, and stay in it whatever happens next. */
  ghost predicate Doomed(s: Sys, c: seq<Tid>) {
    RealDeadlock(s, c) && forall later :: Run(s, later).Some? ==> RealDeadlock(Run(s, later).value, c)
  }

  /** A mutex on the cycle suffered a late after_unlock. */
  ghost predicate Overlooked(steps: seq<Step>, c: seq<Tid>)
    requires Run(INIT, steps).Some?
  {
    var s := Run(INIT, steps).value;
    exists i :: 0 <= i < |c| && PcOf(s, c[i]).Wants? && LateCleanup(INIT, steps, PcOf(s, c[i]).m)
  }

  /** Any run of the hooks from the initial state, then one round of the detector. */
  method RunAndDetect(steps: seq<Step>) returns (graph: TaskGraph, alarm: Option<seq<Tid>>)
    requires Run(INIT, steps).Some?
    ensures graph.Valid() && graph.g == Run(INIT, steps).value.g
    ensures alarm.Some? ==> Doomed(Run(INIT, steps).value, alarm.value)
    ensures alarm.None? ==> forall c :: RealDeadlock(Run(INIT, steps).value, c) ==> Overlooked(steps, c)
  {
    hide TaskGraph.Valid, Run, Doomed, Overlooked, RealDeadlock;
    InitInv();
    graph := new TaskGraph();
    graph.PerformRun(steps, INIT);
    alarm := graph.DetectorRound(steps);
  }
}
