/** Walks in the recorded graph: every thread waits for at most one other, so a walk from a thread is
    determined, and it either ends or runs into a cycle. */
module DeadlockScan {
  import opened Bytes
  import opened DeadlockSpec

  /** The thread n steps along the wait chain of t. */
  ghost function Walk(g: Graph, t: Tid, n: nat): Option<Tid> {
    if n == 0 then Some(t)
    else
      match Walk(g, t, n - 1)
      case None => None
      case Some(u) => Next(g, u)
  }

  ghost predicate OnCycle(g: Graph, t: Tid) {
    exists n :: n > 0 && Walk(g, t, n) == Some(t)
  }

  ghost predicate RunsIntoCycle(g: Graph, t: Tid) {
    exists i: nat, j: nat :: i < j && Walk(g, t, i).Some? && Walk(g, t, i) == Walk(g, t, j)
  }

  ghost predicate OnWalk(g: Graph, t: Tid, u: Tid) {
    exists n: nat :: Walk(g, t, n) == Some(u)
  }

  ghost predicate Ends(g: Graph, t: Tid) {
    exists n: nat :: Walk(g, t, n) == None
  }

  lemma {:induction false} WalkOn(g: Graph, t: Tid, i: nat, n: nat)
    requires Walk(g, t, i).Some?
    ensures Walk(g, t, i + n) == Walk(g, Walk(g, t, i).value, n)
    decreases n
  {
    if n == 0 {
    } else {
      WalkOn(g, t, i, n - 1);
    }
  }

  lemma {:induction false} WalkStays(g: Graph, t: Tid, n: nat, m: nat)
    requires Walk(g, t, n) == None && n <= m
    ensures Walk(g, t, m) == None
    decreases m - n
  {
    if n == m {
    } else {
      WalkStays(g, t, n, m - 1);
    }
  }

  /** A walk that repeats never ends, so the two outcomes exclude each other. */
  lemma {:induction false} RepeatsForever(g: Graph, t: Tid, i: nat, j: nat, n: nat)
    requires i < j && Walk(g, t, i).Some? && Walk(g, t, i) == Walk(g, t, j)
    ensures Walk(g, t, n).Some?
    decreases n
  {
    if n <= j {
      if Walk(g, t, n) == None {
        WalkStays(g, t, n, j);
      }
    } else {
      // n lies beyond j: the same thread is met j - i steps earlier
      WalkOn(g, t, j, n - j);
      WalkOn(g, t, i, n - j);
      RepeatsForever(g, t, i, j, i + (n - j));
    }
  }

  lemma EndsOrRepeats(g: Graph, t: Tid)
    ensures !(Ends(g, t) && RunsIntoCycle(g, t))
  {
    if RunsIntoCycle(g, t) {
      var i: nat, j: nat :| i < j && Walk(g, t, i).Some? && Walk(g, t, i) == Walk(g, t, j);
      forall n: nat
        ensures Walk(g, t, n).Some?
      {
        RepeatsForever(g, t, i, j, n);
      }
    }
  }

  /** Everything on a walk that ends has a walk that ends. */
  lemma EndsAlong(g: Graph, t: Tid, i: nat)
    requires Ends(g, t) && Walk(g, t, i).Some?
    ensures Ends(g, Walk(g, t, i).value)
  {
    var n: nat :| Walk(g, t, n) == None;
    if n < i {
      WalkStays(g, t, n, i);
      assert false;
    } else {
      WalkOn(g, t, i, n - i);
    }
  }

  lemma EndsOnWalk(g: Graph, t: Tid, u: Tid)
    requires Ends(g, t) && OnWalk(g, t, u)
    ensures Ends(g, u)
  {
    var n: nat :| Walk(g, t, n) == Some(u);
    EndsAlong(g, t, n);
  }

  lemma CycleRepeats(g: Graph, t: Tid)
    requires OnCycle(g, t)
    ensures RunsIntoCycle(g, t)
  {
    var n :| n > 0 && Walk(g, t, n) == Some(t);
    assert Walk(g, t, 0) == Walk(g, t, n);
  }

  /** A list of threads that is the beginning of the walk from t. */
  ghost predicate IsPath(g: Graph, t: Tid, path: seq<Tid>) {
    forall i :: 0 <= i < |path| ==> Walk(g, t, i) == Some(path[i])
  }

  lemma PathNext(g: Graph, t: Tid, path: seq<Tid>, i: nat)
    requires IsPath(g, t, path) && i < |path|
    ensures Walk(g, t, i + 1) == Next(g, path[i])
  {
  }

  /** A walk that comes back to its start spells out a cycle of the recorded graph. */
  lemma PathIsCycle(g: Graph, t: Tid, path: seq<Tid>)
    requires IsPath(g, t, path) && |path| > 0 && Next(g, path[|path| - 1]) == Some(t)
    ensures RecordedCycle(g, path)
  {
    forall i | 0 <= i < |path|
      ensures Next(g, path[i]) == Some(path[Succ(i, |path|)])
    {
      PathNext(g, t, path, i);
      if i + 1 == |path| {
        assert Walk(g, t, 0) == Some(path[0]);
      }
    }
  }

  /** Conversely every recorded cycle consists of threads on a cycle. */
  lemma CycleOnCycle(g: Graph, c: seq<Tid>)
    requires RecordedCycle(g, c)
    ensures OnCycle(g, c[0])
  {
    Around(g, c, |c| - 1);
    assert Walk(g, c[0], |c|) == Next(g, c[|c| - 1]);
  }

  lemma {:induction false} Around(g: Graph, c: seq<Tid>, i: nat)
    requires RecordedCycle(g, c) && i < |c|
    ensures Walk(g, c[0], i) == Some(c[i])
    decreases i
  {
    if i == 0 {
    } else {
      Around(g, c, i - 1);
      assert Next(g, c[i - 1]) == Some(c[Succ(i - 1, |c|)]);
    }
  }
}
