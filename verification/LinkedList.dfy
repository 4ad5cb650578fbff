/** Singly linked lists as in linkedTest.cpp: the two-pointer cycle test, the crossing test and in-place reversal. */
module LinkedList {
  import opened Sequences

  class LinkNode {
    var next: LinkNode?

    constructor ()
      ensures next == null
    {
      next := null;
    }
  }

  /** A finite heap: every link stays inside. */
  ghost predicate Closed(s: set<LinkNode>)
    reads s
  {
    forall n :: n in s && n.next != null ==> n.next in s
  }

  /** The node reached after i links, or null once the chain has ended. */
  ghost function Nth(s: set<LinkNode>, h: LinkNode?, i: nat): (r: LinkNode?)
    requires Closed(s) && (h == null || h in s)
    reads s
    ensures r == null || r in s
  {
    if i == 0 then h
    else
      var p := Nth(s, h, i - 1);
      if p == null then null else p.next
  }

  ghost predicate Revisits(s: set<LinkNode>, h: LinkNode?, i: nat, j: nat)
    requires Closed(s) && (h == null || h in s)
    reads s
  {
    i < j && Nth(s, h, i) != null && Nth(s, h, i) == Nth(s, h, j)
  }

  /** The chain from h comes back to a node it has passed. */
  ghost predicate Looped(s: set<LinkNode>, h: LinkNode?)
    requires Closed(s) && (h == null || h in s)
    reads s
  {
    exists i: nat, j: nat :: Revisits(s, h, i, j)
  }

  lemma {:induction false} NthAdd(s: set<LinkNode>, h: LinkNode?, i: nat, j: nat)
    requires Closed(s) && (h == null || h in s)
    ensures Nth(s, h, i + j) == Nth(s, Nth(s, h, i), j)
    decreases j
  {
    if j == 0 {
    } else {
      NthAdd(s, h, i, j - 1);
    }
  }

  lemma {:induction false} NullStays(s: set<LinkNode>, h: LinkNode?, i: nat, j: nat)
    requires Closed(s) && (h == null || h in s) && i <= j && Nth(s, h, i) == null
    ensures Nth(s, h, j) == null
    decreases j
  {
    if i == j {
    } else {
      NullStays(s, h, i, j - 1);
    }
  }

  /** After a revisit the chain is periodic. */
  lemma {:induction false} Periodic(s: set<LinkNode>, h: LinkNode?, i: nat, j: nat, k: nat, m: nat)
    requires Closed(s) && (h == null || h in s) && Revisits(s, h, i, j) && i <= k
    ensures Nth(s, h, k) == Nth(s, h, k + m * (j - i))
    decreases m
  {
    hide Closed, Nth, Revisits;
    if m == 0 {
    } else {
      Periodic(s, h, i, j, k, m - 1);
      Multiple(m, j - i);
      OnePeriod(s, h, i, j, k + (m - 1) * (j - i));
    }
  }

  lemma Multiple(m: nat, d: int)
    requires m > 0
    ensures m * d == (m - 1) * d + d && (d >= 0 ==> (m - 1) * d >= 0)
  {
  }

  lemma OnePeriod(s: set<LinkNode>, h: LinkNode?, i: nat, j: nat, k: int)
    requires Closed(s) && (h == null || h in s) && Revisits(s, h, i, j)
    ensures j > i && (i <= k ==> Nth(s, h, k) == Nth(s, h, k + (j - i)))
  {
    if i <= k {
      NthAdd(s, h, i, k - i);
      NthAdd(s, h, j, k - i);
      assert i + (k - i) == k && j + (k - i) == k + (j - i);
    }
  }

  lemma LoopedNeverEnds(s: set<LinkNode>, h: LinkNode?, k: nat)
    requires Closed(s) && (h == null || h in s) && Nth(s, h, k) == null
    ensures !Looped(s, h)
  {
    forall i: nat, j: nat
      ensures !Revisits(s, h, i, j)
    {
      if Revisits(s, h, i, j) {
        FarBeyond(s, h, i, j, k);
      }
    }
  }

  lemma FarBeyond(s: set<LinkNode>, h: LinkNode?, i: nat, j: nat, k: nat)
    requires Closed(s) && (h == null || h in s) && Revisits(s, h, i, j)
    ensures Nth(s, h, k) != null
  {
    hide Closed, Nth;
    Periodic(s, h, i, j, i, k);
    AtLeast(k, j - i);
    if Nth(s, h, k) == null {
      NullStays(s, h, k, i + k * (j - i));
    }
  }

  lemma AtLeast(k: nat, d: nat)
    requires d > 0
    ensures k * d >= k
  {
    assert k * d == k + k * (d - 1);
  }

  // ---------------------------------------------------------------- pigeonhole

  lemma {:induction false} Distinct(q: seq<LinkNode>, s: set<LinkNode>)
    requires forall i :: 0 <= i < |q| ==> q[i] in s
    requires forall i, j :: 0 <= i < j < |q| ==> q[i] != q[j]
    ensures |q| <= |s|
  {
    if q == [] {
    } else {
      var last := q[|q| - 1];
      Distinct(q[..|q| - 1], s - {last});
    }
  }

  ghost function Chain(s: set<LinkNode>, h: LinkNode?, n: nat): (q: seq<LinkNode>)
    requires Closed(s) && (h == null || h in s) && forall k: nat :: k < n ==> Nth(s, h, k) != null
    reads s
    ensures |q| == n && forall k :: 0 <= k < n ==> q[k] == Nth(s, h, k)
  {
    if n == 0 then [] else Chain(s, h, n - 1) + [Nth(s, h, n - 1)]
  }

  /** A chain with more nodes than the heap has visited some node twice. */
  lemma TooLong(s: set<LinkNode>, h: LinkNode?) returns (i: nat, j: nat)
    requires Closed(s) && (h == null || h in s) && Nth(s, h, |s|) != null
    ensures Revisits(s, h, i, j) && j <= |s|
  {
    forall k: nat | k <= |s|
      ensures Nth(s, h, k) != null
    {
      if Nth(s, h, k) == null {
        NullStays(s, h, k, |s|);
      }
    }
    var q := Chain(s, h, |s| + 1);
    if forall a, b :: 0 <= a < b < |q| ==> q[a] != q[b] {
      Distinct(q, s);
      assert false;
    }
    i, j :| 0 <= i < j < |q| && q[i] == q[j];
  }

  /** If the chain does not end, the two pointers meet within as many turns as the heap has nodes. */
  lemma MustMeet(s: set<LinkNode>, h: LinkNode?) returns (k: nat)
    requires Closed(s) && (h == null || h in s) && Nth(s, h, |s|) != null
    ensures k < |s| && Nth(s, h, k) == Nth(s, h, 2 * k + 1)
  {
    var i, j := TooLong(s, h);
    var d := j - i;
    var m := i / d + 1;
    k := m * d - 1;
    assert i == i / d * d + i % d;
    assert m * d == i / d * d + d;
    Periodic(s, h, i, j, k, m);
    assert k + m * d == 2 * k + 1;
  }

  lemma Start(s: set<LinkNode>, h: LinkNode?)
    requires Closed(s) && (h == null || h in s)
    ensures Nth(s, h, 0) == h
  {
  }

  lemma Next(s: set<LinkNode>, h: LinkNode?, i: nat)
    requires Closed(s) && (h == null || h in s) && Nth(s, h, i) != null
    ensures Nth(s, h, i + 1) == Nth(s, h, i).next
  {
  }

  // ---------------------------------------------------------------- isListLooped

  lemma Meeting(s: set<LinkNode>, h: LinkNode?, i: nat, j: nat)
    requires Closed(s) && (h == null || h in s) && i < j && Nth(s, h, i) != null && Nth(s, h, i) == Nth(s, h, j)
    ensures Looped(s, h)
  {
    assert Revisits(s, h, i, j);
  }

  lemma TwoLinks(s: set<LinkNode>, h: LinkNode?, i: nat)
    requires Closed(s) && (h == null || h in s) && Nth(s, h, i) != null
    ensures var n := Nth(s, h, i).next; Nth(s, h, i + 2) == if n == null then null else n.next
  {
    assert Nth(s, h, i + 1) == Nth(s, h, i).next;
  }

  method IsListLooped(h: LinkNode?, ghost s: set<LinkNode>) returns (looped: bool)
    requires Closed(s) && (h == null || h in s)
    ensures looped == Looped(s, h)
  {
    hide Nth, Looped;
    Start(s, h);
    if h == null {
      LoopedNeverEnds(s, h, 0);
      return false;
    }
    Next(s, h, 0);
    var slow: LinkNode? := h;
    var fast := h.next;
    ghost var i: nat := 0;
    while slow != null && fast != null
      invariant slow == Nth(s, h, i) && fast == Nth(s, h, 2 * i + 1)
      invariant i <= |s| && forall k: nat :: k < i ==> Nth(s, h, k) != Nth(s, h, 2 * k + 1)
      decreases |s| - i
    {
      if slow == fast {
        Meeting(s, h, i, 2 * i + 1);
        return true;
      }
      if i == |s| {
        var k := MustMeet(s, h);
        assert false;
      }
      Next(s, h, i);
      TwoLinks(s, h, 2 * i + 1);
      slow := slow.next;
      fast := if fast.next != null then fast.next.next else fast.next;
      i := i + 1;
    }
    LoopedNeverEnds(s, h, if slow == null then i else 2 * i + 1);
    return false;
  }

  // ---------------------------------------------------------------- isListCrossed

  /** The chain from h has exactly n nodes. */
  ghost predicate Length(s: set<LinkNode>, h: LinkNode?, n: nat)
    requires Closed(s) && (h == null || h in s)
    reads s
  {
    Nth(s, h, n) == null && forall k: nat :: k < n ==> Nth(s, h, k) != null
  }

  method CountListNodeNum(h: LinkNode?, ghost s: set<LinkNode>) returns (cnt: nat)
    requires Closed(s) && (h == null || h in s) && !Looped(s, h)
    ensures Length(s, h, cnt)
  {
    cnt := 0;
    var p := h;
    while p != null
      invariant p == Nth(s, h, cnt) && cnt <= |s|
      invariant forall k: nat :: k < cnt ==> Nth(s, h, k) != null
      decreases |s| - cnt
    {
      if cnt == |s| {
        var i, j := TooLong(s, h);
        assert false;
      }
      p := p.next;
      cnt := cnt + 1;
    }
  }

  method GetNthNode(h: LinkNode?, n: nat, ghost s: set<LinkNode>) returns (p: LinkNode?)
    requires Closed(s) && (h == null || h in s)
    ensures p == Nth(s, h, n)
  {
    var i: nat := 0;
    p := h;
    while p != null && i < n
      invariant i <= n && p == Nth(s, h, i)
    {
      p := p.next;
      i := i + 1;
    }
    if p == null {
      NullStays(s, h, i, n);
    }
  }

  /** Position j of the second chain carries the node at position i of the first. */
  ghost predicate SharedAt(s: set<LinkNode>, h1: LinkNode?, h2: LinkNode?, i: nat, j: nat)
    requires Closed(s) && (h1 == null || h1 in s) && (h2 == null || h2 in s)
    reads s
  {
    Nth(s, h1, i) != null && Nth(s, h1, i) == Nth(s, h2, j)
  }

  /** A shared node has the same number of nodes behind it on both chains. */
  lemma Aligned(s: set<LinkNode>, h1: LinkNode?, h2: LinkNode?, n1: nat, n2: nat, i: nat, j: nat)
    requires Closed(s) && (h1 == null || h1 in s) && (h2 == null || h2 in s)
    requires Length(s, h1, n1) && Length(s, h2, n2) && SharedAt(s, h1, h2, i, j)
    ensures i < n1 && j < n2 && n1 - i == n2 - j
  {
    Before(s, h1, n1, i);
    Before(s, h2, n2, j);
    NthAdd(s, h1, i, n1 - i);
    NthAdd(s, h2, j, n1 - i);
    NthAdd(s, h2, j, n2 - j);
    NthAdd(s, h1, i, n2 - j);
    Before(s, h1, n1, i + (n2 - j));
    Before(s, h2, n2, j + (n1 - i));
  }

  lemma Before(s: set<LinkNode>, h: LinkNode?, n: nat, i: nat)
    requires Closed(s) && (h == null || h in s) && Length(s, h, n)
    ensures i < n <==> Nth(s, h, i) != null
  {
    if i >= n {
      NullStays(s, h, n, i);
    }
  }

  /** isListCrossed: the first node that two ending chains share, or null when they share none. */
  method IsListCrossed(head1: LinkNode?, head2: LinkNode?, ghost s: set<LinkNode>)
    returns (r: LinkNode?, ghost i: nat, ghost j: nat)
    requires Closed(s) && (head1 == null || head1 in s) && (head2 == null || head2 in s)
    requires !Looped(s, head1) && !Looped(s, head2)
    ensures r == null ==> forall a: nat, b: nat :: !SharedAt(s, head1, head2, a, b)
    ensures r != null ==> SharedAt(s, head1, head2, i, j) && r == Nth(s, head1, i)
    ensures r != null ==> forall a: nat, b: nat :: a < i || b < j ==> !SharedAt(s, head1, head2, a, b)
  {
    hide Nth, Closed;
    var h1, h2 := head1, head2;
    var nodeNum1 := CountListNodeNum(h1, s);
    var nodeNum2 := CountListNodeNum(h2, s);
    i, j := 0, 0;
    if nodeNum1 > nodeNum2 {
      i := nodeNum1 - nodeNum2;
      h1 := GetNthNode(h1, nodeNum1 - nodeNum2, s);
      Start(s, head2);
    } else {
      j := nodeNum2 - nodeNum1;
      h2 := GetNthNode(h2, nodeNum2 - nodeNum1, s);
      Start(s, head1);
    }
    forall a: nat, b: nat | SharedAt(s, head1, head2, a, b)
      ensures a < nodeNum1 && nodeNum1 - a == nodeNum2 - b
    {
      Aligned(s, head1, head2, nodeNum1, nodeNum2, a, b);
    }
    while h1 != null && h2 != null
      invariant h1 == Nth(s, head1, i) && h2 == Nth(s, head2, j) && nodeNum1 - i == nodeNum2 - j
      invariant forall a: nat, b: nat :: a < i ==> !SharedAt(s, head1, head2, a, b)
      decreases nodeNum1 - i
    {
      Before(s, head1, nodeNum1, i);
      if h1 == h2 {
        return h1, i, j;
      }
      Start(s, h1);
      Next(s, head1, i);
      Next(s, head2, j);
      h1, h2 := h1.next, h2.next;
      i, j := i + 1, j + 1;
    }
    Before(s, head1, nodeNum1, i);
    Before(s, head2, nodeNum2, j);
    return null, i, j;
  }

  // ---------------------------------------------------------------- reverseList

  /** A chain from h through exactly these nodes, in this order, on to e. */
  ghost predicate Seg(h: LinkNode?, q: seq<LinkNode>, e: LinkNode?)
    reads q
  {
    && h == (if q == [] then e else q[0])
    && (forall i :: 0 <= i < |q| - 1 ==> q[i].next == q[i + 1])
    && (q != [] ==> q[|q| - 1].next == e)
  }

  ghost predicate Different(q: seq<LinkNode>) {
    forall i, j :: 0 <= i < j < |q| ==> q[i] != q[j]
  }

  lemma ReversedStep(todo: seq<LinkNode>, done: seq<LinkNode>)
    ensures todo == [] ==> Reversed(todo) + done == done
    ensures todo != [] ==> Reversed(todo) + done == Reversed(todo[1..]) + ([todo[0]] + done)
  {
  }

  lemma SegJoin(h: LinkNode?, p: seq<LinkNode>, m: LinkNode?, q: seq<LinkNode>, e: LinkNode?)
    requires Seg(h, p, m) && Seg(m, q, e)
    ensures Seg(h, p + q, e)
  {
  }

  lemma SegSplit(h: LinkNode?, p: seq<LinkNode>, q: seq<LinkNode>, e: LinkNode?)
    requires Seg(h, p + q, e)
    ensures Seg(h, p, if q == [] then e else q[0]) && Seg(if q == [] then e else q[0], q, e)
  {
    assert forall i :: 0 <= i < |p| ==> (p + q)[i] == p[i];
    assert forall i :: 0 <= i < |q| ==> (p + q)[|p| + i] == q[i];
    assert forall i {:trigger q[i]} :: 0 <= i < |q| - 1 ==> (p + q)[|p| + i].next == (p + q)[|p| + i + 1];
  }

  /** The nodes still to be turned are different from each other and from those before them. */
  ghost predicate Separate(base: seq<LinkNode>, done: seq<LinkNode>, todo: seq<LinkNode>) {
    Different(todo) && forall n :: n in todo ==> n !in base && n !in done
  }

  lemma SeparateStep(base: seq<LinkNode>, done: seq<LinkNode>, todo: seq<LinkNode>)
    requires Separate(base, done, todo) && todo != []
    ensures todo[0] !in base && todo[0] !in done && todo[0] !in todo[1..]
    ensures Separate(base, [todo[0]] + done, todo[1..])
  {
  }

  /** What the loop of reverseList keeps while it turns a chain into `goal`, with `base` linked behind that. */
  ghost predicate Turning(prev: LinkNode?, current: LinkNode?, done: seq<LinkNode>, todo: seq<LinkNode>,
                          x: LinkNode?, e: LinkNode?, base: seq<LinkNode>, m: LinkNode?, goal: seq<LinkNode>)
    reads done, todo, base
  {
    && Seg(prev, done, x) && Seg(current, todo, e) && Seg(x, base, m)
    && Separate(base, done, todo) && Reversed(todo) + done == goal
  }

  /** One turn of the loop. */
  method Turn(prev: LinkNode?, current: LinkNode, ghost done: seq<LinkNode>, ghost todo: seq<LinkNode>,
              ghost x: LinkNode?, ghost e: LinkNode?, ghost base: seq<LinkNode>, ghost m: LinkNode?,
              ghost goal: seq<LinkNode>)
    returns (next: LinkNode?)
    requires Turning(prev, current, done, todo, x, e, base, m, goal) && todo != []
    modifies current`next
    ensures todo[0] == current && Turning(current, next, [current] + done, todo[1..], x, e, base, m, goal)
  {
    hide Separate, Reversed;
    SeparateStep(base, done, todo);
    ReversedStep(todo, done);
    next := current.next;
    current.next := prev;
  }

  lemma TurningStarts(h: LinkNode?, q: seq<LinkNode>, e: LinkNode?)
    requires Different(q) && Seg(h, q, e)
    ensures Turning(null, h, [], q, null, e, [], null, Reversed(q))
  {
  }

  lemma ReversedDifferent(q: seq<LinkNode>)
    requires Different(q)
    ensures Different(Reversed(q)) && forall n :: n in Reversed(q) ==> n in q
  {
    hide Reversed;
    forall k: nat
      ensures |Reversed(q)| == |q| && (k < |q| ==> Reversed(q)[k] == q[|q| - 1 - k])
    {
      ReversedAt(q, k);
    }
  }

  lemma DifferentSplit(base: seq<LinkNode>, todo: seq<LinkNode>)
    requires Different(base + todo)
    ensures Separate(base, [], todo) && forall n :: n in todo ==> n in base + todo
  {
    var all := base + todo;
    assert forall k :: 0 <= k < |todo| ==> todo[k] == all[|base| + k];
    assert forall k :: 0 <= k < |base| ==> base[k] == all[k];
  }

  /** The loop has come round to q[a]: what is turned already splits there. */
  lemma TurningBack(prev: LinkNode?, q: seq<LinkNode>, a: nat)
    requires a < |q| && Different(q) && Seg(prev, Reversed(q), null)
    ensures var base, todo := Reversed(q[a + 1..]), Reversed(q[..a + 1]);
            && Turning(prev, q[a], [], todo, prev, null, base, q[a], q[..a + 1])
            && todo != [] && forall n :: n in todo ==> n in q
  {
    hide Reversed, Different, Separate, Seg, Turning;
    var p, r := q[..a + 1], q[a + 1..];
    var base, todo := Reversed(r), Reversed(p);
    assert p + r == q;
    ReversedSplit(p, r);
    ReversedTwice(p);
    ReversedAt(p, 0);
    SegSplit(prev, base, todo, null);
    ReversedDifferent(q);
    DifferentSplit(base, todo);
    TurningAgain(prev, q[a], todo, base, p);
  }

  lemma TurningAgain(prev: LinkNode?, m: LinkNode, todo: seq<LinkNode>, base: seq<LinkNode>, goal: seq<LinkNode>)
    requires Seg(prev, base, m) && Seg(m, todo, null) && Separate(base, [], todo) && Reversed(todo) == goal
    ensures Turning(prev, m, [], todo, prev, null, base, m, goal)
  {
    hide Reversed, Separate;
    assert Reversed(todo) + [] == goal;
  }

  lemma TurningHead(prev: LinkNode?, current: LinkNode?, done: seq<LinkNode>, todo: seq<LinkNode>,
                    x: LinkNode?, e: LinkNode?, base: seq<LinkNode>, m: LinkNode?, goal: seq<LinkNode>)
    requires Turning(prev, current, done, todo, x, e, base, m, goal) && todo != []
    ensures current == todo[0]
  {
  }

  lemma TurningEnds(prev: LinkNode?, done: seq<LinkNode>, todo: seq<LinkNode>,
                    x: LinkNode?, e: LinkNode?, base: seq<LinkNode>, m: LinkNode?, goal: seq<LinkNode>)
    requires Turning(prev, null, done, todo, x, e, base, m, goal)
    ensures todo == [] && e == null && Seg(prev, goal, x) && Seg(prev, goal + base, m)
  {
    assert Reversed([]) + done == done;
    SegJoin(prev, done, x, base, m);
  }

  /**
   * reverseList. An ending list comes back reversed, through the same nodes. On a list that runs into a cycle at
   * q[a] the loop turns round the cycle and then turns the way to it back: the head is h again, and the cycle runs
   * the other way.
   */
  method ReverseList(h: LinkNode?, ghost q: seq<LinkNode>, ghost a: nat) returns (prev: LinkNode?)
    requires a <= |q| && Different(q) && Seg(h, q, if a == |q| then null else q[a])
    modifies q
    ensures a == |q| ==> Seg(prev, Reversed(q), null)
    ensures a < |q| ==> prev == h && Seg(prev, q[..a + 1] + Reversed(q[a + 1..]), q[a])
  {
    hide Reversed, Separate, Turning, Different;
    prev := null;
    var current := h;
    ghost var back := a < |q|;
    ghost var e: LinkNode? := if a == |q| then null else q[a];
    ghost var x: LinkNode?, m: LinkNode? := null, null;
    ghost var base: seq<LinkNode>, done: seq<LinkNode>, todo, goal := [], [], q, Reversed(q);
    TurningStarts(h, q, e);
    while current != null
      invariant Turning(prev, current, done, todo, x, e, base, m, goal)
      invariant forall n :: n in todo ==> n in q
      invariant back ==> a < |q| && goal == Reversed(q) && x == null && base == []
      invariant e == if back then q[a] else null
      invariant !back && a < |q| ==> goal == q[..a + 1] && base == Reversed(q[a + 1..]) && m == q[a]
      invariant a == |q| ==> !back && goal == Reversed(q) && x == null && base == []
      decreases back, |todo|
    {
      if todo == [] {
        RoundTheCycle(prev, current, done, x, e, base, m, goal);
        TurningBack(prev, q, a);
        base, done, todo := Reversed(q[a + 1..]), [], Reversed(q[..a + 1]);
        x, e, m, goal, back := prev, null, q[a], q[..a + 1], false;
      }
      TurningHead(prev, current, done, todo, x, e, base, m, goal);
      assert todo[0] in todo && current in q;
      var next := Turn(prev, current, done, todo, x, e, base, m, goal);
      done, todo := [todo[0]] + done, todo[1..];
      prev := current;
      current := next;
    }
    TurningEnds(prev, done, todo, x, e, base, m, goal);
  }

  lemma RoundTheCycle(prev: LinkNode?, current: LinkNode?, done: seq<LinkNode>,
                      x: LinkNode?, e: LinkNode?, base: seq<LinkNode>, m: LinkNode?, goal: seq<LinkNode>)
    requires Turning(prev, current, done, [], x, e, base, m, goal)
    ensures current == e && done == goal && Seg(prev, goal, x)
  {
    assert Reversed([]) + done == done;
  }
}
