/** What rbtree.c makes of a tree, as functions on values: an insertion, a deletion, and any sequence of them. */
module RbRun {
  import opened RbSpec
  import opened RbFix
  import opened RbLevel

  // ---------------------------------------------------------------- search

  ghost predicate Has<V>(t: Tree<V>, k: int) {
    t.Bin? && (t.key == k || (k < t.key && Has(t.left, k)) || (t.key < k && Has(t.right, k)))
  }

  /** The node in which the search for k ends. */
  ghost function Holder<V>(t: Tree<V>, k: int): (n: V)
    requires Has(t, k)
    ensures n in Nodes(t)
  {
    if t.key == k then t.node else if k < t.key then Holder(t.left, k) else Holder(t.right, k)
  }

  /** Both trees answer a search for k alike. */
  ghost predicate SameSearch<V>(t: Tree<V>, u: Tree<V>, k: int) {
    Has(t, k) == Has(u, k) && (Has(t, k) ==> Holder(t, k) == Holder(u, k))
  }

  lemma SearchStep<V>(t: Tree<V>, k: int)
    requires t.Bin?
    ensures k < t.key ==> SameSearch(t.left, t, k)
    ensures t.key < k ==> SameSearch(t.right, t, k)
    ensures t.key == k ==> Has(t, k) && Holder(t, k) == t.node
  {
  }

  /** In a search tree, the search finds exactly the keys that are there. */
  lemma {:induction false} SearchFinds<V>(t: Tree<V>, k: int)
    requires Sorted(Keys(t))
    ensures Has(t, k) <==> k in Keys(t)
    decreases t
  {
    hide Sorted;
    if t.Leaf? {
    } else {
      KeysBin(t);
      SortedParts(Keys(t.left), t.key, Keys(t.right));
      SearchFinds(t.left, k);
      SearchFinds(t.right, k);
    }
  }

  lemma SortedParts(l: seq<int>, k: int, r: seq<int>)
    requires Sorted(l + [k] + r)
    ensures Sorted(l) && Sorted(r) && (forall x :: x in l ==> x < k) && (forall x :: x in r ==> k < x)
  {
    var s := l + [k] + r;
    assert [] + s + [] == s;
    AroundKey([], l, k, r, []);
    assert forall i :: 0 <= i < |l| ==> l[i] == s[i];
    assert forall i :: 0 <= i < |r| ==> r[i] == s[|l| + 1 + i];
  }

  // ---------------------------------------------------------------- insertion

  /** _adjustAfterInsert on a red subtree t: rounds until its parent is black, then the root is painted black. */
  ghost function InsertFix<V>(z: Zip<V>, t: Tree<V>): Tree<V>
    requires t.Bin?
    decreases if Near(z) == Red then 1 + Depth(z) else 0
  {
    if Near(z) == Black || z.up.Top? then Paint(Plug(z, t), Black)
    else if RootColor(Side(z.up)) == Red then
      assert Depth(z) == 2 + Depth(z.up.up);
      InsertFix(z.up.up, Recolored(Close(z.up, Close(z, t))))
    else if z.up.InLeft? then
      var u := LiftedLeft(z, t);
      InsertFix(GoLeft(z.up.up, u), u.left)
    else
      var u := LiftedRight(z, t);
      InsertFix(GoRight(z.up.up, u), u.right)
  }

  lemma RoundUnderRed<V>(z: Zip<V>, t: Tree<V>)
    requires Growing(z, t) && Near(z) == Red && !z.up.Top? && RootColor(Side(z.up)) == Red
    ensures var g := Close(z.up, Close(z, t));
            g.left.Bin? && g.right.Bin? && InsertFix(z, t) == InsertFix(z.up.up, Recolored(g))
  {
  }

  lemma RoundUnderBlack<V>(z: Zip<V>, t: Tree<V>)
    requires Growing(z, t) && Near(z) == Red && !z.up.Top? && RootColor(Side(z.up)) == Black
    ensures z.up.InLeft? ==>
              var u := LiftedLeft(z, t); u.left.Bin? && InsertFix(z, t) == InsertFix(GoLeft(z.up.up, u), u.left)
    ensures z.up.InRight? ==>
              var u := LiftedRight(z, t); u.right.Bin? && InsertFix(z, t) == InsertFix(GoRight(z.up.up, u), u.right)
  {
  }

  lemma RoundsOver<V>(z: Zip<V>, t: Tree<V>)
    requires t.Bin? && Near(z) == Black
    ensures InsertFix(z, t) == Paint(Plug(z, t), Black)
  {
  }

  ghost function AfterInsert<V>(t: Tree<V>, n: V, k: int): Tree<V> {
    InsertFix(GapAt(Top, t, k), Bin(Leaf, n, k, Red, Leaf))
  }

  // ---------------------------------------------------------------- deletion

  /** _adjustAfterDelete on a subtree t that is one black node short. */
  ghost function DeleteFix<V>(z: Zip<V>, t: Tree<V>): Tree<V>
    decreases z
  {
    if z.Top? || !ShortOk(z) then Plug(z, t)
    else if CaseOf(z) == BlackNephews && z.color == Black then DeleteFix(z.up, Rearranged(z, t))
    else Plug(z.up, Rearranged(z, t))
  }

  lemma DeleteRound<V>(z: Zip<V>, t: Tree<V>)
    ensures z.Top? ==> DeleteFix(z, t) == Plug(z, t)
    ensures !z.Top? && ShortOk(z) ==>
              DeleteFix(z, t) == if CaseOf(z) == BlackNephews && z.color == Black then DeleteFix(z.up, Rearranged(z, t))
                                 else Plug(z.up, Rearranged(z, t))
  {
  }

  /** Target and successor have exchanged keys (and, in the source, user data). */
  ghost function Swapped<V>(z: Zip<V>, t: Tree<V>): (f: (Zip<V>, Tree<V>))
    requires t.Bin?
    ensures f.1.Bin?
  {
    if t.right.Leaf? then (z, t)
    else
      var s := Leftmost(GoRight(z, t), t.right).1;
      (Leftmost(GoRight(z, t.(key := s.key)), t.right).0, s.(key := t.key))
  }

  /** The only child takes the place of the node at the point of view, black; a black leaf leaves a shortage. */
  ghost function Detached<V>(z: Zip<V>, d: Tree<V>): Tree<V>
    requires d.Bin?
  {
    var c := OnlyChild(d);
    if c.Leaf? && d.color == Black then DeleteFix(z, Leaf) else Plug(z, Paint(c, Black))
  }

  ghost function AfterDelete<V>(t: Tree<V>, n: V): Tree<V>
    requires n in Nodes(t)
  {
    var f := FocusOn(Top, t, n);
    var s := Swapped(f.0, f.1);
    Detached(s.0, s.1)
  }

  // ---------------------------------------------------------------- any sequence of operations

  datatype Op<V> = Insert(node: V, key: int) | Delete(key: int)

  /** An operation takes effect: a new key is inserted, or one that is there is deleted. */
  ghost predicate Effective<V>(t: Tree<V>, op: Op<V>) {
    Has(t, op.key) != op.Insert?
  }

  ghost function AfterOp<V>(t: Tree<V>, op: Op<V>): Tree<V> {
    if !Effective(t, op) then t
    else if op.Insert? then AfterInsert(t, op.node, op.key)
    else AfterDelete(t, Holder(t, op.key))
  }

  ghost function AfterRun<V>(t: Tree<V>, ops: seq<Op<V>>): Tree<V>
    decreases |ops|
  {
    if ops == [] then t else AfterRun(AfterOp(t, ops[0]), ops[1..])
  }

  /** Whenever a key is deleted, the black counts are equal. */
  ghost predicate EvenOp<V>(t: Tree<V>, op: Op<V>) {
    op.Delete? && Effective(t, op) ==> Balanced(t)
  }

  ghost predicate EvenRun<V>(t: Tree<V>, ops: seq<Op<V>>)
    decreases |ops|
  {
    ops == [] || (EvenOp(t, ops[0]) && EvenRun(AfterOp(t, ops[0]), ops[1..]))
  }

  /** No deletion stops where it leaves a red node under a red node. */
  ghost predicate CleanOp<V>(t: Tree<V>, op: Op<V>) {
    op.Delete? && Effective(t, op) ==> DeletesClean(t, Holder(t, op.key))
  }

  ghost predicate CleanRun<V>(t: Tree<V>, ops: seq<Op<V>>)
    decreases |ops|
  {
    ops == [] || (CleanOp(t, ops[0]) && CleanRun(AfterOp(t, ops[0]), ops[1..]))
  }

  /** The same on finite sets of keys. */
  ghost function KeysAfterOp<V>(s: set<int>, op: Op<V>): set<int> {
    if op.Insert? then s + {op.key} else s - {op.key}
  }

  ghost function KeysAfter<V>(s: set<int>, ops: seq<Op<V>>): set<int>
    decreases |ops|
  {
    if ops == [] then s else KeysAfter(KeysAfterOp(s, ops[0]), ops[1..])
  }

  /** Whether each operation takes effect. */
  ghost function Answers<V>(s: set<int>, ops: seq<Op<V>>): seq<bool>
    decreases |ops|
  {
    if ops == [] then []
    else [(ops[0].key in s) != ops[0].Insert?] + Answers(KeysAfterOp(s, ops[0]), ops[1..])
  }

  lemma {:induction false} OneMoreOp<V>(s: set<int>, ops: seq<Op<V>>, op: Op<V>)
    ensures KeysAfter(s, ops + [op]) == KeysAfterOp(KeysAfter(s, ops), op)
    ensures Answers(s, ops + [op]) == Answers(s, ops) + [(op.key in KeysAfter(s, ops)) != op.Insert?]
    ensures |Answers(s, ops)| == |ops|
    decreases |ops|
  {
    hide KeysAfterOp;
    if ops == [] {
      assert ops + [op] == [op];
    } else {
      assert (ops + [op])[1..] == ops[1..] + [op];
      OneMoreOp(KeysAfterOp(s, ops[0]), ops[1..], op);
    }
  }

  /** At every place of a run: an insertion succeeds on a new key, a deletion on a present one; no other key changes. */
  lemma {:induction false} RunAt<V>(s: set<int>, ops: seq<Op<V>>, i: nat)
    requires i < |ops|
    ensures |Answers(s, ops)| == |ops|
    ensures var before, after, answer := KeysAfter(s, ops[..i]), KeysAfter(s, ops[..i + 1]), Answers(s, ops)[i];
      match ops[i]
      case Insert(_, key) => answer == (key !in before) && after == before + {key}
      case Delete(key) => answer == (key in before) && after == before - {key}
    ensures KeysAfter<V>(s, []) == s && KeysAfter(s, ops[..|ops|]) == KeysAfter(s, ops)
    decreases |ops|
  {
    var front, last := ops[..|ops| - 1], ops[|ops| - 1];
    assert ops == front + [last];
    OneMoreOp(s, front, last);
    if i < |front| {
      RunAt(s, front, i);
      assert front[..i] == ops[..i] && front[..i + 1] == ops[..i + 1];
    } else {
      assert ops[..i] == front && ops[..i + 1] == ops;
    }
    assert ops[..|ops|] == ops;
  }

  /** A run without deletions is always allowed. */
  lemma {:induction false} InsertionsEven<V>(t: Tree<V>, ops: seq<Op<V>>)
    requires forall i :: 0 <= i < |ops| ==> ops[i].Insert?
    ensures EvenRun(t, ops) && CleanRun(t, ops)
    decreases |ops|
  {
    hide AfterOp;
    if ops == [] {
    } else {
      InsertionsEven(AfterOp(t, ops[0]), ops[1..]);
    }
  }
}
