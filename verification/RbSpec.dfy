/** Red-black trees as values, and zippers: a tree with one subtree cut out. The pointer code of
    rbtree.c is proved against these. `V` is the type of node references. */
module RbSpec {
  import opened Sequences

  datatype Color = Red | Black

  datatype Tree<V> = Leaf | Bin(left: Tree<V>, node: V, key: int, color: Color, right: Tree<V>)

  datatype Zip<V> =
    | Top
    | InLeft(up: Zip<V>, node: V, key: int, color: Color, right: Tree<V>)
    | InRight(up: Zip<V>, left: Tree<V>, node: V, key: int, color: Color)

  /** The tree one level up. */
  ghost function Close<V>(z: Zip<V>, t: Tree<V>): Tree<V>
    requires !z.Top?
  {
    if z.InLeft? then Bin(t, z.node, z.key, z.color, z.right) else Bin(z.left, z.node, z.key, z.color, t)
  }

  ghost function Plug<V>(z: Zip<V>, t: Tree<V>): Tree<V> {
    if z.Top? then t else Plug(z.up, Close(z, t))
  }

  ghost function GoLeft<V>(z: Zip<V>, t: Tree<V>): Zip<V>
    requires t.Bin?
  {
    InLeft(z, t.node, t.key, t.color, t.right)
  }

  ghost function GoRight<V>(z: Zip<V>, t: Tree<V>): Zip<V>
    requires t.Bin?
  {
    InRight(z, t.left, t.node, t.key, t.color)
  }

  ghost function Depth<V>(z: Zip<V>): nat {
    if z.Top? then 0 else 1 + Depth(z.up)
  }

  ghost function Size<V>(t: Tree<V>): nat {
    if t.Leaf? then 0 else Size(t.left) + 1 + Size(t.right)
  }

  ghost function Height<V>(t: Tree<V>): nat {
    if t.Leaf? then 0 else 1 + (if Height(t.left) > Height(t.right) then Height(t.left) else Height(t.right))
  }

  // ---------------------------------------------------------------- contents

  ghost function Keys<V>(t: Tree<V>): seq<int> {
    if t.Leaf? then [] else Keys(t.left) + [t.key] + Keys(t.right)
  }

  ghost function Before<V>(z: Zip<V>): seq<int> {
    match z
    case Top => []
    case InLeft(up, _, _, _, _) => Before(up)
    case InRight(up, l, _, k, _) => Before(up) + Keys(l) + [k]
  }

  ghost function After<V>(z: Zip<V>): seq<int> {
    match z
    case Top => []
    case InLeft(up, _, k, _, r) => [k] + Keys(r) + After(up)
    case InRight(up, _, _, _, _) => After(up)
  }

  lemma {:induction false} PlugKeys<V>(z: Zip<V>, t: Tree<V>)
    ensures Keys(Plug(z, t)) == Before(z) + Keys(t) + After(z)
    decreases z
  {
    if z.Top? {
    } else {
      PlugKeys(z.up, Close(z, t));
      CloseKeys(z, t);
    }
  }

  lemma CloseKeys<V>(z: Zip<V>, t: Tree<V>)
    requires !z.Top?
    ensures Before(z.up) + Keys(Close(z, t)) + After(z.up) == Before(z) + Keys(t) + After(z)
  {
    var a, k, c := Before(z.up), [z.key], After(z.up);
    if z.InLeft? {
      Regroup(a, Keys(t), k, Keys(z.right), c);
    } else {
      Regroup(a, Keys(z.left), k, Keys(t), c);
    }
  }

  lemma Regroup(a: seq<int>, l: seq<int>, k: seq<int>, r: seq<int>, c: seq<int>)
    ensures a + (l + k + r) + c == a + l + (k + r + c)
    ensures a + (l + k + r) + c == (a + l + k) + r + c
  {
  }

  ghost predicate Sorted(s: seq<int>) {
    forall i, j :: 0 <= i < j < |s| ==> s[i] < s[j]
  }

  ghost function Nodes<V>(t: Tree<V>): set<V> {
    if t.Leaf? then {} else Nodes(t.left) + {t.node} + Nodes(t.right)
  }

  ghost function ZNodes<V>(z: Zip<V>): set<V> {
    match z
    case Top => {}
    case InLeft(up, n, _, _, r) => ZNodes(up) + {n} + Nodes(r)
    case InRight(up, l, n, _, _) => ZNodes(up) + {n} + Nodes(l)
  }

  lemma {:induction false} PlugNodes<V>(z: Zip<V>, t: Tree<V>)
    ensures Nodes(Plug(z, t)) == ZNodes(z) + Nodes(t)
    decreases z
  {
    if z.Top? {
    } else {
      PlugNodes(z.up, Close(z, t));
    }
  }

  /** Every node occurs once. */
  ghost predicate Apart<V>(t: Tree<V>) {
    t.Leaf? ||
    (Apart(t.left) && Apart(t.right) && t.node !in Nodes(t.left) && t.node !in Nodes(t.right)
     && Nodes(t.left) !! Nodes(t.right))
  }

  ghost predicate ZApart<V>(z: Zip<V>) {
    z.Top? ||
    (ZApart(z.up) && z.node !in ZNodes(z.up)
     && (var side := if z.InLeft? then z.right else z.left;
         Apart(side) && z.node !in Nodes(side) && Nodes(side) !! ZNodes(z.up)))
  }

  // ---------------------------------------------------------------- colours and balance

  ghost function RootColor<V>(t: Tree<V>): Color {
    if t.Leaf? then Black else t.color
  }

  ghost function Near<V>(z: Zip<V>): Color {
    if z.Top? then Black else z.color
  }

  ghost function Weight(c: Color): nat {
    if c == Black then 1 else 0
  }

  /** Black nodes on the leftmost path; on every path when Balanced. */
  ghost function BlackHeight<V>(t: Tree<V>): nat {
    if t.Leaf? then 0 else BlackHeight(t.left) + Weight(t.color)
  }

  ghost predicate Balanced<V>(t: Tree<V>) {
    t.Leaf? || (Balanced(t.left) && Balanced(t.right) && BlackHeight(t.left) == BlackHeight(t.right))
  }

  ghost function Side<V>(z: Zip<V>): Tree<V>
    requires !z.Top?
  {
    if z.InLeft? then z.right else z.left
  }

  /** The context is balanced around a subtree of black height h. */
  ghost predicate ZBalanced<V>(z: Zip<V>, h: nat) {
    z.Top? || (Balanced(Side(z)) && BlackHeight(Side(z)) == h && ZBalanced(z.up, h + Weight(z.color)))
  }

  ghost predicate NoRedRed<V>(t: Tree<V>) {
    t.Leaf? ||
    (NoRedRed(t.left) && NoRedRed(t.right)
     && (t.color == Red ==> RootColor(t.left) == Black && RootColor(t.right) == Black))
  }

  ghost predicate ZNoRedRed<V>(z: Zip<V>) {
    z.Top? ||
    (NoRedRed(Side(z)) && ZNoRedRed(z.up)
     && (z.color == Red ==> RootColor(Side(z)) == Black && Near(z.up) == Black))
  }

  ghost function TopColor<V>(z: Zip<V>): Color {
    if z.Top? then Black else if z.up.Top? then z.color else TopColor(z.up)
  }

  lemma {:induction false} PlugBalanced<V>(z: Zip<V>, t: Tree<V>)
    ensures Balanced(Plug(z, t)) <==> Balanced(t) && ZBalanced(z, BlackHeight(t))
    decreases z
  {
    if z.Top? {
    } else {
      PlugBalanced(z.up, Close(z, t));
    }
  }

  lemma {:induction false} PlugNoRedRed<V>(z: Zip<V>, t: Tree<V>)
    ensures NoRedRed(Plug(z, t)) <==>
            NoRedRed(t) && ZNoRedRed(z) && (RootColor(t) == Red ==> Near(z) == Black)
    decreases z
  {
    if z.Top? {
    } else {
      PlugNoRedRed(z.up, Close(z, t));
    }
  }

  lemma {:induction false} PlugColor<V>(z: Zip<V>, t: Tree<V>)
    ensures RootColor(Plug(z, t)) == if z.Top? then RootColor(t) else TopColor(z)
    decreases z
  {
    if z.Top? {
    } else {
      PlugColor(z.up, Close(z, t));
    }
  }

  /** A valid red-black search tree. */
  ghost predicate IsRB<V>(t: Tree<V>) {
    Sorted(Keys(t)) && RootColor(t) == Black && NoRedRed(t) && Balanced(t)
  }

  // ---------------------------------------------------------------- height

  lemma {:induction false} BlackHeightBounds<V>(t: Tree<V>)
    requires NoRedRed(t) && Balanced(t)
    ensures Size(t) + 1 >= Pow2(BlackHeight(t))
    ensures Height(t) <= 2 * BlackHeight(t) + 1 - Weight(RootColor(t))
    decreases t
  {
    if t.Leaf? {
    } else {
      BlackHeightBounds(t.left);
      BlackHeightBounds(t.right);
    }
  }

  lemma {:induction false} Pow2Monotone(m: nat, n: nat)
    requires m <= n
    ensures Pow2(m) <= Pow2(n)
  {
    if m == n {
    } else {
      Pow2Monotone(m, n - 1);
    }
  }

  /** height <= 2 * log2(n + 1), without logarithms. */
  lemma HeightBound<V>(t: Tree<V>)
    requires IsRB(t)
    ensures Pow2((Height(t) + 1) / 2) <= Size(t) + 1
  {
    BlackHeightBounds(t);
    Pow2Monotone((Height(t) + 1) / 2, BlackHeight(t));
  }

  // ---------------------------------------------------------------- rotations

  ghost function RotateLeft<V>(t: Tree<V>): Tree<V>
    requires t.Bin? && t.right.Bin?
  {
    var r := t.right;
    Bin(Bin(t.left, t.node, t.key, t.color, r.left), r.node, r.key, r.color, r.right)
  }

  ghost function RotateRight<V>(t: Tree<V>): Tree<V>
    requires t.Bin? && t.left.Bin?
  {
    var l := t.left;
    Bin(l.left, l.node, l.key, l.color, Bin(l.right, t.node, t.key, t.color, t.right))
  }

  /** Same keys in the same order, same nodes. */
  ghost predicate SameContent<V>(t: Tree<V>, u: Tree<V>) {
    Keys(t) == Keys(u) && Nodes(t) == Nodes(u)
  }

  lemma RotationsKeepContent<V>(t: Tree<V>)
    requires t.Bin?
    ensures t.right.Bin? ==> SameContent(t, RotateLeft(t))
    ensures t.left.Bin? ==> SameContent(t, RotateRight(t))
  {
    if t.right.Bin? {
      var a, b, c := Keys(t.left), Keys(t.right.left), Keys(t.right.right);
      assert a + [t.key] + (b + [t.right.key] + c) == (a + [t.key] + b) + [t.right.key] + c;
    }
    if t.left.Bin? {
      var a, b, c := Keys(t.left.left), Keys(t.left.right), Keys(t.right);
      assert (a + [t.left.key] + b) + [t.key] + c == a + [t.left.key] + (b + [t.key] + c);
    }
  }

  lemma PlugContent<V>(z: Zip<V>, t: Tree<V>, u: Tree<V>)
    requires SameContent(t, u)
    ensures SameContent(Plug(z, t), Plug(z, u))
  {
    PlugKeys(z, t);
    PlugKeys(z, u);
    PlugNodes(z, t);
    PlugNodes(z, u);
  }
}
