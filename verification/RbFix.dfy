/** The fix-up steps of rbtree.c on values: what each local rearrangement preserves, and when the
    one after a deletion leaves a red node with a red child. */
module RbFix {
  import opened RbSpec

  // ---------------------------------------------------------------- after an insertion

  /** A red subtree somewhere in a tree with a black root. */
  ghost predicate Growing<V>(z: Zip<V>, t: Tree<V>) {
    t.Bin? && t.color == Red && (z.Top? || TopColor(z) == Black)
  }

  /** Valid everywhere except that the red root of `t` may hang under a red node. */
  ghost predicate Sturdy<V>(z: Zip<V>, t: Tree<V>) {
    && t.Bin? && t.color == Red
    && NoRedRed(t) && ZNoRedRed(z) && Balanced(t) && ZBalanced(z, BlackHeight(t))
    && (z.Top? || TopColor(z) == Black)
  }

  lemma GrowingGrandparent<V>(z: Zip<V>, t: Tree<V>)
    requires Growing(z, t) && Near(z) == Red
    ensures t.Bin? && !z.Top? && !z.up.Top?
    ensures Depth(z) == 2 + Depth(z.up.up)
  {
  }

  /** Case 2: parent and uncle black, grandparent red. */
  ghost function Recolored<V>(t: Tree<V>): Tree<V>
    requires t.Bin? && t.left.Bin? && t.right.Bin?
  {
    t.(left := t.left.(color := Black), right := t.right.(color := Black), color := Red)
  }

  lemma RecolorContent<V>(t: Tree<V>, c: Color)
    requires t.Bin?
    ensures SameContent(t, t.(color := c))
  {
  }

  lemma Blacken<V>(t: Tree<V>)
    requires t.Bin? && t.color == Red && NoRedRed(t.left) && NoRedRed(t.right) && Balanced(t)
    ensures var u := t.(color := Black); NoRedRed(u) && Balanced(u) && BlackHeight(u) == BlackHeight(t) + 1
  {
  }

  lemma RedUncle<V>(z: Zip<V>, t: Tree<V>)
    requires Sturdy(z, t) && Near(z) == Red && !z.up.Top? && RootColor(Side(z.up)) == Red
    ensures var g := Close(z.up, Close(z, t));
            && g.left.Bin? && g.right.Bin? && Sturdy(z.up.up, Recolored(g)) && SameContent(g, Recolored(g))
  {
    hide ZNoRedRed, ZBalanced;
    AroundParent(z, t);
    var g := Close(z.up, Close(z, t));
    var p, u := Close(z, t), Side(z.up);
    Blacken(p);
    Blacken(u);
    RecolorContent(p, Black);
    RecolorContent(u, Black);
  }

  /** The context of a red parent, one and two levels up. */
  lemma AroundParent<V>(z: Zip<V>, t: Tree<V>)
    requires Sturdy(z, t) && Near(z) == Red && !z.up.Top?
    ensures var p, u, zg := Close(z, t), Side(z.up), z.up.up;
            && p.Bin? && p.color == Red && NoRedRed(p.left) && NoRedRed(p.right) && NoRedRed(Side(z))
            && RootColor(Side(z)) == Black
            && Balanced(p) && BlackHeight(p) == BlackHeight(t)
            && NoRedRed(u) && (u.Bin? ==> NoRedRed(u.left) && NoRedRed(u.right)) && Balanced(u)
            && BlackHeight(u) == BlackHeight(t) && z.up.color == Black
            && ZNoRedRed(zg) && ZBalanced(zg, BlackHeight(t) + 1) && (zg.Top? || TopColor(zg) == Black)
  {
    var zp := z.up;
    assert ZNoRedRed(zp) && ZBalanced(zp, BlackHeight(t)) && TopColor(z) == TopColor(zp);
    assert z.color == Red && Near(zp) == Black;
  }

  /** Cases 4 and 3 with the parent on the left: first the inner grandchild is rotated outwards. */
  ghost function Outward<V>(z: Zip<V>, t: Tree<V>): Tree<V>
    requires !z.Top? && t.Bin?
  {
    var p := Close(z, t);
    if z.InRight? then RotateLeft(p) else p
  }

  ghost function LiftedLeft<V>(z: Zip<V>, t: Tree<V>): Tree<V>
    requires !z.Top? && t.Bin? && z.up.InLeft?
  {
    var g := z.up;
    RotateRight(Bin(Outward(z, t).(color := Black), g.node, g.key, Red, g.right))
  }

  ghost function OutwardRight<V>(z: Zip<V>, t: Tree<V>): Tree<V>
    requires !z.Top? && t.Bin?
  {
    var p := Close(z, t);
    if z.InLeft? then RotateRight(p) else p
  }

  ghost function LiftedRight<V>(z: Zip<V>, t: Tree<V>): Tree<V>
    requires !z.Top? && t.Bin? && z.up.InRight?
  {
    var g := z.up;
    RotateLeft(Bin(g.left, g.node, g.key, Red, OutwardRight(z, t).(color := Black)))
  }

  lemma OutwardFacts<V>(z: Zip<V>, t: Tree<V>)
    requires Sturdy(z, t) && Near(z) == Red
    ensures var p, u := Close(z, t), Outward(z, t);
            && u.left.Bin? && u.left.color == Red && NoRedRed(u.left) && NoRedRed(u.right)
            && RootColor(u.right) == Black && Balanced(u) && BlackHeight(u) == BlackHeight(t)
            && u.color == Red && BlackHeight(u.left) == BlackHeight(t) && SameContent(p, u)
    ensures var p, u := Close(z, t), OutwardRight(z, t);
            && u.right.Bin? && u.right.color == Red && NoRedRed(u.left) && NoRedRed(u.right)
            && RootColor(u.left) == Black && Balanced(u) && BlackHeight(u) == BlackHeight(t)
            && u.color == Red && BlackHeight(u.right) == BlackHeight(t) && SameContent(p, u)
  {
    RotationsKeepContent(Close(z, t));
    AroundParentOnly(z, t);
    assert NoRedRed(t.left) && NoRedRed(t.right) && Balanced(t.left) && Balanced(t.right);
    assert BlackHeight(t.left) == BlackHeight(t.right) == BlackHeight(t);
    hide ZNoRedRed, ZBalanced, Keys, Nodes, TopColor;
    var s := Side(z);
    Level(s, z.node, z.key, t.left);
    Level(t.right, z.node, z.key, s);
    if z.InRight? {
      Level(Bin(s, z.node, z.key, Red, t.left), t.node, t.key, t.right);
      Level(s, z.node, z.key, t);
    } else {
      Level(t.left, t.node, t.key, Bin(t.right, z.node, z.key, Red, s));
      Level(t, z.node, z.key, s);
    }
  }

  lemma Level<V>(l: Tree<V>, n: V, k: int, r: Tree<V>)
    requires Balanced(l) && Balanced(r) && BlackHeight(l) == BlackHeight(r)
    ensures var u := Bin(l, n, k, Red, r);
            Balanced(u) && BlackHeight(u) == BlackHeight(l)
            && (NoRedRed(l) && NoRedRed(r) && RootColor(l) == Black && RootColor(r) == Black ==> NoRedRed(u))
  {
  }

  lemma AroundParentOnly<V>(z: Zip<V>, t: Tree<V>)
    requires Sturdy(z, t) && Near(z) == Red
    ensures var s := Side(z);
            NoRedRed(s) && RootColor(s) == Black && Balanced(s) && BlackHeight(s) == BlackHeight(t)
  {
  }

  lemma BlackUncleLeft<V>(z: Zip<V>, t: Tree<V>)
    requires Sturdy(z, t) && Near(z) == Red && z.up.InLeft? && RootColor(z.up.right) == Black
    ensures var g, u := Close(z.up, Close(z, t)), LiftedLeft(z, t);
            && u.left.Bin? && Sturdy(GoLeft(z.up.up, u), u.left) && u.color == Black && SameContent(g, u)
  {
    OutwardFacts(z, t);
    AroundParent(z, t);
    hide NoRedRed, ZNoRedRed, ZBalanced, Outward, TopColor, Nodes, Keys;
    var o, g := Outward(z, t), z.up;
    RecolorContent(o, Black);
    ContentAbove(g, Close(z, t), o.(color := Black), Red);
    RotationsKeepContent(Bin(o.(color := Black), g.node, g.key, Red, g.right));
    Lift(GoLeft(g.up, LiftedLeft(z, t)), o.left, o.right, g.right);
  }

  lemma BlackUncleRight<V>(z: Zip<V>, t: Tree<V>)
    requires Sturdy(z, t) && Near(z) == Red && z.up.InRight? && RootColor(z.up.left) == Black
    ensures var g, u := Close(z.up, Close(z, t)), LiftedRight(z, t);
            && u.right.Bin? && Sturdy(GoRight(z.up.up, u), u.right) && u.color == Black && SameContent(g, u)
  {
    OutwardFacts(z, t);
    AroundParent(z, t);
    hide NoRedRed, ZNoRedRed, ZBalanced, OutwardRight, TopColor, Nodes, Keys;
    var o, g := OutwardRight(z, t), z.up;
    RecolorContent(o, Black);
    ContentAbove(g, Close(z, t), o.(color := Black), Red);
    RotationsKeepContent(Bin(g.left, g.node, g.key, Red, o.(color := Black)));
    Lift(GoRight(g.up, LiftedRight(z, t)), o.right, g.left, o.left);
  }

  lemma ContentAbove<V>(z: Zip<V>, t: Tree<V>, u: Tree<V>, c: Color)
    requires !z.Top? && SameContent(t, u)
    ensures var w := Close(z, u); w.Bin? && SameContent(Close(z, t), w.(color := c))
  {
  }

  /** The red subtree `t` next to the red join of `l` and `r`, both under a black node. */
  lemma Lift<V>(z: Zip<V>, t: Tree<V>, l: Tree<V>, r: Tree<V>)
    requires !z.Top? && z.color == Black && Side(z).Bin? && Side(z).color == Red
    requires Side(z).left == l && Side(z).right == r
    requires NoRedRed(l) && NoRedRed(r) && RootColor(l) == Black && RootColor(r) == Black
    requires Balanced(l) && Balanced(r) && BlackHeight(l) == BlackHeight(r) == BlackHeight(t)
    requires t.Bin? && t.color == Red && NoRedRed(t) && Balanced(t)
    requires ZNoRedRed(z.up) && ZBalanced(z.up, BlackHeight(t) + 1) && (z.up.Top? || TopColor(z.up) == Black)
    ensures Sturdy(z, t)
  {
    hide NoRedRed, Balanced, BlackHeight;
    Level(l, Side(z).node, Side(z).key, r);
  }

  /** Once the parent is black, blackening the root completes the repair. */
  lemma GrowingDone<V>(z: Zip<V>, t: Tree<V>)
    requires Sturdy(z, t) && Near(z) == Black
    ensures var w := Plug(z, t);
            && w.Bin? && SameContent(w, w.(color := Black))
            && NoRedRed(w.(color := Black)) && Balanced(w.(color := Black))
  {
    PlugNoRedRed(z, t);
    PlugBalanced(z, t);
    PlugColor(z, t);
    PlugBin(z, t);
  }

  lemma {:induction false} PlugBin<V>(z: Zip<V>, t: Tree<V>)
    requires t.Bin? || !z.Top?
    ensures Plug(z, t).Bin?
    decreases z
  {
    if z.Top? {
    } else {
      PlugBin(z.up, Close(z, t));
    }
  }

  /** A new red leaf in a valid tree. */
  lemma Planted<V>(z: Zip<V>, n: V, k: int)
    requires IsRB(Plug(z, Leaf))
    ensures Sturdy(z, Bin(Leaf, n, k, Red, Leaf))
  {
    PlugNoRedRed(z, Leaf);
    PlugBalanced(z, Leaf);
    PlugColor(z, Leaf);
  }

  // ---------------------------------------------------------------- after a deletion

  /** Black counts are equal except that the black-rooted `t` is one black node short. */
  ghost predicate Short<V>(z: Zip<V>, t: Tree<V>) {
    && RootColor(t) == Black && Balanced(t) && ZBalanced(z, BlackHeight(t) + 1)
    && (z.Top? || TopColor(z) == Black)
  }

  /** Nowhere a red node under a red node. */
  ghost predicate Calm<V>(z: Zip<V>, t: Tree<V>) {
    NoRedRed(t) && ZNoRedRed(z)
  }

  datatype DeleteCase = RedSibling | BlackNephews | InnerRed | OuterRed

  ghost function Inner<V>(z: Zip<V>): Tree<V>
    requires !z.Top? && Side(z).Bin?
  {
    if z.InRight? then z.left.right else z.right.left
  }

  ghost function Outer<V>(z: Zip<V>): Tree<V>
    requires !z.Top? && Side(z).Bin?
  {
    if z.InRight? then z.left.left else z.right.right
  }

  /** The four branches of _adjustAfterDelete, in the order it tests them. */
  ghost function CaseOf<V>(z: Zip<V>): DeleteCase
    requires !z.Top? && Side(z).Bin?
  {
    if Side(z).color == Red then RedSibling
    else if RootColor(Inner(z)) == Black && RootColor(Outer(z)) == Black then BlackNephews
    else if RootColor(Outer(z)) == Black then InnerRed
    else OuterRed
  }

  ghost function Paint<V>(t: Tree<V>, c: Color): Tree<V> {
    if t.Leaf? then t else t.(color := c)
  }

  /** The subtree at the parent after one round of the loop, by branch and side. */
  ghost function Rearranged<V>(z: Zip<V>, t: Tree<V>): Tree<V>
    requires !z.Top? && Side(z).Bin?
    requires CaseOf(z) == RedSibling ==> Inner(z).Bin?
  {
    var b, n, k, c := Side(z), z.node, z.key, z.color;
    match CaseOf(z)
    case RedSibling =>
      if z.InRight? then RotateRight(Bin(b.(color := Black, right := Paint(b.right, Red)), n, k, c, t))
      else RotateLeft(Bin(t, n, k, c, b.(color := Black, left := Paint(b.left, Red))))
    case BlackNephews =>
      if z.InRight? then Bin(b.(color := Red), n, k, Black, t) else Bin(t, n, k, Black, b.(color := Red))
    case InnerRed =>
      if z.InRight? then
        RotateRight(Bin(RotateLeft(b.(color := c, right := Paint(b.right, Black))), n, k, c, t))
      else
        RotateLeft(Bin(t, n, k, c, RotateRight(b.(color := c, left := Paint(b.left, Black)))))
    case OuterRed =>
      if z.InRight? then RotateRight(Bin(b.(color := c, left := Paint(b.left, Black)), n, k, Black, t))
      else RotateLeft(Bin(t, n, k, Black, b.(color := c, right := Paint(b.right, Black))))
  }

  lemma ShortSibling<V>(z: Zip<V>, t: Tree<V>)
    requires Short(z, t) && !z.Top?
    ensures Side(z).Bin? && (CaseOf(z) == RedSibling ==> Inner(z).Bin? && Outer(z).Bin?)
    ensures Calm(z, t) && CaseOf(z) == RedSibling ==> z.color == Black && Inner(z).color == Black
    ensures CaseOf(z) == InnerRed ==> Inner(z).Bin?
    ensures CaseOf(z) == OuterRed ==> Outer(z).Bin?
  {
    var b := Side(z);
    assert b.Bin?;
    if b.color == Red {
      assert BlackHeight(b.left) == BlackHeight(b.right) == BlackHeight(t) + 1;
    }
  }

  /** The inner nephew that the red-sibling branch paints red has no red child. */
  ghost predicate InnerClean<V>(z: Zip<V>)
    requires !z.Top? && Side(z).Bin?
  {
    var i := Inner(z);
    i.Bin? && RootColor(i.left) == Black && RootColor(i.right) == Black
  }

  /** The fix-up that starts under z ends without a red node under a red node. It looks at the
      siblings on the way up: the only bad stop is a red sibling whose inner child has a red child. */
  ghost predicate StopsClean<V>(z: Zip<V>) {
    z.Top? || (Side(z).Bin? &&
      match CaseOf(z)
      case RedSibling => InnerClean(z)
      case BlackNephews => z.color == Red || StopsClean(z.up)
      case _ => true)
  }

  /** The fix-up that starts under z makes the black counts equal again. The only bad stop is a red
      sibling with a red parent or a red inner nephew, that is, a red node under a red node. */
  ghost predicate StopsLevel<V>(z: Zip<V>) {
    z.Top? || (Side(z).Bin? &&
      match CaseOf(z)
      case RedSibling => z.color == Black && RootColor(Inner(z)) == Black
      case BlackNephews => z.color == Red || StopsLevel(z.up)
      case _ => true)
  }

  lemma PaintFacts<V>(t: Tree<V>, c: Color)
    ensures Keys(Paint(t, c)) == Keys(t) && Nodes(Paint(t, c)) == Nodes(t)
    ensures t.Bin? ==> RootColor(Paint(t, c)) == c
    ensures NoRedRed(t) && c == Black ==> NoRedRed(Paint(t, c))
    ensures Balanced(Paint(t, c)) == Balanced(t)
    ensures t.Bin? ==> BlackHeight(Paint(t, c)) == BlackHeight(t) - Weight(t.color) + Weight(c)
  {
  }

  /** A black-rooted result of the right black height completes the repair. */
  ghost predicate Restored<V>(z: Zip<V>, t: Tree<V>, u: Tree<V>)
    requires !z.Top?
  {
    Balanced(u) && BlackHeight(u) == BlackHeight(t) + 1 + Weight(z.color)
  }

  lemma JoinContent<V>(l: Tree<V>, l': Tree<V>, n: V, k: int, c: Color, c': Color, r: Tree<V>, r': Tree<V>)
    requires SameContent(l, l') && SameContent(r, r')
    ensures SameContent(Bin(l, n, k, c, r), Bin(l', n, k, c', r'))
  {
  }

  lemma RepaintedContent<V>(b: Tree<V>, c: Color, c': Color)
    requires b.Bin?
    ensures SameContent(b, b.(color := c))
    ensures SameContent(b, b.(color := c, left := Paint(b.left, c')))
    ensures SameContent(b, b.(color := c, right := Paint(b.right, c')))
  {
    PaintFacts(b.left, c');
    PaintFacts(b.right, c');
  }

  /** Key order and node set of the rearranged subtree. */
  lemma RearrangedContent<V>(z: Zip<V>, t: Tree<V>)
    requires Short(z, t) && !z.Top?
    ensures ShortOk(z) && SameContent(Close(z, t), Rearranged(z, t))
  {
    ShortSibling(z, t);
    if z.InRight? {
      RightContent(z, t);
    } else {
      LeftContent(z, t);
    }
  }

  lemma RightContent<V>(z: Zip<V>, t: Tree<V>)
    requires ShortOk(z) && z.InRight? && (CaseOf(z) == InnerRed ==> Inner(z).Bin?)
    ensures SameContent(Close(z, t), Rearranged(z, t))
  {
    hide Keys, Nodes, RootColor;
    var b, n, k, c := Side(z), z.node, z.key, z.color;
    match CaseOf(z)
    case RedSibling =>
      var b' := b.(color := Black, right := Paint(b.right, Red));
      RepaintedContent(b, Black, Red);
      JoinContent(b, b', n, k, c, c, t, t);
      RotationsKeepContent(Bin(b', n, k, c, t));
    case BlackNephews =>
      RecolorContent(b, Red);
      JoinContent(b, b.(color := Red), n, k, c, Black, t, t);
    case InnerRed =>
      var b' := b.(color := c, right := Paint(b.right, Black));
      RepaintedContent(b, c, Black);
      RotationsKeepContent(b');
      JoinContent(b, RotateLeft(b'), n, k, c, c, t, t);
      RotationsKeepContent(Bin(RotateLeft(b'), n, k, c, t));
    case OuterRed =>
      var b' := b.(color := c, left := Paint(b.left, Black));
      RepaintedContent(b, c, Black);
      JoinContent(b, b', n, k, c, Black, t, t);
      RotationsKeepContent(Bin(b', n, k, Black, t));
  }

  lemma LeftContent<V>(z: Zip<V>, t: Tree<V>)
    requires ShortOk(z) && z.InLeft? && (CaseOf(z) == InnerRed ==> Inner(z).Bin?)
    ensures SameContent(Close(z, t), Rearranged(z, t))
  {
    hide Keys, Nodes, RootColor;
    var b, n, k, c := Side(z), z.node, z.key, z.color;
    match CaseOf(z)
    case RedSibling =>
      var b' := b.(color := Black, left := Paint(b.left, Red));
      RepaintedContent(b, Black, Red);
      JoinContent(t, t, n, k, c, c, b, b');
      RotationsKeepContent(Bin(t, n, k, c, b'));
    case BlackNephews =>
      RecolorContent(b, Red);
      JoinContent(t, t, n, k, c, Black, b, b.(color := Red));
    case InnerRed =>
      var b' := b.(color := c, left := Paint(b.left, Black));
      RepaintedContent(b, c, Black);
      RotationsKeepContent(b');
      JoinContent(t, t, n, k, c, c, b, RotateRight(b'));
      RotationsKeepContent(Bin(t, n, k, c, RotateRight(b')));
    case OuterRed =>
      var b' := b.(color := c, right := Paint(b.right, Black));
      RepaintedContent(b, c, Black);
      JoinContent(t, t, n, k, c, Black, b, b');
      RotationsKeepContent(Bin(t, n, k, Black, b'));
  }

  ghost predicate ShortOk<V>(z: Zip<V>) {
    !z.Top? && Side(z).Bin? && (CaseOf(z) == RedSibling ==> Inner(z).Bin?)
  }

  /** Every branch restores the black height, except the one that moves the shortage upwards, and a
      red sibling with a red parent or a red inner nephew. */
  lemma RearrangedHeight<V>(z: Zip<V>, t: Tree<V>)
    requires Short(z, t) && !z.Top?
    ensures ShortOk(z)
    ensures var u := Rearranged(z, t);
            if CaseOf(z) == BlackNephews && z.color == Black then
              Balanced(u) && BlackHeight(u) == BlackHeight(t) + 1
            else if CaseOf(z) == RedSibling && (z.color == Red || Inner(z).color == Red) then !Balanced(u)
            else Restored(z, t, u)
  {
    ShortSibling(z, t);
    var b := Side(z);
    assert Balanced(b) && BlackHeight(b) == BlackHeight(t) + 1 && Balanced(b.left) && Balanced(b.right);
    if CaseOf(z) == InnerRed {
      var i := Inner(z);
      assert Balanced(i.left) && Balanced(i.right) && BlackHeight(i.left) == BlackHeight(i.right) == BlackHeight(t);
    }
    hide NoRedRed, ZNoRedRed, Nodes, Keys, ZBalanced, TopColor, Paint;
    PaintHeights(b.left);
    PaintHeights(b.right);
    match CaseOf(z)
    case RedSibling => HeightRedSibling(z, t);
    case BlackNephews =>
      var b' := b.(color := Red);
      assert Balanced(b') && BlackHeight(b') == BlackHeight(t);
    case InnerRed => HeightInnerRed(z, t);
    case OuterRed => HeightOuterRed(z, t);
  }

  lemma Join<V>(l: Tree<V>, n: V, k: int, c: Color, r: Tree<V>)
    requires Balanced(l) && Balanced(r) && BlackHeight(l) == BlackHeight(r)
    ensures var u := Bin(l, n, k, c, r); Balanced(u) && BlackHeight(u) == BlackHeight(l) + Weight(c)
  {
  }

  lemma HeightOuterRed<V>(z: Zip<V>, t: Tree<V>)
    requires !z.Top? && Side(z).Bin? && CaseOf(z) == OuterRed && Outer(z).Bin?
    requires Balanced(t) && Balanced(Side(z)) && BlackHeight(Side(z)) == BlackHeight(t) + 1
    ensures Restored(z, t, Rearranged(z, t))
  {
    var b, o := Side(z), Outer(z);
    var o' := o.(color := Black);
    assert Balanced(b.left) && Balanced(b.right) && BlackHeight(b.left) == BlackHeight(b.right) == BlackHeight(t);
    assert Balanced(o') && BlackHeight(o') == BlackHeight(t) + 1;
    if z.InRight? {
      Join(b.right, z.node, z.key, Black, t);
      Join(o', b.node, b.key, z.color, Bin(b.right, z.node, z.key, Black, t));
    } else {
      Join(t, z.node, z.key, Black, b.left);
      Join(Bin(t, z.node, z.key, Black, b.left), b.node, b.key, z.color, o');
    }
  }

  lemma HeightRedSibling<V>(z: Zip<V>, t: Tree<V>)
    requires !z.Top? && Side(z).Bin? && CaseOf(z) == RedSibling && Inner(z).Bin? && Outer(z).Bin?
    requires Balanced(t) && Balanced(Side(z)) && BlackHeight(Side(z)) == BlackHeight(t) + 1
    ensures var u := Rearranged(z, t);
            if z.color == Black && Inner(z).color == Black then Restored(z, t, u) else !Balanced(u)
  {
    var b, i := Side(z), Inner(z);
    assert Balanced(b.left) && Balanced(b.right) && BlackHeight(b.left) == BlackHeight(b.right) == BlackHeight(t) + 1;
    var i' := i.(color := Red);
    assert Balanced(i') && BlackHeight(i') == BlackHeight(t) + 1 - Weight(i.color);
    if z.InRight? {
      assert Rearranged(z, t) == Bin(b.left, b.node, b.key, Black, Bin(i', z.node, z.key, z.color, t));
    } else {
      assert Rearranged(z, t) == Bin(Bin(t, z.node, z.key, z.color, i'), b.node, b.key, Black, b.right);
    }
  }

  lemma HeightInnerRed<V>(z: Zip<V>, t: Tree<V>)
    requires !z.Top? && Side(z).Bin? && CaseOf(z) == InnerRed && Inner(z).Bin?
    requires Balanced(t) && Balanced(Side(z)) && BlackHeight(Side(z)) == BlackHeight(t) + 1
    ensures Restored(z, t, Rearranged(z, t))
  {
    var b, i := Side(z), Inner(z);
    assert Balanced(b.left) && Balanced(b.right) && Balanced(i.left) && Balanced(i.right);
    assert BlackHeight(i.left) == BlackHeight(i.right) == BlackHeight(t) == BlackHeight(b.left);
    if z.InRight? {
      Join(b.left, b.node, b.key, z.color, i.left);
      Join(i.right, z.node, z.key, z.color, t);
      Join(Bin(b.left, b.node, b.key, z.color, i.left), i.node, i.key, Black, Bin(i.right, z.node, z.key, z.color, t));
    } else {
      Join(t, z.node, z.key, z.color, i.left);
      Join(i.right, b.node, b.key, z.color, b.right);
      Join(Bin(t, z.node, z.key, z.color, i.left), i.node, i.key, Black, Bin(i.right, b.node, b.key, z.color, b.right));
    }
  }

  lemma PaintHeights<V>(t: Tree<V>)
    ensures Balanced(Paint(t, Red)) == Balanced(t) == Balanced(Paint(t, Black))
    ensures t.Bin? ==> BlackHeight(Paint(t, Red)) == BlackHeight(t) - Weight(t.color)
    ensures t.Bin? ==> BlackHeight(Paint(t, Black)) == BlackHeight(t) - Weight(t.color) + 1
  {
  }

  /** Red-red after one round: exactly when the red-sibling branch meets an unclean inner nephew. */
  lemma RearrangedColors<V>(z: Zip<V>, t: Tree<V>)
    requires Short(z, t) && Calm(z, t) && !z.Top?
    ensures ShortOk(z)
    ensures var u := Rearranged(z, t);
            && (NoRedRed(u) <==> CaseOf(z) == RedSibling ==> InnerClean(z))
            && (RootColor(u) == Red ==> z.color == Red)
  {
    ShortSibling(z, t);
    hide Balanced, ZBalanced, Nodes, Keys, BlackHeight;
    var b := Side(z);
    assert NoRedRed(b.left) && NoRedRed(b.right);
    PaintColors(b.left);
    PaintColors(b.right);
    if CaseOf(z) == InnerRed {
      var i := Inner(z);
      assert NoRedRed(i.left) && NoRedRed(i.right) && RootColor(i.left) == RootColor(i.right) == Black;
    }
  }

  lemma RearrangedRoot<V>(z: Zip<V>, t: Tree<V>)
    requires ShortOk(z) && (CaseOf(z) == InnerRed ==> Inner(z).Bin?)
    ensures var u := Rearranged(z, t);
            u.Bin? && (z.color == Black || CaseOf(z) == BlackNephews ==> RootColor(u) == Black)
  {
  }

  lemma PaintColors<V>(t: Tree<V>)
    ensures t.Bin? ==> RootColor(Paint(t, Red)) == Red && RootColor(Paint(t, Black)) == Black
    ensures NoRedRed(t) ==> NoRedRed(Paint(t, Black))
    ensures t.Bin? && NoRedRed(t) ==>
              (NoRedRed(Paint(t, Red)) <==> RootColor(t.left) == Black && RootColor(t.right) == Black)
  {
  }

  /** The loop goes on: the shortage has moved to the parent. */
  lemma ShortClimbs<V>(z: Zip<V>, t: Tree<V>)
    requires Short(z, t) && !z.Top? && Side(z).Bin? && CaseOf(z) == BlackNephews && z.color == Black
    ensures Short(z.up, Rearranged(z, t)) && (Calm(z, t) ==> Calm(z.up, Rearranged(z, t)))
    ensures (StopsClean(z) <==> StopsClean(z.up)) && (StopsLevel(z) <==> StopsLevel(z.up))
  {
    RearrangedHeight(z, t);
    if Calm(z, t) {
      RearrangedColors(z, t);
    }
  }

  /** How the fix-up ends: the root is black, black counts are equal exactly when StopsLevel says so, which it does in
      a tree without red-red; then red-red is absent exactly when StopsClean says so. */
  ghost predicate Repaired<V>(w: Tree<V>, calm: bool, level: bool, clean: bool) {
    RootColor(w) == Black && (Balanced(w) <==> level) && (calm ==> level && (NoRedRed(w) <==> clean))
  }

  /** The loop stops. */
  lemma ShortStops<V>(z: Zip<V>, t: Tree<V>)
    requires Short(z, t) && !z.Top? && Side(z).Bin? && !(CaseOf(z) == BlackNephews && z.color == Black)
    ensures ShortOk(z)
    ensures Repaired(Plug(z.up, Rearranged(z, t)), Calm(z, t), StopsLevel(z), StopsClean(z))
  {
    hide Rearranged, Paint, Keys, Nodes;
    ShortSibling(z, t);
    RearrangedHeight(z, t);
    RearrangedRoot(z, t);
    var u := Rearranged(z, t);
    PlugBalanced(z.up, u);
    PlugColor(z.up, u);
    if Calm(z, t) {
      RearrangedColors(z, t);
      PlugNoRedRed(z.up, u);
    }
  }

  lemma ShortAtTop<V>(z: Zip<V>, t: Tree<V>)
    requires Short(z, t) && z.Top?
    ensures Repaired(Plug(z, t), Calm(z, t), StopsLevel(z), StopsClean(z))
  {
  }

  ghost function OnlyChild<V>(d: Tree<V>): Tree<V>
    requires d.Bin?
  {
    if d.left.Bin? then d.left else d.right
  }

  /** Taking out the node at the point of view leaves equal black counts, or a tree without red-red. */
  ghost predicate LevelAt<V>(z: Zip<V>, d: Tree<V>)
    requires d.Bin?
  {
    if OnlyChild(d).Bin? then d.color == Black else d.color == Red || StopsLevel(z)
  }

  ghost predicate CleanAt<V>(z: Zip<V>, d: Tree<V>)
    requires d.Bin?
  {
    OnlyChild(d).Bin? || d.color == Red || StopsClean(z)
  }

  /** Unhooking a node with at most one child: what is left when its child takes its place, black. */
  lemma Unhooked<V>(z: Zip<V>, d: Tree<V>)
    requires d.Bin? && (d.left.Leaf? || d.right.Leaf?) && Balanced(Plug(z, d)) && RootColor(Plug(z, d)) == Black
    ensures var s, calm := Paint(OnlyChild(d), Black), NoRedRed(Plug(z, d));
            if s.Leaf? && d.color == Black then Short(z, s) && (calm ==> Calm(z, s))
            else Repaired(Plug(z, s), calm, LevelAt(z, d), CleanAt(z, d))
  {
    PlugBalanced(z, d);
    PlugNoRedRed(z, d);
    PlugColor(z, d);
    var c := OnlyChild(d);
    var s := Paint(c, Black);
    PaintFacts(c, Black);
    PlugBalanced(z, s);
    PlugNoRedRed(z, s);
    PlugColor(z, s);
    assert c.Bin? ==> BlackHeight(c) == 0 && c.color == Red;
  }

  // ---------------------------------------------------------------- where a deletion takes place

  /** The point of view on node n of the tree. */
  ghost function FocusOn<V>(z: Zip<V>, t: Tree<V>, n: V): (f: (Zip<V>, Tree<V>))
    requires n in Nodes(t)
    ensures f.1.Bin? && f.1.node == n && Plug(f.0, f.1) == Plug(z, t)
    decreases t
  {
    if t.node == n then (z, t)
    else if n in Nodes(t.left) then FocusOn(GoLeft(z, t), t.left, n)
    else FocusOn(GoRight(z, t), t.right, n)
  }

  ghost function Leftmost<V>(z: Zip<V>, t: Tree<V>): (f: (Zip<V>, Tree<V>))
    requires t.Bin?
    ensures f.1.Bin? && f.1.left.Leaf? && Plug(f.0, f.1) == Plug(z, t)
    decreases t
  {
    if t.left.Leaf? then (z, t) else Leftmost(GoLeft(z, t), t.left)
  }

  /** The node that is actually unhooked: the in-order successor if there is a right subtree. */
  ghost function UnhookPoint<V>(z: Zip<V>, t: Tree<V>): (f: (Zip<V>, Tree<V>))
    requires t.Bin?
    ensures f.1.Bin? && (f.1.left.Leaf? || f.1.right.Leaf?)
  {
    if t.right.Bin? then Leftmost(GoRight(z, t), t.right) else (z, t)
  }

  /** Deleting node n leaves a valid tree: decided on the tree before the call. */
  ghost predicate DeletesClean<V>(t: Tree<V>, n: V)
    requires n in Nodes(t)
  {
    var f := FocusOn(Top, t, n);
    var u := UnhookPoint(f.0, f.1);
    CleanAt(u.0, u.1)
  }

  /** Deleting node n leaves equal black counts: decided on the tree before the call. */
  ghost predicate DeletesLevel<V>(t: Tree<V>, n: V)
    requires n in Nodes(t)
  {
    var f := FocusOn(Top, t, n);
    var u := UnhookPoint(f.0, f.1);
    LevelAt(u.0, u.1)
  }

  /** The subtree found does not depend on the context, and its context reaches up to the given one. */
  lemma {:induction false} LeftmostContext<V>(z: Zip<V>, z': Zip<V>, t: Tree<V>)
    requires t.Bin? && (StopsClean(z) <==> StopsClean(z')) && (StopsLevel(z) <==> StopsLevel(z'))
    ensures Leftmost(z, t).1 == Leftmost(z', t).1
    ensures StopsClean(Leftmost(z, t).0) <==> StopsClean(Leftmost(z', t).0)
    ensures StopsLevel(Leftmost(z, t).0) <==> StopsLevel(Leftmost(z', t).0)
    decreases t
  {
    if t.left.Leaf? {
    } else {
      LeftmostContext(GoLeft(z, t), GoLeft(z', t), t.left);
    }
  }

  lemma {:induction false} LeftmostKeys<V>(z: Zip<V>, t: Tree<V>)
    requires t.Bin?
    ensures var f := Leftmost(z, t);
            && Before(f.0) == Before(z)
            && Keys(t) + After(z) == [f.1.key] + (Keys(f.1.right) + After(f.0))
    decreases t
  {
    hide Before;
    if t.left.Bin? {
      LeftmostKeys(GoLeft(z, t), t.left);
      BeforeLeft(z, t);
      Glue(Keys(t.left), [t.key], Keys(t.right), After(z));
    } else {
      var f := Leftmost(z, t);
      Glue([], [t.key], Keys(t.right), After(z));
      assert Keys(t) == [] + [t.key] + Keys(t.right);
    }
  }

  lemma BeforeLeft<V>(z: Zip<V>, t: Tree<V>)
    requires t.Bin?
    ensures Before(GoLeft(z, t)) == Before(z)
  {
  }

  lemma Glue(a: seq<int>, k: seq<int>, b: seq<int>, c: seq<int>)
    ensures a + k + b + c == a + (k + b + c)
    ensures [] + k + b + c == k + (b + c)
  {
  }

  lemma ZipLeft<V>(z: Zip<V>, t: Tree<V>)
    requires t.Bin?
    ensures Before(GoLeft(z, t)) == Before(z) && After(GoLeft(z, t)) == [t.key] + Keys(t.right) + After(z)
  {
  }

  /** In sorted order, everything before a key is smaller and everything after it greater. */
  lemma AroundKey(a: seq<int>, l: seq<int>, k: int, r: seq<int>, c: seq<int>)
    requires Sorted(a + (l + [k] + r) + c)
    ensures forall x :: x in l ==> x < k
    ensures forall x :: x in r ==> k < x
  {
    var s := a + (l + [k] + r) + c;
    var n := |a| + |l|;
    assert s[n] == k;
    forall x | x in l
      ensures x < k
    {
      var i :| 0 <= i < |l| && l[i] == x;
      assert s[|a| + i] == x;
    }
    forall x | x in r
      ensures k < x
    {
      var i :| 0 <= i < |r| && r[i] == x;
      assert s[n + 1 + i] == x;
    }
  }

  ghost function KeySet<V>(t: Tree<V>): set<int> {
    set k | k in Keys(t)
  }

  /** Taking one key out of a sorted sequence. */
  lemma Removed(s: seq<int>, a: seq<int>, k: int, b: seq<int>)
    requires Sorted(s) && s == a + [k] + b
    ensures Sorted(a + b)
    ensures (set x | x in a + b) == (set x | x in s) - {k}
  {
    forall x
      ensures x in a + b <==> x in s && x != k
    {
      if x in a + b {
        var i :| 0 <= i < |a + b| && (a + b)[i] == x;
        var j := if i < |a| then i else i + 1;
        assert s[j] == x && s[|a|] == k;
      }
    }
    forall i, j | 0 <= i < j < |a + b|
      ensures (a + b)[i] < (a + b)[j]
    {
      var i', j' := (if i < |a| then i else i + 1), (if j < |a| then j else j + 1);
      assert s[i'] == (a + b)[i] && s[j'] == (a + b)[j];
    }
  }

  /** Putting one key into a gap of a sorted sequence. */
  lemma Inserted(a: seq<int>, k: int, b: seq<int>)
    requires Sorted(a + b)
    requires (forall x :: x in a ==> x < k) && (forall x :: x in b ==> k < x)
    ensures Sorted(a + [k] + b)
    ensures (set x | x in a + [k] + b) == (set x | x in a + b) + {k}
  {
    var s := a + [k] + b;
    forall i, j | 0 <= i < j < |s|
      ensures s[i] < s[j]
    {
      if i < |a| {
        assert s[i] == (a + b)[i] && s[i] in a;
      }
      if j > |a| {
        assert s[j] == (a + b)[j - 1] && s[j] in b;
      }
      if i > |a| {
        assert s[i] == (a + b)[i - 1];
      } else if j < |a| {
        assert s[j] == (a + b)[j];
      }
    }
    forall x
      ensures x in s <==> x in a + b || x == k
    {
      assert x in s <==> x in a || x == k || x in b;
    }
  }

  /** Splicing out the unhook point (after the key swap) removes exactly the key of the target. */
  lemma DeletedKeys<V>(z: Zip<V>, t: Tree<V>)
    requires t.Bin? && Sorted(Keys(Plug(z, t)))
    ensures t.right.Leaf? ==>
              var w := Plug(z, t.left);
              Sorted(Keys(w)) && KeySet(w) == KeySet(Plug(z, t)) - {t.key}
    ensures t.right.Bin? ==>
              var s := Leftmost(GoRight(z, t), t.right).1;
              var f := Leftmost(GoRight(z, t.(key := s.key)), t.right);
              var w := Plug(f.0, s.right);
              Sorted(Keys(w)) && KeySet(w) == KeySet(Plug(z, t)) - {t.key}
  {
    hide Sorted, After, Before, Keys, Leftmost, Plug;
    KeysAround(z, t);
    var l, r, a, c := Keys(t.left), Keys(t.right), Before(z), After(z);
    Removed(Keys(Plug(z, t)), a + l, t.key, r + c);
    if t.right.Leaf? {
      PlugKeys(z, t.left);
      KeysLeaf(t.right);
      assert a + l + ([] + c) == a + l + c;
    } else {
      SplicedKeys(z, t);
    }
  }

  lemma KeysAround<V>(z: Zip<V>, t: Tree<V>)
    requires t.Bin?
    ensures Keys(Plug(z, t)) == Before(z) + Keys(t.left) + [t.key] + (Keys(t.right) + After(z))
  {
    hide Keys, Before, After, Plug;
    PlugKeys(z, t);
    KeysBin(t);
    Around(Before(z), Keys(t.left), t.key, Keys(t.right), After(z));
  }

  /** The successor's key has moved up, and the successor is spliced out. */
  lemma SplicedKeys<V>(z: Zip<V>, t: Tree<V>)
    requires t.Bin? && t.right.Bin?
    ensures var s := Leftmost(GoRight(z, t), t.right).1;
            var f := Leftmost(GoRight(z, t.(key := s.key)), t.right);
            Keys(Plug(f.0, s.right)) == Before(z) + Keys(t.left) + (Keys(t.right) + After(z))
  {
    hide After, Before, Keys, Leftmost, Plug;
    var s := Leftmost(GoRight(z, t), t.right).1;
    var z1 := GoRight(z, t.(key := s.key));
    var f := Leftmost(z1, t.right);
    LeftmostSame(GoRight(z, t), z1, t.right);
    LeftmostKeys(z1, t.right);
    PlugKeys(f.0, s.right);
    ZipRight(z, t.(key := s.key));
    Glue2(Before(z) + Keys(t.left), [s.key], Keys(s.right), After(f.0));
  }

  lemma Around(a: seq<int>, l: seq<int>, k: int, r: seq<int>, c: seq<int>)
    ensures a + (l + [k] + r) + c == a + l + [k] + (r + c)
  {
  }

  lemma Glue2(a: seq<int>, k: seq<int>, b: seq<int>, c: seq<int>)
    ensures a + k + b + c == a + (k + (b + c))
  {
  }

  lemma KeysBin<V>(t: Tree<V>)
    requires t.Bin?
    ensures Keys(t) == Keys(t.left) + [t.key] + Keys(t.right)
  {
  }

  lemma KeysLeaf<V>(t: Tree<V>)
    requires t.Leaf?
    ensures Keys(t) == []
  {
  }

  lemma ZipRight<V>(z: Zip<V>, t: Tree<V>)
    requires t.Bin?
    ensures Before(GoRight(z, t)) == Before(z) + Keys(t.left) + [t.key] && After(GoRight(z, t)) == After(z)
  {
  }

  lemma {:induction false} LeftmostSame<V>(z: Zip<V>, z': Zip<V>, t: Tree<V>)
    requires t.Bin?
    ensures Leftmost(z, t).1 == Leftmost(z', t).1
    decreases t
  {
    if t.left.Leaf? {
    } else {
      LeftmostSame(GoLeft(z, t), GoLeft(z', t), t.left);
    }
  }

  /** Colours and balance do not see keys. */
  lemma Rekeyed<V>(z: Zip<V>, t: Tree<V>, k: int)
    requires t.Bin?
    ensures var u := t.(key := k);
            && Nodes(u) == Nodes(t)
            && (NoRedRed(Plug(z, u)) <==> NoRedRed(Plug(z, t))) && (Balanced(Plug(z, u)) <==> Balanced(Plug(z, t)))
            && RootColor(Plug(z, u)) == RootColor(Plug(z, t))
  {
    var u := t.(key := k);
    PlugBalanced(z, t);
    PlugBalanced(z, u);
    PlugNoRedRed(z, t);
    PlugNoRedRed(z, u);
    PlugColor(z, t);
    PlugColor(z, u);
  }

  /** The fix-up is not complete: in this valid tree, deleting the last key makes the red-sibling
      branch paint 15 red above the red 12. The black counts are still equal, but deleting 15 next
      would make them differ. */
  lemma DeletionCanLeaveRedRed()
    ensures var ten := Bin(Bin(Leaf, 5, 5, Black, Leaf), 10, 10, Red,
                           Bin(Bin(Leaf, 12, 12, Red, Leaf), 15, 15, Black, Leaf));
            var t := Bin(ten, 20, 20, Black, Bin(Leaf, 30, 30, Black, Leaf));
            var z := InRight(Top, ten, 20, 20, Black);
            && IsRB(t) && 30 in Nodes(t) && !DeletesClean(t, 30)
            && FocusOn(Top, t, 30) == (z, Bin(Leaf, 30, 30, Black, Leaf)) && ShortOk(z)
            && var w := Rearranged(z, Leaf);
            !NoRedRed(w) && Balanced(w) && 15 in Nodes(w) && !DeletesLevel(w, 15)
  {
    var five, twelve, thirty: Tree<int> :=
      Bin(Leaf, 5, 5, Black, Leaf), Bin(Leaf, 12, 12, Red, Leaf), Bin(Leaf, 30, 30, Black, Leaf);
    var fifteen: Tree<int> := Bin(twelve, 15, 15, Black, Leaf);
    var ten: Tree<int> := Bin(five, 10, 10, Red, fifteen);
    var t: Tree<int> := Bin(ten, 20, 20, Black, thirty);
    var z := InRight(Top, ten, 20, 20, Black);
    assert Sorted(Keys(t)) by {
      assert Keys(five) == [5] && Keys(twelve) == [12] && Keys(thirty) == [30];
      assert Keys(fifteen) == [12, 15] && Keys(ten) == [5, 10, 12, 15] && Keys(t) == [5, 10, 12, 15, 20, 30];
    }
    assert Nodes(five) == {5} && Nodes(twelve) == {12} && Nodes(thirty) == {30};
    assert Nodes(fifteen) == {12, 15} && Nodes(ten) == {5, 10, 12, 15};
    assert NoRedRed(ten) && Balanced(ten) && BlackHeight(ten) == 1;
    assert FocusOn(Top, t, 30) == (z, thirty);
    RedRedTree();
  }

  lemma RedRedTree()
    ensures var twelve, five: Tree<int> := Bin(Leaf, 12, 12, Red, Leaf), Bin(Leaf, 5, 5, Black, Leaf);
            var ten := Bin(five, 10, 10, Red, Bin(twelve, 15, 15, Black, Leaf));
            var w := Rearranged(InRight(Top, ten, 20, 20, Black), Leaf);
            !NoRedRed(w) && Balanced(w) && 15 in Nodes(w) && !DeletesLevel(w, 15)
  {
    var twelve, five: Tree<int> := Bin(Leaf, 12, 12, Red, Leaf), Bin(Leaf, 5, 5, Black, Leaf);
    var fifteen: Tree<int> := Bin(twelve, 15, 15, Red, Leaf);
    var twenty: Tree<int> := Bin(fifteen, 20, 20, Black, Leaf);
    var w: Tree<int> := Bin(five, 10, 10, Black, twenty);
    var ten: Tree<int> := Bin(five, 10, 10, Red, Bin(twelve, 15, 15, Black, Leaf));
    assert Rearranged(InRight(Top, ten, 20, 20, Black), Leaf) == w;
    assert Balanced(twelve) && Balanced(fifteen) && Balanced(twenty) && BlackHeight(fifteen) == 0;
    assert !NoRedRed(fifteen) && !NoRedRed(twenty);
    assert Nodes(five) == {5} && Nodes(fifteen) == {12, 15} && Nodes(twenty) == {12, 15, 20};
    assert FocusOn(GoRight(Top, w), twenty, 15) == FocusOn(GoLeft(GoRight(Top, w), twenty), fifteen, 15);
  }
}
