/** The insertion fix-up of rbtree.c on trees with any colours below a black root, such as a deletion can leave:
    what it keeps always, and when it keeps equal black counts. */
module RbLevel {
  import opened RbSpec
  import opened RbFix

  lemma TopUp<V>(z: Zip<V>)
    requires !z.Top? && !z.up.Top?
    ensures TopColor(z) == if z.up.up.Top? then z.up.color else TopColor(z.up.up)
  {
    assert TopColor(z) == TopColor(z.up);
  }

  /** The recoloured grandparent. */
  lemma RecolorGrows<V>(z: Zip<V>, t: Tree<V>)
    requires Growing(z, t) && Near(z) == Red && !z.up.Top? && RootColor(Side(z.up)) == Red
    ensures var g := Close(z.up, Close(z, t));
            && g.left.Bin? && g.right.Bin? && Growing(z.up.up, Recolored(g)) && SameContent(g, Recolored(g))
  {
    var g := Close(z.up, Close(z, t));
    TopUp(z);
    RecolorContent(g.left, Black);
    RecolorContent(g.right, Black);
  }

  lemma OutwardShape<V>(z: Zip<V>, t: Tree<V>)
    requires Growing(z, t) && Near(z) == Red
    ensures var p, u := Close(z, t), Outward(z, t);
            u.Bin? && u.left.Bin? && u.left.color == Red && u.color == Red && SameContent(p, u)
    ensures var p, u := Close(z, t), OutwardRight(z, t);
            u.Bin? && u.right.Bin? && u.right.color == Red && u.color == Red && SameContent(p, u)
  {
    RotationsKeepContent(Close(z, t));
  }

  lemma LiftLeftGrows<V>(z: Zip<V>, t: Tree<V>)
    requires Growing(z, t) && Near(z) == Red && z.up.InLeft?
    ensures var g, u := Close(z.up, Close(z, t)), LiftedLeft(z, t);
            && u.left.Bin? && Growing(GoLeft(z.up.up, u), u.left) && u.color == Black && SameContent(g, u)
  {
    OutwardShape(z, t);
    TopUp(z);
    hide Outward, Nodes, Keys;
    var o, g := Outward(z, t), z.up;
    RecolorContent(o, Black);
    ContentAbove(g, Close(z, t), o.(color := Black), Red);
    RotationsKeepContent(Bin(o.(color := Black), g.node, g.key, Red, g.right));
  }

  lemma LiftRightGrows<V>(z: Zip<V>, t: Tree<V>)
    requires Growing(z, t) && Near(z) == Red && z.up.InRight?
    ensures var g, u := Close(z.up, Close(z, t)), LiftedRight(z, t);
            && u.right.Bin? && Growing(GoRight(z.up.up, u), u.right) && u.color == Black && SameContent(g, u)
  {
    OutwardShape(z, t);
    TopUp(z);
    hide OutwardRight, Nodes, Keys;
    var o, g := OutwardRight(z, t), z.up;
    RecolorContent(o, Black);
    ContentAbove(g, Close(z, t), o.(color := Black), Red);
    RotationsKeepContent(Bin(g.left, g.node, g.key, Red, o.(color := Black)));
  }

  // ---------------------------------------------------------------- equal black counts

  ghost predicate Even<V>(z: Zip<V>, t: Tree<V>) {
    Balanced(t) && ZBalanced(z, BlackHeight(t))
  }

  /** Every grandparent that the insertion loop recolours is black. */
  ghost predicate GrowsLevel<V>(z: Zip<V>)
    decreases z
  {
    Near(z) == Black || z.up.Top? ||
    (z.up.color == Black && (RootColor(Side(z.up)) == Red ==> GrowsLevel(z.up.up)))
  }

  /** Black counts that no later round makes equal: t has one too many, or they differ below t. */
  ghost predicate Off<V>(z: Zip<V>, t: Tree<V>)
    requires t.Bin?
  {
    || (!z.Top? && BlackHeight(t) > 0 && ZBalanced(z, BlackHeight(t) - 1))
    || !Balanced(t.left) || !Balanced(t.right)
  }

  ghost predicate Hopeless<V>(z: Zip<V>, t: Tree<V>)
    requires t.Bin?
  {
    if Near(z) == Black then !Even(z, t) else (Even(z, t) && !GrowsLevel(z)) || Off(z, t)
  }

  /**
   * A round under a red uncle decides nothing yet: equal black counts with nothing but black grandparents to come stay
   * that way, and so does the certainty that the counts will differ in the end.
   */
  lemma RecolorEven<V>(z: Zip<V>, t: Tree<V>)
    requires Growing(z, t) && Near(z) == Red && !z.up.Top? && RootColor(Side(z.up)) == Red
    ensures var g := Close(z.up, Close(z, t));
            && g.left.Bin? && g.right.Bin?
            && (Even(z, t) && GrowsLevel(z) ==> Even(z.up.up, Recolored(g)) && GrowsLevel(z.up.up))
            && (Hopeless(z, t) ==> Hopeless(z.up.up, Recolored(g)))
  {
    hide GrowsLevel;
    var zg, p, g := z.up.up, Close(z, t), Close(z.up, Close(z, t));
    var r := Recolored(g);
    GrowsStep(z);
    if Even(z, t) {
      RecolorCounts(z, t);
      TopUp(z);
      if z.up.color == Red {
        OneMore(zg, r);
      }
    }
    if Off(z, t) {
      OffInside(z, t);
      assert !Balanced(r.left) || !Balanced(r.right);
      OffUneven(zg, r);
    }
  }

  lemma GrowsStep<V>(z: Zip<V>)
    requires Near(z) == Red && !z.up.Top?
    ensures GrowsLevel(z) <==> z.up.color == Black && (RootColor(Side(z.up)) == Red ==> GrowsLevel(z.up.up))
    ensures Near(z.up.up) == Black ==> GrowsLevel(z.up.up)
  {
  }

  lemma RecolorCounts<V>(z: Zip<V>, t: Tree<V>)
    requires Growing(z, t) && Near(z) == Red && !z.up.Top? && RootColor(Side(z.up)) == Red && Even(z, t)
    ensures var g := Close(z.up, Close(z, t));
            && Balanced(Recolored(g)) && BlackHeight(Recolored(g)) == BlackHeight(t) + 1
            && ZBalanced(z.up.up, BlackHeight(t) + Weight(z.up.color))
  {
    var p, u := Close(z, t), Side(z.up);
    assert Balanced(p) && BlackHeight(p) == BlackHeight(t) && ZBalanced(z.up, BlackHeight(p));
    assert Balanced(u) && BlackHeight(u) == BlackHeight(p);
    var p', u' := p.(color := Black), u.(color := Black);
    assert Balanced(p') && Balanced(u') && BlackHeight(p') == BlackHeight(u') == BlackHeight(t) + 1;
  }

  /** A context that expects fewer black nodes than there are. */
  lemma OneMore<V>(z: Zip<V>, t: Tree<V>)
    requires t.Bin? && BlackHeight(t) > 0 && !z.Top? && ZBalanced(z, BlackHeight(t) - 1)
    ensures Off(z, t) && !Even(z, t)
  {
  }

  lemma OffUneven<V>(z: Zip<V>, t: Tree<V>)
    requires t.Bin? && Off(z, t)
    ensures !Even(z, t) && (Near(z) == Black || !Even(z, t) ==> Hopeless(z, t))
  {
  }

  lemma OffInside<V>(z: Zip<V>, t: Tree<V>)
    requires t.Bin? && Off(z, t) && !z.Top?
    ensures !Balanced(Close(z, t))
  {
  }

  lemma EvenUp<V>(z: Zip<V>, t: Tree<V>)
    requires !z.Top?
    ensures Even(z, t) <==> Even(z.up, Close(z, t))
  {
  }

  /** What the black-uncle rotation makes of the subtree at the grandparent. */
  ghost predicate Lifts<V>(z: Zip<V>, t: Tree<V>, u: Tree<V>)
    requires !z.Top? && !z.up.Top? && t.Bin?
  {
    && (Balanced(t) && Balanced(Side(z)) && Balanced(Side(z.up))
        && BlackHeight(t) == BlackHeight(Side(z)) == BlackHeight(Side(z.up))
        ==> Balanced(u) && BlackHeight(u) == BlackHeight(t) + 1)
    && (Balanced(u) ==> Balanced(t.left) && Balanced(t.right) && BlackHeight(Side(z)) == BlackHeight(t))
  }

  lemma JoinRed<V>(l: Tree<V>, n: V, k: int, r: Tree<V>)
    ensures var u := Bin(l, n, k, Red, r);
            && BlackHeight(u) == BlackHeight(l)
            && (Balanced(u) <==> Balanced(l) && Balanced(r) && BlackHeight(l) == BlackHeight(r))
  {
  }

  lemma LeftLifts<V>(z: Zip<V>, t: Tree<V>)
    requires Growing(z, t) && Near(z) == Red && z.up.InLeft?
    ensures Lifts(z, t, LiftedLeft(z, t))
  {
    var g, s, u := z.up, Side(z), LiftedLeft(z, t);
    if z.InLeft? {
      assert u == Bin(t, z.node, z.key, Black, Bin(s, g.node, g.key, Red, g.right));
      JoinRed(s, g.node, g.key, g.right);
    } else {
      assert u == Bin(Bin(s, z.node, z.key, Red, t.left), t.node, t.key, Black,
                      Bin(t.right, g.node, g.key, Red, g.right));
      JoinRed(s, z.node, z.key, t.left);
      JoinRed(t.right, g.node, g.key, g.right);
    }
  }

  lemma RightLifts<V>(z: Zip<V>, t: Tree<V>)
    requires Growing(z, t) && Near(z) == Red && z.up.InRight?
    ensures Lifts(z, t, LiftedRight(z, t))
  {
    var g, s, u := z.up, Side(z), LiftedRight(z, t);
    if z.InRight? {
      assert u == Bin(Bin(g.left, g.node, g.key, Red, s), z.node, z.key, Black, t);
      JoinRed(g.left, g.node, g.key, s);
    } else {
      assert u == Bin(Bin(g.left, g.node, g.key, Red, t.left), t.node, t.key, Black,
                      Bin(t.right, z.node, z.key, Red, s));
      JoinRed(g.left, g.node, g.key, t.left);
      JoinRed(t.right, z.node, z.key, s);
    }
  }

  /** The rotation keeps equal black counts exactly when the grandparent was black. */
  lemma LiftEven<V>(z: Zip<V>, t: Tree<V>, u: Tree<V>)
    requires Growing(z, t) && Near(z) == Red && !z.up.Top? && RootColor(Side(z.up)) == Black && Lifts(z, t, u)
    ensures Even(z, t) && GrowsLevel(z) ==> Even(z.up.up, u)
    ensures Hopeless(z, t) ==> !Even(z.up.up, u)
  {
    hide GrowsLevel;
    GrowsStep(z);
    TopUp(z);
    if Even(z, t) {
      assert ZBalanced(z.up, BlackHeight(t)) && ZBalanced(z.up.up, BlackHeight(t) + Weight(z.up.color));
    }
  }

  // ---------------------------------------------------------------- whole insertions

  /** The hole in which a search for k ends. */
  ghost function GapAt<V>(z: Zip<V>, t: Tree<V>, k: int): Zip<V>
    decreases t
  {
    if t.Leaf? then z
    else if k < t.key then GapAt(GoLeft(z, t), t.left, k)
    else GapAt(GoRight(z, t), t.right, k)
  }

  /** Inserting k keeps equal black counts: decided on the tree before the call. */
  ghost predicate InsertsLevel<V>(t: Tree<V>, k: int) {
    GrowsLevel(GapAt(Top, t, k))
  }

  lemma PlantedAnywhere<V>(z: Zip<V>, n: V, k: int)
    requires RootColor(Plug(z, Leaf)) == Black
    ensures var t := Bin(Leaf, n, k, Red, Leaf);
            && Growing(z, t) && (Even(z, t) <==> Balanced(Plug(z, Leaf)))
            && (IsRB(Plug(z, Leaf)) ==> Sturdy(z, t))
  {
    PlugColor(z, Leaf);
    PlugBalanced(z, Leaf);
    if IsRB(Plug(z, Leaf)) {
      Planted(z, n, k);
    }
  }

  /** How far the insertion loop has come, measured by where it started. */
  ghost predicate Trail<V>(z0: Zip<V>, t0: Tree<V>, z: Zip<V>, t: Tree<V>) {
    && (Sturdy(z0, t0) ==> Sturdy(z, t))
    && (Even(z0, t0) && GrowsLevel(z0) ==> Even(z, t) && GrowsLevel(z))
    && t.Bin? && (Even(z0, t0) && !GrowsLevel(z0) ==> Hopeless(z, t))
  }

  lemma TrailStarts<V>(z: Zip<V>, t: Tree<V>)
    requires t.Bin?
    ensures Trail(z, t, z, t)
  {
  }

  lemma TrailGoesOn<V>(z0: Zip<V>, t0: Tree<V>, z: Zip<V>, t: Tree<V>, z': Zip<V>, t': Tree<V>)
    requires Trail(z0, t0, z, t) && t'.Bin?
    requires Sturdy(z, t) ==> Sturdy(z', t')
    requires Even(z, t) && GrowsLevel(z) ==> Even(z', t') && GrowsLevel(z')
    requires Hopeless(z, t) ==> Hopeless(z', t')
    ensures Trail(z0, t0, z', t')
  {
  }

  /** Under a black parent the loop stops, and the root is painted black. */
  lemma TrailEnds<V>(z0: Zip<V>, t0: Tree<V>, z: Zip<V>, t: Tree<V>)
    requires Trail(z0, t0, z, t) && Growing(z, t) && Near(z) == Black
    ensures var w := Plug(z, t);
            && w.Bin? && SameContent(w, w.(color := Black))
            && (Sturdy(z0, t0) ==> NoRedRed(w.(color := Black)) && Balanced(w.(color := Black)))
            && (Even(z0, t0) ==> (Balanced(w.(color := Black)) <==> GrowsLevel(z0)))
  {
    PlugBin(z, t);
    PlugBalanced(z, t);
    RecolorContent(Plug(z, t), Black);
    if Sturdy(z0, t0) {
      GrowingDone(z, t);
    }
  }
}
