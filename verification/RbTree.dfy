/** The pointer red-black tree of rbtree.c: parent links, a shared nil sentinel, fix-up loops. */
module RbTree {
  import opened RbSpec
  import opened RbFix
  import opened RbLevel
  import opened RbRun

  class Node {
    var parent: Node
    var left: Node
    var right: Node
    var color: Color
    var key: int

    constructor (k: int)
      ensures key == k && color == Black
    {
      key := k;
      color := Black;
      parent, left, right := this, this, this;
    }
  }

  type TNode = Tree<Node>
  type ZNode = Zip<Node>

  class RBTree {
    var root: Node
    const nil: Node

    /** The abstract tree; between calls it mirrors the pointers. */
    ghost var tree: TNode

    ghost function RootOf(t: TNode): Node {
      if t.Leaf? then nil else t.node
    }

    /** The parent of the node plugged into z. */
    ghost function ParentOf(z: ZNode): Node {
      if z.Top? then nil else z.node
    }

    /** The pointers below `p` spell out `t`. */
    ghost predicate Sub(t: TNode, p: Node)
      reads Nodes(t)
    {
      t.Leaf? ||
      (var n := t.node;
       && n.left == RootOf(t.left) && n.right == RootOf(t.right) && n.parent == p
       && n.key == t.key && n.color == t.color
       && Sub(t.left, n) && Sub(t.right, n))
    }

    /** The pointers around the hole, which holds `child`, spell out `z`. */
    ghost predicate Around(z: ZNode, child: Node)
      reads this`root, ZNodes(z)
    {
      if z.Top? then root == child
      else
        var n := z.node;
        && n.key == z.key && n.color == z.color && n.parent == ParentOf(z.up)
        && n.left == (if z.InLeft? then child else RootOf(z.left))
        && n.right == (if z.InLeft? then RootOf(z.right) else child)
        && Sub(Side(z), n) && Around(z.up, n)
    }

    ghost function All(z: ZNode, t: TNode): set<Node> {
      ZNodes(z) + Nodes(t)
    }

    /** The heap is the tree `t` plugged into `z`. The sentinel is black and in neither; its own
        pointers are unconstrained, since nobody relies on them. */
    ghost predicate Holds(z: ZNode, t: TNode)
      reads this`root, nil, ZNodes(z), Nodes(t)
    {
      && nil.color == Black && nil !in ZNodes(z) && nil !in Nodes(t)
      && Apart(t) && ZApart(z) && ZNodes(z) !! Nodes(t)
      && Sub(t, ParentOf(z)) && Around(z, RootOf(t))
    }

    ghost predicate Valid()
      reads this, nil, Nodes(tree)
    {
      Holds(Top, tree) && IsRB(tree)
    }

    /** RBT_initTree. */
    constructor ()
      ensures Valid() && tree == Leaf && fresh(nil)
    {
      var n := new Node(0);
      nil := n;
      root := n;
      tree := Leaf;
      new;
      nil.left, nil.right, nil.parent := nil, nil, nil;
    }

    // -------------------------------------------------------------- moving the point of view

    lemma Ascend(z: ZNode, t: TNode)
      requires Holds(z, t) && !z.Top?
      ensures Holds(z.up, Close(z, t)) && All(z.up, Close(z, t)) == All(z, t)
    {
    }

    lemma DescendLeft(z: ZNode, t: TNode)
      requires Holds(z, t) && t.Bin?
      ensures Holds(GoLeft(z, t), t.left) && All(GoLeft(z, t), t.left) == All(z, t)
    {
    }

    lemma DescendRight(z: ZNode, t: TNode)
      requires Holds(z, t) && t.Bin?
      ensures Holds(GoRight(z, t), t.right) && All(GoRight(z, t), t.right) == All(z, t)
    {
    }

    /** What the code reads off the pointers at the point of view. */
    lemma Look(z: ZNode, t: TNode)
      requires Holds(z, t)
      ensures nil.color == Black && nil !in All(z, t)
      ensures t.Bin? ==>
                && t.node in All(z, t) && t.node != nil && t.node.parent == ParentOf(z)
                && t.node.left == RootOf(t.left) && t.node.right == RootOf(t.right)
                && t.node.key == t.key && t.node.color == t.color
      ensures z.Top? ==> root == RootOf(t)
      ensures !z.Top? ==>
                && z.node in All(z, t) && z.node != nil && z.node.parent == ParentOf(z.up)
                && z.node.key == z.key && z.node.color == z.color
                && z.node.left == (if z.InLeft? then RootOf(t) else RootOf(z.left))
                && z.node.right == (if z.InLeft? then RootOf(z.right) else RootOf(t))
      ensures !z.Top? && RootOf(t) == RootOf(Side(z)) ==> t.Leaf? && Side(z).Leaf?
    {
    }

    lemma AtRoot(z: ZNode, t: TNode)
      requires Holds(z, t) && t.Bin?
      ensures root == t.node <==> z.Top?
      ensures root in All(z, t)
      decreases z
    {
      if z.Top? {
      } else {
        Ascend(z, t);
        AtRoot(z.up, Close(z, t));
        RootInZip(z, RootOf(t));
      }
    }

    lemma RootInZip(z: ZNode, child: Node)
      requires Around(z, child) && !z.Top?
      ensures root in ZNodes(z)
      decreases z
    {
      if z.up.Top? {
      } else {
        RootInZip(z.up, z.node);
      }
    }

    // -------------------------------------------------------------- elementary writes

    method SetColor(n: Node, c: Color, ghost z: ZNode, ghost t: TNode)
      requires Holds(z, t) && t.Bin? && t.node == n
      modifies n`color
      ensures Holds(z, t.(color := c))
    {
      n.color := c;
    }

    method SetKey(n: Node, k: int, ghost z: ZNode, ghost t: TNode)
      requires Holds(z, t) && t.Bin? && t.node == n
      modifies n`key
      ensures Holds(z, t.(key := k))
    {
      n.key := k;
    }

    /** Puts `y` where `x` hangs, as _leftRotate and RBT_deleteNode do. */
    method Relink(x: Node, y: Node, p: Node, ghost z: ZNode)
      requires Around(z, x) && ZApart(z) && x !in ZNodes(z) && nil !in ZNodes(z) && x != nil
      requires p == ParentOf(z)
      modifies this`root, (if z.Top? then {} else {z.node})`left, (if z.Top? then {} else {z.node})`right
      ensures Around(z, y)
    {
      if !z.Top? && z.InRight? {
        assert z.left.Bin? ==> z.left.node in Nodes(z.left);
      }
      if p == nil {
        root := y;
      } else if x == p.left {
        p.left := y;
      } else {
        p.right := y;
      }
    }

    /** The mirror image as _rightRotate writes it: at the root it also writes a child pointer of
        the sentinel, which nobody reads. */
    method RelinkRight(y: Node, x: Node, p: Node, ghost z: ZNode)
      requires Around(z, y) && ZApart(z) && y !in ZNodes(z) && nil !in ZNodes(z) && y != nil
      requires p == ParentOf(z)
      modifies this`root, p`left, p`right
      ensures Around(z, x)
    {
      if !z.Top? && z.InLeft? {
        assert z.right.Bin? ==> z.right.node in Nodes(z.right);
      }
      if p == nil {
        root := x;
      }
      if y == p.right {
        p.right := x;
      } else {
        p.left := x;
      }
    }

    /** Hands a subtree to a new parent; the sentinel keeps its own. */
    method Adopt(n: Node, x: Node, ghost b: TNode, ghost q: Node)
      requires Sub(b, q) && Apart(b) && n == RootOf(b) && nil !in Nodes(b)
      modifies (if b.Leaf? then {} else {n})`parent
      ensures Sub(b, x)
    {
      if n != nil {
        n.parent := x;
      }
    }

    /** Three subtrees under two nodes, hung into z: everything a rotation needs to know. */
    ghost predicate Pieces(z: ZNode, a: TNode, b: TNode, c: TNode, x: Node, y: Node) {
      && nil !in ZNodes(z) && x != y && x != nil && y != nil
      && Apart(a) && Apart(b) && Apart(c) && ZApart(z)
      && x !in Nodes(a) && x !in Nodes(b) && x !in Nodes(c) && x !in ZNodes(z)
      && y !in Nodes(a) && y !in Nodes(b) && y !in Nodes(c) && y !in ZNodes(z)
      && Nodes(a) !! Nodes(b) && Nodes(a) !! Nodes(c) && Nodes(b) !! Nodes(c)
      && Nodes(a) !! ZNodes(z) && Nodes(b) !! ZNodes(z) && Nodes(c) !! ZNodes(z)
      && nil !in Nodes(a) && nil !in Nodes(b) && nil !in Nodes(c)
      && (!z.Top? ==> z.node in ZNodes(z)) && (b.Bin? ==> b.node in Nodes(b))
    }

    lemma TakeRight(z: ZNode, t: TNode)
      requires Holds(z, t) && t.Bin? && t.right.Bin?
      ensures var (x, y) := (t.node, t.right.node);
              var (a, b, c) := (t.left, t.right.left, t.right.right);
              && nil.color == Black && Pieces(z, a, b, c, x, y) && Sub(a, x) && Sub(b, y) && Sub(c, y) && Around(z, x)
              && x.left == RootOf(a) && y.left == RootOf(b) && y.right == RootOf(c)
              && x in All(z, t) && y in All(z, t) && (b.Bin? ==> b.node in All(z, t))
              && (!z.Top? ==> z.node in All(z, t))
    {
      var u := t.right;
      assert Apart(u) && Sub(u, t.node) && Nodes(u) == Nodes(u.left) + {u.node} + Nodes(u.right);
    }

    lemma TakeLeft(z: ZNode, t: TNode)
      requires Holds(z, t) && t.Bin? && t.left.Bin?
      ensures var (x, y) := (t.left.node, t.node);
              var (a, b, c) := (t.left.left, t.left.right, t.right);
              && nil.color == Black && Pieces(z, a, b, c, x, y) && Sub(a, x) && Sub(b, x) && Sub(c, y) && Around(z, y)
              && x.left == RootOf(a) && x.right == RootOf(b) && y.right == RootOf(c)
              && x in All(z, t) && y in All(z, t) && (b.Bin? ==> b.node in All(z, t))
              && (!z.Top? ==> z.node in All(z, t))
    {
      var u := t.left;
      assert Apart(u) && Sub(u, t.node) && Nodes(u) == Nodes(u.left) + {u.node} + Nodes(u.right);
    }

    /** The nodes of three subtrees under x and y, whichever of the two is above. */
    lemma Together(z: ZNode, a: TNode, b: TNode, c: TNode, x: Node, y: Node, k: int, l: int, d: Color, e: Color)
      requires Pieces(z, a, b, c, x, y)
      ensures var t := Bin(a, x, k, d, Bin(b, y, l, e, c)); Apart(t) && ZNodes(z) !! Nodes(t) && nil !in Nodes(t)
      ensures var t := Bin(Bin(a, x, k, d, b), y, l, e, c); Apart(t) && ZNodes(z) !! Nodes(t) && nil !in Nodes(t)
      ensures ZApart(z) && nil !in ZNodes(z)
    {
      var u, v := Bin(b, y, l, e, c), Bin(a, x, k, d, b);
      assert Apart(u) && Nodes(u) == Nodes(b) + {y} + Nodes(c);
      assert Apart(v) && Nodes(v) == Nodes(a) + {x} + Nodes(b);
    }

    lemma Assembled(z: ZNode, t: TNode)
      requires nil.color == Black && nil !in ZNodes(z) && nil !in Nodes(t) && Apart(t) && ZApart(z)
      requires ZNodes(z) !! Nodes(t) && Sub(t, ParentOf(z)) && Around(z, RootOf(t))
      ensures Holds(z, t)
    {
    }

    /** x with its right child y, or y with its left child x. */
    lemma MakeRight(z: ZNode, t: TNode)
      requires t.Bin? && t.right.Bin?
      requires var (x, y) := (t.node, t.right.node);
               var (a, b, c) := (t.left, t.right.left, t.right.right);
               && nil.color == Black && Pieces(z, a, b, c, x, y) && Sub(a, x) && Sub(b, y) && Sub(c, y) && Around(z, x)
               && x.left == RootOf(a) && x.right == y && x.parent == ParentOf(z) && x.color == t.color && x.key == t.key
               && y.left == RootOf(b) && y.right == RootOf(c) && y.parent == x
               && y.color == t.right.color && y.key == t.right.key
      ensures Holds(z, t)
    {
      hide Pieces, Apart, ZApart, Nodes, ZNodes, Around, Holds;
      var u := t.right;
      Together(z, t.left, u.left, u.right, t.node, u.node, t.key, u.key, t.color, u.color);
      assert Sub(u, t.node);
      Assembled(z, t);
    }

    lemma MakeLeft(z: ZNode, t: TNode)
      requires t.Bin? && t.left.Bin?
      requires var (x, y) := (t.left.node, t.node);
               var (a, b, c) := (t.left.left, t.left.right, t.right);
               && nil.color == Black && Pieces(z, a, b, c, x, y) && Sub(a, x) && Sub(b, x) && Sub(c, y) && Around(z, y)
               && y.left == x && y.right == RootOf(c) && y.parent == ParentOf(z) && y.color == t.color && y.key == t.key
               && x.left == RootOf(a) && x.right == RootOf(b) && x.parent == y
               && x.color == t.left.color && x.key == t.left.key
      ensures Holds(z, t)
    {
      hide Pieces, Apart, ZApart, Nodes, ZNodes, Around, Holds;
      var u := t.left;
      Together(z, u.left, u.right, t.right, u.node, t.node, u.key, t.key, u.color, t.color);
      assert Sub(u, t.node);
      Assembled(z, t);
    }

    /** The first step of each rotation; the three subtrees are not affected. */
    method Hang(x: Node, y: Node, p: Node, ghost z: ZNode, ghost a: TNode, ghost b: TNode, ghost c: TNode,
                ghost q: Node)
      requires Pieces(z, a, b, c, x, y) && Around(z, x) && Sub(a, x) && Sub(b, q) && Sub(c, y) && p == ParentOf(z)
      modifies this`root, (if z.Top? then {} else {z.node})`left, (if z.Top? then {} else {z.node})`right
      ensures Around(z, y) && Sub(a, x) && Sub(b, q) && Sub(c, y)
      ensures x.left == old(x.left) && y.left == old(y.left) && y.right == old(y.right)
    {
      hide Sub, Apart, ZApart, Nodes, ZNodes, Around;
      assert allocated(Nodes(a)) && allocated(Nodes(b)) && allocated(Nodes(c));
      Relink(x, y, p, z);
    }

    method HangRight(y: Node, x: Node, p: Node, ghost z: ZNode, ghost a: TNode, ghost b: TNode, ghost c: TNode,
                     ghost q: Node)
      requires Pieces(z, a, b, c, x, y) && Around(z, y) && Sub(a, x) && Sub(b, q) && Sub(c, y) && p == ParentOf(z)
      modifies this`root, p`left, p`right
      ensures Around(z, x) && Sub(a, x) && Sub(b, q) && Sub(c, y)
      ensures y.right == old(y.right) && x.left == old(x.left) && x.right == old(x.right)
    {
      hide Sub, Apart, ZApart, Nodes, ZNodes, Around;
      assert allocated(Nodes(a)) && allocated(Nodes(b)) && allocated(Nodes(c));
      RelinkRight(y, x, p, z);
    }

    /** The pointer writes of _leftRotate once y hangs where x hung. */
    method TurnLeft(x: Node, y: Node, p: Node, ghost z: ZNode, ghost a: TNode, ghost b: TNode, ghost c: TNode)
      requires Pieces(z, a, b, c, x, y) && Around(z, y) && Sub(a, x) && Sub(b, y) && Sub(c, y) && y.left == RootOf(b)
      modifies x`parent, x`right, y`left, y`parent, (if b.Leaf? then {} else {b.node})`parent
      ensures Sub(a, x) && Sub(b, x) && Sub(c, y) && Around(z, y)
      ensures x.parent == y && x.right == RootOf(b) && y.left == x && y.parent == p
    {
      hide Sub, Apart, ZApart, Nodes, ZNodes, Around;
      var zz := y.left;
      y.parent := p;
      y.left := x;
      x.parent := y;
      x.right := zz;
      assert allocated(Nodes(a)) && allocated(Nodes(c)) && allocated(ZNodes(z));
      Adopt(zz, x, b, y);
    }

    method TurnRight(y: Node, x: Node, p: Node, ghost z: ZNode, ghost a: TNode, ghost b: TNode, ghost c: TNode)
      requires Pieces(z, a, b, c, x, y) && Around(z, x) && Sub(a, x) && Sub(b, x) && Sub(c, y) && x.right == RootOf(b)
      modifies y`parent, y`left, x`right, x`parent, (if b.Leaf? then {} else {b.node})`parent
      ensures Sub(a, x) && Sub(b, y) && Sub(c, y) && Around(z, x)
      ensures y.parent == x && y.left == RootOf(b) && x.right == y && x.parent == p
    {
      hide Sub, Apart, ZApart, Nodes, ZNodes, Around;
      var zz := x.right;
      x.parent := p;
      x.right := y;
      y.parent := x;
      y.left := zz;
      assert allocated(Nodes(a)) && allocated(Nodes(c)) && allocated(ZNodes(z));
      Adopt(zz, y, b, x);
    }

    /** _leftRotate. */
    method LeftRotate(x: Node, ghost z: ZNode, ghost t: TNode) returns (r: int)
      requires Holds(z, t) && t.Bin? && t.node == x
      modifies this`root, All(z, t)`left, All(z, t)`right, All(z, t)`parent, All(z, t)`color
      ensures r == (if t.right.Leaf? then -1 else 0)
      ensures Holds(z, if t.right.Leaf? then t else RotateLeft(t))
    {
      hide Sub, Around, Apart, ZApart, Holds, Nodes, ZNodes, Pieces, All;
      Look(z, t);
      LookFurther(z, t);
      if nil == x.right {
        return -1;
      }
      TakeRight(z, t);
      var p := x.parent;
      var y := x.right;
      ghost var (a, b, c) := (t.left, t.right.left, t.right.right);
      Hang(x, y, p, z, a, b, c, y);
      TurnLeft(x, y, p, z, a, b, c);
      MakeLeft(z, RotateLeft(t));
      r := 0;
    }

    /** _rightRotate. */
    method RightRotate(y: Node, ghost z: ZNode, ghost t: TNode) returns (r: int)
      requires Holds(z, t) && t.Bin? && t.node == y
      modifies this`root, nil`left, nil`right, All(z, t)`left, All(z, t)`right, All(z, t)`parent, All(z, t)`color
      ensures r == (if t.left.Leaf? then -1 else 0)
      ensures Holds(z, if t.left.Leaf? then t else RotateRight(t))
    {
      hide Sub, Around, Apart, ZApart, Holds, Nodes, ZNodes, Pieces, All;
      Look(z, t);
      LookFurther(z, t);
      if nil == y.left {
        return -1;
      }
      TakeLeft(z, t);
      var p := y.parent;
      var x := y.left;
      ghost var (a, b, c) := (t.left.left, t.left.right, t.right);
      HangRight(y, x, p, z, a, b, c, x);
      TurnRight(y, x, p, z, a, b, c);
      MakeRight(z, RotateRight(t));
      r := 0;
    }

    /** The same one level down. */
    lemma LookFurther(z: ZNode, t: TNode)
      requires Holds(z, t) && t.Bin?
      ensures t.left.Bin? ==>
                && t.left.node in All(z, t) && t.left.node != nil && t.left.node.parent == t.node
                && t.left.node.color == t.left.color && t.left.node.key == t.left.key
                && t.left.node.left == RootOf(t.left.left) && t.left.node.right == RootOf(t.left.right)
      ensures t.right.Bin? ==>
                && t.right.node in All(z, t) && t.right.node != nil && t.right.node.parent == t.node
                && t.right.node.color == t.right.color && t.right.node.key == t.right.key
                && t.right.node.left == RootOf(t.right.left) && t.right.node.right == RootOf(t.right.right)
    {
      DescendLeft(z, t);
      DescendRight(z, t);
      Look(GoLeft(z, t), t.left);
      Look(GoRight(z, t), t.right);
    }

    // -------------------------------------------------------------- insertion

    lemma {:induction false} AscendAll(z: ZNode, t: TNode)
      requires Holds(z, t)
      ensures Holds(Top, Plug(z, t)) && Nodes(Plug(z, t)) == All(z, t) == All(Top, Plug(z, t))
      decreases z
    {
      if z.Top? {
      } else {
        Ascend(z, t);
        AscendAll(z.up, Close(z, t));
      }
    }

    /** Case 2 of _adjustAfterInsert: the three colour writes. */
    method PaintFamily(l: Node, r: Node, g: Node, ghost z: ZNode, ghost t: TNode)
      requires Holds(z, t) && t.Bin? && t.node == g
      requires t.left.Bin? && t.right.Bin? && l == t.left.node && r == t.right.node
      modifies l`color, r`color, g`color
      ensures Holds(z, Recolored(t))
    {
      hide Holds;
      DescendLeft(z, t);
      SetColor(l, Black, GoLeft(z, t), t.left);
      Ascend(GoLeft(z, t), t.left.(color := Black));
      ghost var t1 := t.(left := t.left.(color := Black));
      DescendRight(z, t1);
      SetColor(r, Black, GoRight(z, t1), t1.right);
      Ascend(GoRight(z, t1), t1.right.(color := Black));
      SetColor(g, Red, z, t1.(right := t1.right.(color := Black)));
    }

    ghost function Measure(z: ZNode): nat {
      if Near(z) == Red then 1 + RbSpec.Depth(z) else 0
    }

    /** What one round of the insertion loop leaves behind. */
    ghost predicate Progress(z: ZNode, t: TNode, z': ZNode, t': TNode) {
      && Growing(z', t') && All(z', t') == All(z, t)
      && SameContent(Plug(z, t), Plug(z', t')) && Measure(z') < Measure(z)
      && (Sturdy(z, t) ==> Sturdy(z', t'))
      && (Even(z, t) && GrowsLevel(z) ==> Even(z', t') && GrowsLevel(z'))
      && t.Bin? && (Hopeless(z, t) ==> Hopeless(z', t')) && InsertFix(z', t') == InsertFix(z, t)
    }

    lemma RedUncleProgress(z: ZNode, t: TNode)
      requires Growing(z, t) && Near(z) == Red && !z.up.Top? && RootColor(Side(z.up)) == Red
      ensures var g := Close(z.up, Close(z, t));
              g.left.Bin? && g.right.Bin? && Progress(z, t, z.up.up, Recolored(g))
    {
      var g := Close(z.up, Close(z, t));
      hide InsertFix;
      RoundUnderRed(z, t);
      RecolorGrows(z, t);
      RecolorEven(z, t);
      if Sturdy(z, t) {
        RedUncle(z, t);
      }
      GrowingGrandparent(z, t);
      PlugContent(z.up.up, g, Recolored(g));
      PlugNodes(z, t);
      PlugNodes(z.up.up, Recolored(g));
    }

    lemma LeftProgress(z: ZNode, t: TNode)
      requires Growing(z, t) && Near(z) == Red && z.up.InLeft? && RootColor(z.up.right) == Black
      ensures var u := LiftedLeft(z, t);
              u.left.Bin? && Progress(z, t, GoLeft(z.up.up, u), u.left)
    {
      var g, u := Close(z.up, Close(z, t)), LiftedLeft(z, t);
      RoundUnderBlack(z, t);
      LiftLeftGrows(z, t);
      LeftLifts(z, t);
      LiftEven(z, t, u);
      EvenUp(GoLeft(z.up.up, u), u.left);
      if Sturdy(z, t) {
        BlackUncleLeft(z, t);
      }
      PlugContent(z.up.up, g, u);
      PlugNodes(z, t);
      PlugNodes(GoLeft(z.up.up, u), u.left);
    }

    lemma RightProgress(z: ZNode, t: TNode)
      requires Growing(z, t) && Near(z) == Red && z.up.InRight? && RootColor(z.up.left) == Black
      ensures var u := LiftedRight(z, t);
              u.right.Bin? && Progress(z, t, GoRight(z.up.up, u), u.right)
    {
      var g, u := Close(z.up, Close(z, t)), LiftedRight(z, t);
      RoundUnderBlack(z, t);
      LiftRightGrows(z, t);
      RightLifts(z, t);
      LiftEven(z, t, u);
      EvenUp(GoRight(z.up.up, u), u.right);
      if Sturdy(z, t) {
        BlackUncleRight(z, t);
      }
      PlugContent(z.up.up, g, u);
      PlugNodes(z, t);
      PlugNodes(GoRight(z.up.up, u), u.right);
    }

    /** Parent, grandparent and uncle as the pointers show them. */
    lemma LookUp(z: ZNode, t: TNode)
      requires Holds(z, t) && t.Bin? && !z.Top? && !z.up.Top?
      ensures var (p, g) := (z.node, z.up.node);
              var (tp, tg, u) := (Close(z, t), Close(z.up, Close(z, t)), RootOf(Side(z.up)));
              && t.node.parent == p && p.parent == g && t.node != nil && p != nil && g != nil
              && t.node in All(z, t) && p in All(z, t) && g in All(z, t)
              && Holds(z.up, tp) && All(z.up, tp) == All(z, t) && Holds(z.up.up, tg) && All(z.up.up, tg) == All(z, t)
              && (z.up.InLeft? ==> g.left == p && g.right == u)
              && (z.up.InRight? ==> g.right == p && g.left == u && g.left != p)
              && (z.InLeft? ==> p.left == t.node && p.right != t.node)
              && (z.InRight? ==> p.right == t.node && p.left != t.node)
              && u.color == RootColor(Side(z.up)) && (Side(z.up).Bin? ==> u in All(z, t))
    {
      Look(z, t);
      Ascend(z, t);
      Look(z.up, Close(z, t));
      Ascend(z.up, Close(z, t));
      LookFurther(z.up.up, Close(z.up, Close(z, t)));
    }

    lemma OutwardAll(z: ZNode, t: TNode)
      requires Growing(z, t) && Near(z) == Red
      ensures All(z.up, Outward(z, t)) == All(z, t) == All(z.up, OutwardRight(z, t))
      ensures Outward(z, t).left.Bin? && OutwardRight(z, t).right.Bin?
      ensures z.InRight? ==> Outward(z, t).left.node == z.node
      ensures z.InLeft? ==> OutwardRight(z, t).right.node == z.node
    {
      OutwardShape(z, t);
      assert Nodes(Close(z, t)) == Nodes(Side(z)) + {z.node} + Nodes(t);
    }

    method FixUnderLeft(node0: Node, ghost z: ZNode, ghost t: TNode)
        returns (node: Node, ghost z': ZNode, ghost t': TNode)
      requires Holds(z, t) && Growing(z, t) && t.node == node0 && Near(z) == Red && z.up.InLeft?
      modifies this`root, nil`left, nil`right, All(z, t)`left, All(z, t)`right, All(z, t)`parent, All(z, t)`color
      ensures Holds(z', t') && t'.Bin? && t'.node == node && Progress(z, t, z', t')
    {
      hide Holds, Growing, Progress, All;
      node := node0;
      GrowingGrandparent(z, t);
      OutwardAll(z, t);
      LookUp(z, t);
      ghost var zp, tp := z.up, Close(z, t);
      ghost var zg, tg := zp.up, Close(zp, tp);
      var uncle := node.parent.parent.right;
      if uncle.color == Red {
        RedUncleProgress(z, t);
        PaintFamily(node.parent, uncle, node.parent.parent, zg, tg);
        node := node.parent.parent;
        z', t' := zg, Recolored(tg);
      } else {
        LeftProgress(z, t);
        if node == node.parent.right {
          node := node.parent;
          var _ := LeftRotate(node, zp, tp);
        }
        node := LiftLeft(node, zp, Outward(z, t), LiftedLeft(z, t));
        z', t' := GoLeft(zg, LiftedLeft(z, t)), LiftedLeft(z, t).left;
      }
    }

    /** Case 3: two colour writes and the rotation at the grandparent. */
    method LiftLeft(node0: Node, ghost z: ZNode, ghost o: TNode, ghost u: TNode) returns (node: Node)
      requires Holds(z, o) && z.InLeft? && o.Bin? && o.left.Bin? && o.left.node == node0
      requires u == RotateRight(Bin(o.(color := Black), z.node, z.key, Red, z.right))
      modifies this`root, nil`left, nil`right, All(z, o)`left, All(z, o)`right, All(z, o)`parent, All(z, o)`color
      ensures node == node0 && u.left.Bin? && u.left.node == node && Holds(GoLeft(z.up, u), u.left)
    {
      hide Holds, All;
      node := node0;
      Look(z, o);
      LookFurther(z, o);
      RecolorContent(o, Black);
      SetColor(node.parent, Black, z, o);
      ghost var o1 := o.(color := Black);
      Look(z, o1);
      LookFurther(z, o1);
      Ascend(z, o1);
      SetColor(node.parent.parent, Red, z.up, Close(z, o1));
      Look(z.up, Close(z, o1).(color := Red));
      LookFurther(z.up, Close(z, o1).(color := Red));
      DescendLeft(z.up, Close(z, o1).(color := Red));
      LookFurther(GoLeft(z.up, Close(z, o1).(color := Red)), o1);
      assert node.parent.parent == z.node;
      AllKept(z, o, Red);
      var _ := RightRotate(node.parent.parent, z.up, Close(z, o1).(color := Red));
      DescendLeft(z.up, u);
    }

    method LiftRight(node0: Node, ghost z: ZNode, ghost o: TNode, ghost u: TNode) returns (node: Node)
      requires Holds(z, o) && z.InRight? && o.Bin? && o.right.Bin? && o.right.node == node0
      requires u == RotateLeft(Bin(z.left, z.node, z.key, Red, o.(color := Black)))
      modifies this`root, nil`left, nil`right, All(z, o)`left, All(z, o)`right, All(z, o)`parent, All(z, o)`color
      ensures node == node0 && u.right.Bin? && u.right.node == node && Holds(GoRight(z.up, u), u.right)
    {
      hide Holds, All;
      node := node0;
      Look(z, o);
      LookFurther(z, o);
      RecolorContent(o, Black);
      SetColor(node.parent, Black, z, o);
      ghost var o1 := o.(color := Black);
      Look(z, o1);
      LookFurther(z, o1);
      Ascend(z, o1);
      SetColor(node.parent.parent, Red, z.up, Close(z, o1));
      Look(z.up, Close(z, o1).(color := Red));
      LookFurther(z.up, Close(z, o1).(color := Red));
      DescendRight(z.up, Close(z, o1).(color := Red));
      LookFurther(GoRight(z.up, Close(z, o1).(color := Red)), o1);
      assert node.parent.parent == z.node;
      AllKept(z, o, Red);
      var _ := LeftRotate(node.parent.parent, z.up, Close(z, o1).(color := Red));
      DescendRight(z.up, u);
    }

    lemma AllKept(z: ZNode, o: TNode, c: Color)
      requires !z.Top? && o.Bin?
      ensures var w := Close(z, o.(color := Black)); w.Bin? && All(z.up, w.(color := c)) == All(z, o)
      ensures All(z, o.(color := Black)) == All(z, o)
      ensures z.node in All(z, o) && o.node in All(z, o)
    {
      var o1 := o.(color := Black);
      RecolorContent(o, Black);
      assert Nodes(Close(z, o1)) == Nodes(Side(z)) + {z.node} + Nodes(o1);
      RecolorContent(Close(z, o1), c);
      assert ZNodes(z) == ZNodes(z.up) + {z.node} + Nodes(Side(z));
    }

    method FixUnderRight(node0: Node, ghost z: ZNode, ghost t: TNode)
        returns (node: Node, ghost z': ZNode, ghost t': TNode)
      requires Holds(z, t) && Growing(z, t) && t.node == node0 && Near(z) == Red && z.up.InRight?
      modifies this`root, nil`left, nil`right, All(z, t)`left, All(z, t)`right, All(z, t)`parent, All(z, t)`color
      ensures Holds(z', t') && t'.Bin? && t'.node == node && Progress(z, t, z', t')
    {
      hide Holds, Growing, Progress, All;
      node := node0;
      GrowingGrandparent(z, t);
      OutwardAll(z, t);
      LookUp(z, t);
      ghost var zp, tp := z.up, Close(z, t);
      ghost var zg, tg := zp.up, Close(zp, tp);
      var uncle := node.parent.parent.left;
      if uncle.color == Red {
        RedUncleProgress(z, t);
        PaintFamily(uncle, node.parent, node.parent.parent, zg, tg);
        node := node.parent.parent;
        z', t' := zg, Recolored(tg);
      } else {
        RightProgress(z, t);
        if node == node.parent.left {
          node := node.parent;
          var _ := RightRotate(node, zp, tp);
        }
        node := LiftRight(node, zp, OutwardRight(z, t), LiftedRight(z, t));
        z', t' := GoRight(zg, LiftedRight(z, t)), LiftedRight(z, t).right;
      }
    }

    /** _adjustAfterInsert. */
    method AdjustAfterInsert(node0: Node, ghost z0: ZNode, ghost t0: TNode) returns (ghost w: TNode)
      requires Holds(z0, t0) && Growing(z0, t0) && t0.Bin? && t0.node == node0
      modifies this`root, nil`left, nil`right, All(z0, t0)`left, All(z0, t0)`right, All(z0, t0)`parent
      modifies All(z0, t0)`color
      ensures Holds(Top, w) && RootColor(w) == Black && SameContent(Plug(z0, t0), w)
      ensures Sturdy(z0, t0) ==> NoRedRed(w) && Balanced(w)
      ensures Even(z0, t0) ==> (Balanced(w) <==> GrowsLevel(z0))
      ensures w == InsertFix(z0, t0)
    {
      hide InsertFix, Holds, Growing, Sturdy, Even, GrowsLevel, Hopeless, Trail, NoRedRed, Balanced, Nodes, ZNodes,
        Keys;
      var node := node0;
      ghost var z, t := z0, t0;
      TrailStarts(z, t);
      Look(z, t);
      while node.parent.color == Red
        invariant Holds(z, t) && Growing(z, t) && t.Bin? && t.node == node && All(z, t) == All(z0, t0)
        invariant SameContent(Plug(z0, t0), Plug(z, t)) && Trail(z0, t0, z, t) && InsertFix(z, t) == InsertFix(z0, t0)
        invariant node.parent.color == Near(z)
        decreases Measure(z)
      {
        GrowingGrandparent(z, t);
        LookUp(z, t);
        ghost var z1, t1 := z, t;
        if node.parent == node.parent.parent.left {
          node, z, t := FixUnderLeft(node, z, t);
        } else {
          node, z, t := FixUnderRight(node, z, t);
        }
        TrailGoesOn(z0, t0, z1, t1, z, t);
        Look(z, t);
      }
      TrailEnds(z0, t0, z, t);
      RoundsOver(z, t);
      w := Plug(z, t);
      AscendAll(z, t);
      Look(Top, w);
      SetColor(root, Black, Top, w);
      w := w.(color := Black);
    }

    /** Where a search for k stands: everything left of the hole is smaller, everything right greater. */
    ghost predicate Gap(z: ZNode, k: int) {
      (forall x :: x in Before(z) ==> x < k) && (forall x :: x in After(z) ==> k < x)
    }

    lemma GapStep(z: ZNode, t: TNode, k: int)
      requires Gap(z, k) && t.Bin? && Sorted(Keys(Plug(z, t)))
      ensures k < t.key ==> Gap(GoLeft(z, t), k)
      ensures t.key < k ==> Gap(GoRight(z, t), k)
    {
      hide Sorted, Keys;
      PlugKeys(z, t);
      KeysBin(t);
      ZipRight(z, t);
      ZipLeft(z, t);
      AroundKey(Before(z), Keys(t.left), t.key, Keys(t.right), After(z));
    }

    lemma GapLeaf(z: ZNode, k: int)
      requires Gap(z, k)
      ensures k !in Keys(Plug(z, Leaf))
    {
      PlugKeys(z, Leaf);
    }

    lemma KeyThere(z: ZNode, t: TNode)
      requires t.Bin?
      ensures t.key in Keys(Plug(z, t)) && t.node in Nodes(Plug(z, t))
    {
      PlugKeys(z, t);
      PlugNodes(z, t);
      KeysBin(t);
      assert t.key in Keys(t);
    }

    /** RBT_search. */
    method Search(key: int) returns (node: Node)
      requires Holds(Top, tree) && Sorted(Keys(tree))
      ensures key in Keys(tree) ==> node != nil && node in Nodes(tree) && node.key == key
      ensures key !in Keys(tree) ==> node == nil
      ensures Has(tree, key) == (key in Keys(tree)) && (Has(tree, key) ==> node == Holder(tree, key))
      ensures Holds(Top, tree)
    {
      hide Holds, Keys, Nodes, Gap, Sorted, Before, After, Has, Holder;
      SearchFinds(tree, key);
      node := root;
      ghost var z, t := Top, tree;
      StartGap(key);
      Look(z, t);
      while node != nil
        invariant Holds(z, t) && Plug(z, t) == tree && node == RootOf(t) && Gap(z, key) && SameSearch(t, tree, key)
        decreases t
      {
        Look(z, t);
        assert t.Bin?;
        GapStep(z, t, key);
        SearchStep(t, key);
        if key < node.key {
          node := node.left;
          DescendLeft(z, t);
          z, t := GoLeft(z, t), t.left;
        } else if key > node.key {
          node := node.right;
          DescendRight(z, t);
          z, t := GoRight(z, t), t.right;
        } else {
          KeyThere(z, t);
          AscendAll(z, t);
          return;
        }
        Look(z, t);
      }
      Look(z, t);
      assert t.Leaf?;
      GapLeaf(z, key);
      AscendAll(z, t);
      node := nil;
    }

    lemma StartGap(k: int)
      ensures Gap(Top, k)
    {
    }

    /** The writes that hang the new red leaf; into an empty tree they also touch the sentinel. */
    method Plant(target: Node, prev: Node, ghost z: ZNode)
      requires Holds(z, Leaf) && target !in ZNodes(z) && target != nil && prev == ParentOf(z)
      requires z.InLeft? ==> target.key < z.key
      requires z.InRight? ==> target.key > z.key
      modifies this`root, prev`left, prev`right, target
      ensures Holds(z, Bin(Leaf, target, target.key, Red, Leaf)) && target.key == old(target.key)
    {
      ghost var k := target.key;
      Look(z, Leaf);
      target.parent := prev;
      if prev == nil {
        root := target;
      }
      if target.key < prev.key {
        prev.left := target;
      } else {
        prev.right := target;
      }
      target.left := nil;
      target.right := nil;
      target.color := Red;
      assert Sub(Bin(Leaf, target, k, Red, Leaf), ParentOf(z));
      if !z.Top? {
        assert Sub(Side(z), z.node);
      }
    }

    lemma InsertedKeys(z: ZNode, n: Node, k: int, w: TNode)
      requires Sorted(Keys(Plug(z, Leaf))) && Gap(z, k)
      requires SameContent(Plug(z, Bin(Leaf, n, k, Red, Leaf)), w)
      ensures Sorted(Keys(w)) && KeySet(w) == KeySet(Plug(z, Leaf)) + {k}
      ensures Nodes(w) == Nodes(Plug(z, Leaf)) + {n}
    {
      var t := Bin(Leaf, n, k, Red, Leaf);
      PlugKeys(z, Leaf);
      PlugKeys(z, t);
      PlugNodes(z, Leaf);
      PlugNodes(z, t);
      assert Keys(t) == [k];
      assert Before(z) + [] + After(z) == Before(z) + After(z);
      Inserted(Before(z), k, After(z));
    }

    /** Search order, consistent links and a black root, whatever the other colours. */
    ghost predicate Ordered()
      reads this, nil, Nodes(tree)
    {
      Holds(Top, tree) && Sorted(Keys(tree)) && RootColor(tree) == Black
    }

    /** RBT_insertNode: a duplicate key leaves everything as it was and yields the old node; a new key
        is added with its node. A valid tree stays valid. Any tree with a black root keeps its search
        order and links; equal black counts stay equal exactly when the loop meets no red grandparent. */
    method InsertNode(target: Node) returns (r: Node)
      requires Ordered() && target != nil && target !in Nodes(tree)
      modifies this`root, this`tree, nil`left, nil`right, Nodes(tree), target
      ensures Ordered() && target.key == old(target.key) && (old(Valid()) ==> Valid())
      ensures target.key in old(Keys(tree)) ==>
                && tree == old(tree) && r in Nodes(tree) && r.key == target.key && root == old(root)
                && target.left == old(target.left) && target.right == old(target.right)
                && target.parent == old(target.parent) && target.color == old(target.color)
      ensures target.key !in old(Keys(tree)) && old(Balanced(tree)) ==>
                (Balanced(tree) <==> old(InsertsLevel(tree, target.key)))
      ensures target.key !in old(Keys(tree)) ==>
                && r == target && tree == AfterInsert(old(tree), target, target.key)
                && Nodes(tree) == old(Nodes(tree)) + {target}
                && KeySet(tree) == old(KeySet(tree)) + {target.key}
    {
      hide Holds, Keys, Nodes, ZNodes, Gap, Sorted, Before, After, Balanced, NoRedRed, Growing, Sturdy, Even,
        GrowsLevel, InsertFix;
      var node := root;
      var prev := node;
      ghost var z, t := Top, tree;
      ghost var k := target.key;
      StartGap(k);
      Look(z, t);
      while node != nil
        invariant Holds(z, t) && Plug(z, t) == tree && node == RootOf(t) && Gap(z, k)
        invariant prev == (if z.Top? then root else z.node) && tree == old(tree) && target.key == k
        invariant GapAt(z, t, k) == GapAt(Top, tree, k) && root == old(root)
        invariant target.left == old(target.left) && target.right == old(target.right)
        invariant target.parent == old(target.parent) && target.color == old(target.color)
        invariant z.InLeft? ==> k < z.key
        invariant z.InRight? ==> k > z.key
        decreases t
      {
        Look(z, t);
        assert t.Bin?;
        GapStep(z, t, k);
        prev := node;
        if target.key < node.key {
          node := node.left;
          DescendLeft(z, t);
          z, t := GoLeft(z, t), t.left;
        } else if target.key > node.key {
          node := node.right;
          DescendRight(z, t);
          z, t := GoRight(z, t), t.right;
        } else {
          KeyThere(z, t);
          AscendAll(z, t);
          return node;
        }
        Look(z, t);
      }
      Look(z, t);
      assert t.Leaf?;
      GapLeaf(z, k);
      PlugAll(z, t);
      PlantedAnywhere(z, target, k);
      Plant(target, prev, z);
      ghost var w := AdjustAfterInsert(target, z, Bin(Leaf, target, k, Red, Leaf));
      InsertedKeys(z, target, k, w);
      tree := w;
      r := target;
    }

    lemma PlugAll(z: ZNode, t: TNode)
      ensures Nodes(Plug(z, t)) == All(z, t)
      ensures ZNodes(z) <= All(z, t)
      ensures !z.Top? ==> z.node in ZNodes(z)
      ensures t.Leaf? ==> forall n, k :: All(z, Bin(Leaf, n, k, Red, Leaf)) == All(z, t) + {n}
    {
      PlugNodes(z, t);
    }

    // -------------------------------------------------------------- deletion

    lemma {:induction false} LeftmostHolds(z: ZNode, t: TNode)
      requires Holds(z, t) && t.Bin?
      ensures var f := Leftmost(z, t); Holds(f.0, f.1) && All(f.0, f.1) == All(z, t)
      decreases t
    {
      if t.left.Leaf? {
      } else {
        DescendLeft(z, t);
        LeftmostHolds(GoLeft(z, t), t.left);
      }
    }

    lemma {:induction false} FocusHolds(z: ZNode, t: TNode, n: Node)
      requires Holds(z, t) && n in Nodes(t)
      ensures var f := FocusOn(z, t, n); Holds(f.0, f.1) && All(f.0, f.1) == All(z, t)
      decreases t
    {
      if t.node == n {
      } else if n in Nodes(t.left) {
        DescendLeft(z, t);
        FocusHolds(GoLeft(z, t), t.left, n);
      } else {
        DescendRight(z, t);
        FocusHolds(GoRight(z, t), t.right, n);
      }
    }

    /** _getSuccessor: the leftmost node of the right subtree, or the node itself. */
    method GetSuccessor(node: Node, ghost z: ZNode, ghost t: TNode) returns (succ: Node)
      requires Holds(z, t) && t.Bin? && t.node == node
      ensures succ == UnhookPoint(z, t).1.node && Holds(z, t)
    {
      hide Holds;
      assert allocated(Nodes(t)) && allocated(ZNodes(z));
      succ := node;
      Look(z, t);
      if node.right != nil {
        DescendRight(z, t);
        ghost var zz, tt := GoRight(z, t), t.right;
        succ := node.right;
        Look(zz, tt);
        LookFurther(zz, tt);
        while succ.left != nil
          invariant Holds(zz, tt) && tt.Bin? && tt.node == succ && succ.left == RootOf(tt.left)
          invariant tt.left.Bin? ==> tt.left.node != nil
          invariant Leftmost(zz, tt) == Leftmost(GoRight(z, t), t.right)
          decreases tt
        {
          succ := succ.left;
          DescendLeft(zz, tt);
          zz, tt := GoLeft(zz, tt), tt.left;
          Look(zz, tt);
          LookFurther(zz, tt);
        }
      } else {
        LookFurther(z, t);
      }
    }

    /** The only child of a node at the point of view, ready to take its place. */
    lemma Unhookable(z: ZNode, d: TNode)
      requires Holds(z, d) && d.Bin? && (d.left.Leaf? || d.right.Leaf?)
      ensures var c := OnlyChild(d);
              && Sub(c, d.node) && Apart(c) && ZApart(z) && ZNodes(z) !! Nodes(c)
              && nil !in ZNodes(z) && nil !in Nodes(c)
              && d.node !in ZNodes(z) && d.node !in Nodes(c) && Around(z, d.node)
              && All(z, d) == All(z, c) + {d.node} && d.node !in All(z, c) && ZNodes(z) <= All(z, d)
              && (c.Bin? ==> c.node in All(z, d)) && d.node != nil && RootOf(c) != d.node
    {
    }

    /** The part of RBT_deleteNode that lets the only child, or the sentinel, take the node's place. */
    method Unhook(target: Node, ghost z: ZNode, ghost d: TNode, ghost c: TNode) returns (s: Node)
      requires Holds(z, d) && d.Bin? && d.node == target && (d.left.Leaf? || d.right.Leaf?)
      requires c == OnlyChild(d)
      modifies this`root, nil`parent, nil`color, All(z, d)`left, All(z, d)`right, All(z, d)`parent, All(z, d)`color
      ensures Holds(z, Paint(c, Black)) && s == RootOf(c)
      ensures c.Leaf? ==> nil.parent == ParentOf(z)
      ensures target.key == d.key && target.color == d.color && target !in All(z, c)
              && All(z, d) == All(z, c) + {target}
    {
      hide Holds, Sub, Around, Apart, ZApart, Nodes, ZNodes, All;
      Look(z, d);
      LookFurther(z, d);
      Unhookable(z, d);
      if target.left != nil {
        s := target.left;
      } else if target.right != nil {
        s := target.right;
      } else {
        s := nil;
      }
      var parent := target.parent;
      assert allocated(Nodes(c)) && allocated(ZNodes(z));
      UnhookPointers(target, s, parent, z, c);
      Assembled(z, c);
      Blacken(s, z, c);
    }

    /** succesor->color = RBT_BLACK, sentinel or not. */
    method Blacken(s: Node, ghost z: ZNode, ghost c: TNode)
      requires Holds(z, c) && s == RootOf(c)
      modifies s`color
      ensures Holds(z, Paint(c, Black))
    {
      s.color := Black;
    }

    method UnhookPointers(target: Node, s: Node, parent: Node, ghost z: ZNode, ghost c: TNode)
      requires Around(z, target) && ZApart(z) && target !in ZNodes(z) && nil !in ZNodes(z) && target != nil
      requires parent == ParentOf(z) && s == RootOf(c) && Sub(c, target) && Apart(c)
      requires nil !in Nodes(c) && ZNodes(z) !! Nodes(c) && target !in Nodes(c)
      modifies this`root, s`parent, ZNodes(z)`left, ZNodes(z)`right
      ensures Sub(c, ParentOf(z)) && Around(z, s)
      ensures s.parent == parent
    {
      if !z.Top? {
        assert z.node in ZNodes(z);
      }
      assert allocated(Nodes(c)) && allocated(ZNodes(z));
      s.parent := parent;
      Relink(target, s, parent, z);
    }

    // The four branches of each half of _adjustAfterDelete. The first half (suffix Right) is for a
    // shortage on the right of its parent, the second for one on the left.

    /** Recolouring and rotating a sibling keeps the set of nodes in view. */
    lemma SameAll(z: ZNode, tp: TNode, l: TNode, r: TNode, c: Color)
      requires tp.Bin? && Nodes(l) == Nodes(tp.left) && Nodes(r) == Nodes(tp.right)
      ensures var u := Bin(l, tp.node, tp.key, c, r);
              All(z, u) == All(z, tp) == All(GoLeft(z, u), l) == All(GoRight(z, u), r)
      ensures All(GoLeft(z, tp), l) == All(z, tp) == All(GoRight(z, tp), r)
    {
    }

    method RedSiblingRight(bro: Node, parent: Node, ghost z: ZNode, ghost t: TNode)
      requires Holds(z, t) && ShortOk(z) && z.InRight? && CaseOf(z) == RedSibling && bro == RootOf(Side(z))
               && parent == z.node
      modifies this`root, nil`left, nil`right, All(z, t)`left, All(z, t)`right, All(z, t)`parent, All(z, t)`color
      ensures Holds(z.up, Rearranged(z, t))
    {
      hide Holds, All, Nodes, ZNodes, Keys;
      Ascend(z, t);
      ghost var (zu, tp, b) := (z.up, Close(z, t), Side(z));
      ghost var zb := GoLeft(zu, tp);
      Look(zu, tp);
      LookFurther(zu, tp);
      DescendLeft(zu, tp);
      LookFurther(zb, b);
      SetColor(bro, Black, zb, b);
      ghost var b1 := b.(color := Black);
      DescendRight(zb, b1);
      SetColor(bro.right, Red, GoRight(zb, b1), b1.right);
      Ascend(GoRight(zb, b1), b1.right.(color := Red));
      ghost var b2 := b1.(right := b1.right.(color := Red));
      Ascend(zb, b2);
      RepaintedContent(b, Black, Red);
      SameAll(zu, tp, b2, tp.right, z.color);
      var _ := RightRotate(parent, zu, tp.(left := b2));
    }

    method InnerRedRight(bro: Node, parent: Node, ghost z: ZNode, ghost t: TNode)
      requires Holds(z, t) && ShortOk(z) && z.InRight? && CaseOf(z) == InnerRed && bro == RootOf(Side(z))
               && parent == z.node
      requires Inner(z).Bin?
      modifies this`root, nil`left, nil`right, All(z, t)`left, All(z, t)`right, All(z, t)`parent, All(z, t)`color
      ensures Holds(z.up, Rearranged(z, t))
    {
      hide Holds, All, Nodes, ZNodes, Keys;
      Ascend(z, t);
      ghost var (zu, tp, b) := (z.up, Close(z, t), Side(z));
      ghost var zb := GoLeft(zu, tp);
      Look(zu, tp);
      LookFurther(zu, tp);
      DescendLeft(zu, tp);
      LookFurther(zb, b);
      SetColor(bro, parent.color, zb, b);
      ghost var b1 := b.(color := z.color);
      DescendRight(zb, b1);
      SetColor(bro.right, Black, GoRight(zb, b1), b1.right);
      Ascend(GoRight(zb, b1), b1.right.(color := Black));
      ghost var b2 := b1.(right := b1.right.(color := Black));
      RepaintedContent(b, z.color, Black);
      RotationsKeepContent(b2);
      SameAll(zu, tp, b2, tp.right, z.color);
      var _ := LeftRotate(bro, zb, b2);
      Ascend(zb, RotateLeft(b2));
      SameAll(zu, tp, RotateLeft(b2), tp.right, z.color);
      Look(zu, tp.(left := RotateLeft(b2)));
      var _ := RightRotate(parent, zu, tp.(left := RotateLeft(b2)));
    }

    method OuterRedRight(bro: Node, parent: Node, ghost z: ZNode, ghost t: TNode)
      requires Holds(z, t) && ShortOk(z) && z.InRight? && CaseOf(z) == OuterRed && bro == RootOf(Side(z))
               && parent == z.node
      requires Outer(z).Bin?
      modifies this`root, nil`left, nil`right, All(z, t)`left, All(z, t)`right, All(z, t)`parent, All(z, t)`color
      ensures Holds(z.up, Rearranged(z, t))
    {
      hide Holds, All, Nodes, ZNodes, Keys;
      Ascend(z, t);
      ghost var (zu, tp, b) := (z.up, Close(z, t), Side(z));
      ghost var zb := GoLeft(zu, tp);
      Look(zu, tp);
      LookFurther(zu, tp);
      DescendLeft(zu, tp);
      LookFurther(zb, b);
      SetColor(bro, parent.color, zb, b);
      ghost var b1 := b.(color := z.color);
      Ascend(zb, b1);
      ghost var tp1 := tp.(left := b1);
      RepaintedContent(b, z.color, Black);
      SameAll(zu, tp, b1, tp.right, z.color);
      SetColor(parent, Black, zu, tp1);
      ghost var tp2 := tp1.(color := Black);
      DescendLeft(zu, tp2);
      ghost var zb2 := GoLeft(zu, tp2);
      DescendLeft(zb2, b1);
      SetColor(bro.left, Black, GoLeft(zb2, b1), b1.left);
      Ascend(GoLeft(zb2, b1), b1.left.(color := Black));
      ghost var b2 := b1.(left := b1.left.(color := Black));
      Ascend(zb2, b2);
      SameAll(zu, tp, b2, tp.right, Black);
      var _ := RightRotate(parent, zu, tp2.(left := b2));
    }

    method BlackNephewsRight(bro: Node, parent: Node, ghost z: ZNode, ghost t: TNode)
      requires Holds(z, t) && ShortOk(z) && z.InRight? && CaseOf(z) == BlackNephews && bro == RootOf(Side(z))
               && parent == z.node
      modifies this`root, nil`left, nil`right, All(z, t)`left, All(z, t)`right, All(z, t)`parent, All(z, t)`color
      ensures Holds(z.up, Rearranged(z, t))
    {
      hide Holds, All, Nodes, ZNodes, Keys;
      Ascend(z, t);
      ghost var (zu, tp, b) := (z.up, Close(z, t), Side(z));
      ghost var zb := GoLeft(zu, tp);
      Look(zu, tp);
      LookFurther(zu, tp);
      DescendLeft(zu, tp);
      LookFurther(zb, b);
      SetColor(bro, Red, zb, b);
      ghost var b1 := b.(color := Red);
      Ascend(zb, b1);
      RecolorContent(b, Red);
      SameAll(zu, tp, b1, tp.right, z.color);
      Look(zu, tp.(left := b1));
      if parent.color == Red {
        SetColor(parent, Black, zu, tp.(left := b1));
      }
    }

    method RedSiblingLeft(bro: Node, parent: Node, ghost z: ZNode, ghost t: TNode)
      requires Holds(z, t) && ShortOk(z) && z.InLeft? && CaseOf(z) == RedSibling && bro == RootOf(Side(z))
               && parent == z.node
      modifies this`root, nil`left, nil`right, All(z, t)`left, All(z, t)`right, All(z, t)`parent, All(z, t)`color
      ensures Holds(z.up, Rearranged(z, t))
    {
      hide Holds, All, Nodes, ZNodes, Keys;
      Ascend(z, t);
      ghost var (zu, tp, b) := (z.up, Close(z, t), Side(z));
      ghost var zb := GoRight(zu, tp);
      Look(zu, tp);
      LookFurther(zu, tp);
      DescendRight(zu, tp);
      LookFurther(zb, b);
      SetColor(bro, Black, zb, b);
      ghost var b1 := b.(color := Black);
      DescendLeft(zb, b1);
      SetColor(bro.left, Red, GoLeft(zb, b1), b1.left);
      Ascend(GoLeft(zb, b1), b1.left.(color := Red));
      ghost var b2 := b1.(left := b1.left.(color := Red));
      Ascend(zb, b2);
      RepaintedContent(b, Black, Red);
      SameAll(zu, tp, tp.left, b2, z.color);
      var _ := LeftRotate(parent, zu, tp.(right := b2));
    }

    method InnerRedLeft(bro: Node, parent: Node, ghost z: ZNode, ghost t: TNode)
      requires Holds(z, t) && ShortOk(z) && z.InLeft? && CaseOf(z) == InnerRed && bro == RootOf(Side(z))
               && parent == z.node
      requires Inner(z).Bin?
      modifies this`root, nil`left, nil`right, All(z, t)`left, All(z, t)`right, All(z, t)`parent, All(z, t)`color
      ensures Holds(z.up, Rearranged(z, t))
    {
      hide Holds, All, Nodes, ZNodes, Keys;
      Ascend(z, t);
      ghost var (zu, tp, b) := (z.up, Close(z, t), Side(z));
      ghost var zb := GoRight(zu, tp);
      Look(zu, tp);
      LookFurther(zu, tp);
      DescendRight(zu, tp);
      LookFurther(zb, b);
      SetColor(bro, parent.color, zb, b);
      ghost var b1 := b.(color := z.color);
      DescendLeft(zb, b1);
      SetColor(bro.left, Black, GoLeft(zb, b1), b1.left);
      Ascend(GoLeft(zb, b1), b1.left.(color := Black));
      ghost var b2 := b1.(left := b1.left.(color := Black));
      RepaintedContent(b, z.color, Black);
      RotationsKeepContent(b2);
      SameAll(zu, tp, tp.left, b2, z.color);
      var _ := RightRotate(bro, zb, b2);
      Ascend(zb, RotateRight(b2));
      SameAll(zu, tp, tp.left, RotateRight(b2), z.color);
      Look(zu, tp.(right := RotateRight(b2)));
      var _ := LeftRotate(parent, zu, tp.(right := RotateRight(b2)));
    }

    method OuterRedLeft(bro: Node, parent: Node, ghost z: ZNode, ghost t: TNode)
      requires Holds(z, t) && ShortOk(z) && z.InLeft? && CaseOf(z) == OuterRed && bro == RootOf(Side(z))
               && parent == z.node
      requires Outer(z).Bin?
      modifies this`root, nil`left, nil`right, All(z, t)`left, All(z, t)`right, All(z, t)`parent, All(z, t)`color
      ensures Holds(z.up, Rearranged(z, t))
    {
      hide Holds, All, Nodes, ZNodes, Keys;
      Ascend(z, t);
      ghost var (zu, tp, b) := (z.up, Close(z, t), Side(z));
      ghost var zb := GoRight(zu, tp);
      Look(zu, tp);
      LookFurther(zu, tp);
      DescendRight(zu, tp);
      LookFurther(zb, b);
      SetColor(bro, parent.color, zb, b);
      ghost var b1 := b.(color := z.color);
      Ascend(zb, b1);
      ghost var tp1 := tp.(right := b1);
      RepaintedContent(b, z.color, Black);
      SameAll(zu, tp, tp.left, b1, z.color);
      SetColor(parent, Black, zu, tp1);
      ghost var tp2 := tp1.(color := Black);
      DescendRight(zu, tp2);
      ghost var zb2 := GoRight(zu, tp2);
      DescendRight(zb2, b1);
      SetColor(bro.right, Black, GoRight(zb2, b1), b1.right);
      Ascend(GoRight(zb2, b1), b1.right.(color := Black));
      ghost var b2 := b1.(right := b1.right.(color := Black));
      Ascend(zb2, b2);
      SameAll(zu, tp, tp.left, b2, Black);
      var _ := LeftRotate(parent, zu, tp2.(right := b2));
    }

    method BlackNephewsLeft(bro: Node, parent: Node, ghost z: ZNode, ghost t: TNode)
      requires Holds(z, t) && ShortOk(z) && z.InLeft? && CaseOf(z) == BlackNephews && bro == RootOf(Side(z))
               && parent == z.node
      modifies this`root, nil`left, nil`right, All(z, t)`left, All(z, t)`right, All(z, t)`parent, All(z, t)`color
      ensures Holds(z.up, Rearranged(z, t))
    {
      hide Holds, All, Nodes, ZNodes, Keys;
      Ascend(z, t);
      ghost var (zu, tp, b) := (z.up, Close(z, t), Side(z));
      ghost var zb := GoRight(zu, tp);
      Look(zu, tp);
      LookFurther(zu, tp);
      DescendRight(zu, tp);
      LookFurther(zb, b);
      SetColor(bro, Red, zb, b);
      ghost var b1 := b.(color := Red);
      Ascend(zb, b1);
      RecolorContent(b, Red);
      SameAll(zu, tp, tp.left, b1, z.color);
      Look(zu, tp.(right := b1));
      if parent.color == Red {
        SetColor(parent, Black, zu, tp.(right := b1));
      }
    }

    lemma LookNephews(z: ZNode, t: TNode)
      requires Holds(z, t) && !z.Top? && Side(z).Bin?
      ensures var (b, n) := (Side(z), z.node);
              && (z.InRight? ==> n.left == b.node) && (z.InLeft? ==> n.right == b.node)
              && n.color == z.color && b.node.color == b.color
              && b.node.left.color == RootColor(b.left) && b.node.right.color == RootColor(b.right)
    {
      Ascend(z, t);
      Look(z.up, Close(z, t));
      LookFurther(z.up, Close(z, t));
      if z.InRight? {
        DescendLeft(z.up, Close(z, t));
        LookFurther(GoLeft(z.up, Close(z, t)), Side(z));
      } else {
        DescendRight(z.up, Close(z, t));
        LookFurther(GoRight(z.up, Close(z, t)), Side(z));
      }
    }

    lemma RearrangedAll(z: ZNode, t: TNode)
      requires Short(z, t) && !z.Top?
      ensures ShortOk(z) && All(z.up, Rearranged(z, t)) == All(z, t)
    {
      RearrangedContent(z, t);
      assert Nodes(Close(z, t)) == Nodes(Side(z)) + {z.node} + Nodes(t);
    }

    method RoundRight(succesor: Node, parent: Node, ghost z: ZNode, ghost t: TNode) returns (over: bool)
      requires Holds(z, t) && z.InRight? && Short(z, t) && ShortOk(z) && parent == z.node
      modifies this`root, nil`left, nil`right, All(z, t)`left, All(z, t)`right, All(z, t)`parent, All(z, t)`color
      ensures Holds(z.up, Rearranged(z, t)) && All(z.up, Rearranged(z, t)) == All(z, t)
      ensures over <==> !(CaseOf(z) == BlackNephews && z.color == Black)
    {
      ShortSibling(z, t);
      RearrangedAll(z, t);
      LookNephews(z, t);
      hide Holds, All, Short;
      var bro := parent.left;
      over := true;
      if bro.color == Red {
        RedSiblingRight(bro, parent, z, t);
      } else if bro.left.color == Black && bro.right.color == Black {
        over := parent.color == Red;
        BlackNephewsRight(bro, parent, z, t);
      } else if bro.left.color == Black {
        InnerRedRight(bro, parent, z, t);
      } else {
        OuterRedRight(bro, parent, z, t);
      }
    }

    method RoundLeft(succesor: Node, parent: Node, ghost z: ZNode, ghost t: TNode) returns (over: bool)
      requires Holds(z, t) && z.InLeft? && Short(z, t) && ShortOk(z) && parent == z.node
      modifies this`root, nil`left, nil`right, All(z, t)`left, All(z, t)`right, All(z, t)`parent, All(z, t)`color
      ensures Holds(z.up, Rearranged(z, t)) && All(z.up, Rearranged(z, t)) == All(z, t)
      ensures over <==> !(CaseOf(z) == BlackNephews && z.color == Black)
    {
      ShortSibling(z, t);
      RearrangedAll(z, t);
      LookNephews(z, t);
      hide Holds, All, Short;
      var bro := parent.right;
      over := true;
      if bro.color == Red {
        RedSiblingLeft(bro, parent, z, t);
      } else if bro.right.color == Black && bro.left.color == Black {
        over := parent.color == Red;
        BlackNephewsLeft(bro, parent, z, t);
      } else if bro.right.color == Black {
        InnerRedLeft(bro, parent, z, t);
      } else {
        OuterRedLeft(bro, parent, z, t);
      }
    }

    lemma AtTop(z: ZNode, t: TNode)
      requires Holds(z, t)
      ensures root == RootOf(t) <==> z.Top?
    {
      if t.Bin? {
        AtRoot(z, t);
      } else if !z.Top? {
        RootInZip(z, nil);
      }
    }

    /** What the deletion loop keeps: one black node is missing at the point of view. */
    ghost predicate Fixing(z0: ZNode, z: ZNode, t: TNode) {
      && Short(z, t) && All(z, t) == ZNodes(z0)
      && SameContent(Plug(z0, Leaf), Plug(z, t)) && (Calm(z0, Leaf) ==> Calm(z, t))
      && (StopsClean(z0) <==> StopsClean(z)) && (StopsLevel(z0) <==> StopsLevel(z))
      && DeleteFix(z, t) == DeleteFix(z0, Leaf)
    }

    lemma FixingStep(z0: ZNode, z: ZNode, t: TNode)
      requires Fixing(z0, z, t) && !z.Top?
      ensures ShortOk(z) && All(z.up, Rearranged(z, t)) == All(z, t)
      ensures SameContent(Plug(z0, Leaf), Plug(z.up, Rearranged(z, t)))
      ensures if CaseOf(z) == BlackNephews && z.color == Black then
                Fixing(z0, z.up, Rearranged(z, t)) && Rearranged(z, t).Bin? && Rearranged(z, t).node == z.node
              else
                && Plug(z.up, Rearranged(z, t)) == DeleteFix(z0, Leaf)
                && Repaired(Plug(z.up, Rearranged(z, t)), Calm(z0, Leaf), StopsLevel(z0), StopsClean(z0))
    {
      hide Balanced, NoRedRed, StopsClean, StopsLevel, Keys, Nodes, ZNodes, Short, Calm, DeleteFix;
      DeleteRound(z, t);
      RearrangedAll(z, t);
      RearrangedContent(z, t);
      PlugContent(z.up, Close(z, t), Rearranged(z, t));
      if CaseOf(z) == BlackNephews && z.color == Black {
        ShortClimbs(z, t);
      } else {
        ShortStops(z, t);
      }
    }

    /** _adjustAfterDelete: repairs the black heights; in a tree without red-red the result is free of
        red-red exactly when the siblings met on the way up allow it. */
    method AdjustAfterDelete(succesor0: Node, ghost z0: ZNode) returns (ghost w: TNode)
      requires Holds(z0, Leaf) && Short(z0, Leaf) && succesor0 == nil && nil.parent == ParentOf(z0)
      modifies this`root, nil`left, nil`right, ZNodes(z0)`left, ZNodes(z0)`right, ZNodes(z0)`parent, ZNodes(z0)`color
      ensures Holds(Top, w) && SameContent(Plug(z0, Leaf), w) && w == DeleteFix(z0, Leaf)
      ensures Repaired(w, Calm(z0, Leaf), StopsLevel(z0), StopsClean(z0))
    {
      hide Holds, Short, Calm, Fixing, Repaired, StopsClean, StopsLevel, Keys, Nodes, ZNodes, All, DeleteFix;
      FixingStart(z0);
      var succesor := succesor0;
      ghost var z: ZNode, t: TNode := z0, Leaf;
      Look(z, t);
      AtTop(z, t);
      while succesor.color == Black && root != succesor
        invariant Holds(z, t) && Fixing(z0, z, t) && succesor == RootOf(t) && All(z, t) == ZNodes(z0)
        invariant succesor.parent == ParentOf(z) && succesor.color == Black
        invariant root == succesor <==> z.Top?
        decreases z
      {
        Look(z, t);
        FixingShort(z0, z, t);
        FixingStep(z0, z, t);
        var parent := succesor.parent;
        var over;
        if succesor == parent.right {
          RootsDiffer(z, t);
          over := RoundRight(succesor, parent, z, t);
        } else {
          over := RoundLeft(succesor, parent, z, t);
        }
        z, t := z.up, Rearranged(z, t);
        if over {
          AscendAll(z, t);
          w := Plug(z, t);
          return;
        }
        succesor := parent;
        Look(z, t);
        AtTop(z, t);
        FixingShort(z0, z, t);
      }
      FixingEnd(z0, z, t);
      AscendAll(z, t);
      w := Plug(z, t);
    }

    lemma FixingStart(z0: ZNode)
      requires Short(z0, Leaf)
      ensures Fixing(z0, z0, Leaf) && All(z0, Leaf) == ZNodes(z0)
    {
    }

    lemma FixingShort(z0: ZNode, z: ZNode, t: TNode)
      requires Fixing(z0, z, t)
      ensures Short(z, t) && RootColor(t) == Black && All(z, t) == ZNodes(z0)
      ensures !z.Top? ==> Side(z).Bin?
    {
      if !z.Top? {
        ShortSibling(z, t);
      }
    }

    lemma FixingEnd(z0: ZNode, z: ZNode, t: TNode)
      requires Fixing(z0, z, t) && z.Top?
      ensures var w := Plug(z, t);
              && SameContent(Plug(z0, Leaf), w) && w == DeleteFix(z0, Leaf)
              && Repaired(w, Calm(z0, Leaf), StopsLevel(z0), StopsClean(z0))
    {
      ShortAtTop(z, t);
    }

    lemma RootsDiffer(z: ZNode, t: TNode)
      requires Holds(z, t) && !z.Top? && Side(z).Bin?
      ensures z.InLeft? ==> z.node.right != RootOf(t)
      ensures z.InRight? ==> z.node.right == RootOf(t)
    {
      Look(z, t);
    }

    lemma PlugRight(z: ZNode, t: TNode)
      requires t.Bin?
      ensures Plug(GoRight(z, t), t.right) == Plug(z, t)
    {
    }

    lemma SwappedFacts(z: ZNode, t: TNode)
      requires t.Bin? && Sorted(Keys(Plug(z, t))) && Balanced(Plug(z, t)) && RootColor(Plug(z, t)) == Black
      ensures var (zs, d) := Swapped(z, t);
              && d.Bin? && (d.left.Leaf? || d.right.Leaf?) && d.key == t.key && d.node == UnhookPoint(z, t).1.node
              && (NoRedRed(Plug(zs, d)) <==> NoRedRed(Plug(z, t)))
              && Balanced(Plug(zs, d)) && RootColor(Plug(zs, d)) == Black
              && (var c := if d.left.Bin? then d.left else d.right;
                  Sorted(Keys(Plug(zs, c))) && KeySet(Plug(zs, c)) == KeySet(Plug(z, t)) - {t.key})
      ensures var (zs, d) := Swapped(z, t);
              var (zu, u) := UnhookPoint(z, t);
              && d.left == u.left && d.right == u.right && d.color == u.color
              && (StopsClean(zs) <==> StopsClean(zu)) && (StopsLevel(zs) <==> StopsLevel(zu))
    {
      hide Sorted, Balanced, NoRedRed, Keys, KeySet, Leftmost, Plug, Nodes;
      DeletedKeys(z, t);
      if t.right.Bin? {
        var s := Leftmost(GoRight(z, t), t.right).1;
        var t1 := t.(key := s.key);
        LeftmostContext(GoRight(z, t), GoRight(z, t1), t.right);
        Rekeyed(z, t, s.key);
        var zs := Leftmost(GoRight(z, t1), t.right).0;
        PlugRight(z, t1);
        Rekeyed(zs, s, t.key);
      }
    }

    lemma RekeyAll(z: ZNode, t: TNode, k: int)
      requires t.Bin?
      ensures All(z, t.(key := k)) == All(z, t)
    {
    }

    /** _swapNode. */
    method SwapKeys(node1: Node, node2: Node, ghost z: ZNode, ghost t: TNode)
      requires Holds(z, t) && t.Bin? && t.node == node1 && node2 == UnhookPoint(z, t).1.node
      modifies node1`key, node2`key
      ensures var (zs, d) := Swapped(z, t); Holds(zs, d) && All(zs, d) == All(z, t)
    {
      hide Holds, All, Nodes, ZNodes;
      Look(z, t);
      if t.right.Bin? {
        DescendRight(z, t);
        LeftmostHolds(GoRight(z, t), t.right);
        Look(Leftmost(GoRight(z, t), t.right).0, Leftmost(GoRight(z, t), t.right).1);
      }
      var keyTemp := node1.key;
      var key2 := node2.key;
      SetKey(node1, key2, z, t);
      ghost var t1 := t.(key := key2);
      if t.right.Bin? {
        ghost var s := Leftmost(GoRight(z, t), t.right).1;
        DescendRight(z, t1);
        LeftmostSame(GoRight(z, t), GoRight(z, t1), t.right);
        LeftmostHolds(GoRight(z, t1), t.right);
        RekeyAll(z, t, key2);
        RekeyAll(Leftmost(GoRight(z, t1), t.right).0, s, t.key);
      }
      FinishSwap(node1, node2, keyTemp, z, t, t1);
    }

    /** The second half of _swapNode. */
    method FinishSwap(node1: Node, node2: Node, keyTemp: int, ghost z: ZNode, ghost t: TNode, ghost t1: TNode)
      requires t.Bin? && keyTemp == t.key && t1 == t.(key := UnhookPoint(z, t).1.key)
      requires t.right.Leaf? ==> Holds(z, t) && node2 == t.node
      requires t.right.Bin? ==>
                 var f := Leftmost(GoRight(z, t1), t.right);
                 Holds(f.0, f.1) && node2 == f.1.node && f.1 == Leftmost(GoRight(z, t), t.right).1
      modifies node2`key
      ensures var (zs, d) := Swapped(z, t); Holds(zs, d)
    {
      hide Holds;
      ghost var f := if t.right.Leaf? then (z, t) else Leftmost(GoRight(z, t1), t.right);
      SetKey(node2, keyTemp, f.0, f.1);
    }

    /** What the last part of RBT_deleteNode needs and gives. */
    ghost predicate Detachable(z: ZNode, d: TNode) {
      d.Bin? && (d.left.Leaf? || d.right.Leaf?) && Balanced(Plug(z, d)) && RootColor(Plug(z, d)) == Black
    }

    lemma DetachFacts(z: ZNode, d: TNode)
      requires Detachable(z, d)
      ensures var c, s, calm := OnlyChild(d), Paint(OnlyChild(d), Black), NoRedRed(Plug(z, d));
              && SameContent(Plug(z, c), Plug(z, s)) && All(z, s) == All(z, c) && (s.Leaf? <==> c.Leaf?)
              && Nodes(Plug(z, c)) == All(z, c)
              && (if c.Leaf? && d.color == Black then
                    Short(z, s) && s == Leaf && (calm ==> Calm(z, s))
                    && (CleanAt(z, d) <==> StopsClean(z)) && (LevelAt(z, d) <==> StopsLevel(z))
                  else Repaired(Plug(z, s), calm, LevelAt(z, d), CleanAt(z, d)))
    {
      var c := OnlyChild(d);
      Unhooked(z, d);
      PaintFacts(c, Black);
      PlugContent(z, c, Paint(c, Black));
      PlugNodes(z, c);
    }

    method Detach(target: Node, ghost z: ZNode, ghost d: TNode) returns (ghost w: TNode)
      requires Holds(z, d) && Detachable(z, d) && d.node == target
      modifies this`root, nil`left, nil`right, nil`parent, nil`color,
        All(z, d)`left, All(z, d)`right, All(z, d)`parent, All(z, d)`color
      ensures Holds(Top, w) && SameContent(Plug(z, OnlyChild(d)), w)
      ensures Repaired(w, NoRedRed(Plug(z, d)), LevelAt(z, d), CleanAt(z, d))
      ensures target.key == d.key && target !in Nodes(w) && All(z, d) == Nodes(w) + {target} && w == Detached(z, d)
    {
      hide DeleteFix, Holds, Balanced, NoRedRed, Keys, Nodes, ZNodes, All, StopsClean, StopsLevel, Short, Calm, CleanAt,
        LevelAt;
      DetachFacts(z, d);
      ghost var c := OnlyChild(d);
      ghost var s := Paint(c, Black);
      var succesor := Unhook(target, z, d, c);
      Look(z, s);
      AscendAll(z, s);
      if succesor == nil && target.color == Black {
        ZipAll(z);
        w := AdjustAfterDelete(succesor, z);
      } else {
        w := Plug(z, s);
      }
    }

    lemma ZipAll(z: ZNode)
      ensures All(z, Leaf) == ZNodes(z)
    {
    }

    lemma DeletesAt(n: Node, z: ZNode, t: TNode)
      requires n in Nodes(tree) && (z, t) == FocusOn(Top, tree, n)
      requires Sorted(Keys(tree)) && Balanced(tree) && RootColor(tree) == Black
      ensures var (zs, d) := Swapped(z, t);
              && d.Bin? && (DeletesClean(tree, n) <==> CleanAt(zs, d)) && (DeletesLevel(tree, n) <==> LevelAt(zs, d))
    {
      SwappedFacts(z, t);
    }

    /** Where RBT_deleteNode works, and what will be left there. */
    lemma DeletionStarts(target: Node)
      requires Ordered() && Balanced(tree) && target in Nodes(tree)
      ensures var (z, t) := FocusOn(Top, tree, target);
              var (zs, d) := Swapped(z, t);
              && Holds(z, t) && t.node == target && t.key == target.key && All(z, t) == Nodes(tree)
              && d.key == t.key && Detachable(zs, d) && AfterDelete(tree, target) == Detached(zs, d)
              && Sorted(Keys(Plug(zs, OnlyChild(d)))) && KeySet(Plug(zs, OnlyChild(d))) == KeySet(tree) - {target.key}
              && (NoRedRed(Plug(zs, d)) <==> NoRedRed(tree))
              && (DeletesClean(tree, target) <==> CleanAt(zs, d)) && (DeletesLevel(tree, target) <==> LevelAt(zs, d))
    {
      hide Holds, Sorted, Balanced, NoRedRed, Keys, KeySet, Nodes, ZNodes, All, Detached, CleanAt, LevelAt,
        DeletesClean, DeletesLevel, Swapped, FocusOn;
      var (z, t) := FocusOn(Top, tree, target);
      FocusHolds(Top, tree, target);
      AscendAll(Top, tree);
      Look(z, t);
      SwappedFacts(z, t);
      DeletesAt(target, z, t);
    }

    /** RBT_deleteNode, in any tree with equal black counts. The sentinel is answered with the sentinel.
        Otherwise exactly the key of the target disappears and the node that leaves the tree carries
        it; search order, links and a black root are kept. Black counts stay equal exactly when
        DeletesLevel held of the tree and the target before the call; in a valid tree it does, and the
        tree is valid again exactly when DeletesClean held. */
    method DeleteNode(target0: Node) returns (r: Node)
      requires Ordered() && (target0 == nil || (target0 in Nodes(tree) && Balanced(tree)))
      modifies this`root, this`tree, nil`left, nil`right, nil`parent, nil`color, Nodes(tree)
      ensures Ordered()
      ensures target0 == nil ==> r == nil && tree == old(tree)
      ensures target0 != nil ==>
                && KeySet(tree) == old(KeySet(tree)) - {old(target0.key)}
                && r in old(Nodes(tree)) && r.key == old(target0.key) && Nodes(tree) == old(Nodes(tree)) - {r}
                && tree == AfterDelete(old(tree), target0) && (Balanced(tree) <==> old(DeletesLevel(tree, target0)))
                && (old(Valid()) ==> Balanced(tree) && (NoRedRed(tree) <==> old(DeletesClean(tree, target0))))
    {
      hide Holds, Sorted, Balanced, NoRedRed, Keys, KeySet, Nodes, ZNodes, All, DeletesClean, DeletesLevel, CleanAt,
        LevelAt, FocusOn, Swapped, Detached, AfterDelete;
      if target0 == nil {
        return nil;
      }
      var target := target0;
      DeletionStarts(target);
      ghost var (z, t) := FocusOn(Top, tree, target);
      ghost var (zs, d) := Swapped(z, t);
      target := SwapWithSuccessor(target, z, t);
      ghost var w := Detach(target, zs, d);
      SameKeySet(Plug(zs, OnlyChild(d)), w);
      assert allocated(Nodes(w)) && allocated(ZNodes(Zip<Node>.Top));
      tree := w;
      r := target;
    }

    /** The first part of RBT_deleteNode: a node with a child trades contents with its successor. */
    method SwapWithSuccessor(target0: Node, ghost z: ZNode, ghost t: TNode) returns (target: Node)
      requires Holds(z, t) && t.Bin? && t.node == target0
      modifies All(z, t)`key
      ensures var (zs, d) := Swapped(z, t);
              Holds(zs, d) && All(zs, d) == All(z, t) && d.Bin? && d.node == target && target in All(z, t)
    {
      hide Holds, All;
      target := target0;
      Look(z, t);
      if target.left != nil || target.right != nil {
        var succesor := GetSuccessor(target, z, t);
        MemberAll(z, t);
        SwapKeys(target, succesor, z, t);
        target := succesor;
      } else {
        NoSwap(z, t);
      }
    }

    lemma SameKeySet(t: TNode, u: TNode)
      requires SameContent(t, u)
      ensures KeySet(t) == KeySet(u) && (Sorted(Keys(t)) <==> Sorted(Keys(u)))
    {
    }

    lemma NoSwap(z: ZNode, t: TNode)
      requires Holds(z, t) && t.Bin? && t.node.left == nil && t.node.right == nil
      ensures Swapped(z, t) == (z, t)
    {
      LookFurther(z, t);
      Look(z, t);
    }

    lemma MemberAll(z: ZNode, t: TNode)
      requires Holds(z, t) && t.Bin?
      ensures UnhookPoint(z, t).1.node in All(z, t)
    {
      if t.right.Bin? {
        DescendRight(z, t);
        LeftmostHolds(GoRight(z, t), t.right);
      }
    }

    /** RBT_deleteNodeByKey: an absent key changes nothing; otherwise the node that has it is deleted. */
    method DeleteNodeByKey(key: int) returns (r: Node, ghost target: Node)
      requires Ordered() && (key in Keys(tree) ==> Balanced(tree))
      modifies this`root, this`tree, nil`left, nil`right, nil`parent, nil`color, Nodes(tree)
      ensures Ordered() && old(Has(tree, key)) == (key in old(Keys(tree)))
      ensures key !in old(Keys(tree)) ==> r == nil && tree == old(tree)
      ensures key in old(Keys(tree)) ==>
                && target == Holder(old(tree), key) && tree == AfterDelete(old(tree), target)
                && KeySet(tree) == old(KeySet(tree)) - {key} && r.key == key
                && r in old(Nodes(tree)) && Nodes(tree) == old(Nodes(tree)) - {r} && target in Nodes(old(tree))
                && (Balanced(tree) <==> DeletesLevel(old(tree), target))
                && (old(Valid()) ==> Balanced(tree) && (NoRedRed(tree) <==> DeletesClean(old(tree), target)))
    {
      hide Holds, Keys, KeySet, Nodes, Sorted, Balanced, NoRedRed, DeletesLevel, DeletesClean, Has, Holder, AfterDelete;
      var found := Search(key);
      target := found;
      r := DeleteNode(found);
    }

    // -------------------------------------------------------------- any sequence of operations

    ghost function NewNodes(ops: seq<Op<Node>>): set<Node> {
      set i | 0 <= i < |ops| && ops[i].Insert? :: ops[i].node
    }

    /** The caller brings a new node with its key for every insertion. */
    ghost predicate Supplied(ops: seq<Op<Node>>)
      reads this`tree, NewNodes(ops)
    {
      && (forall i :: 0 <= i < |ops| && ops[i].Insert? ==>
            ops[i].node in NewNodes(ops) && ops[i].node.key == ops[i].key
            && ops[i].node != nil && ops[i].node !in Nodes(tree))
      && (forall i, j :: 0 <= i < j < |ops| && ops[i].Insert? && ops[j].Insert? ==> ops[i].node != ops[j].node)
    }

    lemma SearchedKeys(key: int)
      requires Ordered()
      ensures Has(tree, key) == (key in KeySet(tree)) == (key in Keys(tree)) && nil !in Nodes(tree)
    {
      SearchFinds(tree, key);
    }

    /** One operation; the answer says whether it took effect. */
    method Perform(op: Op<Node>) returns (answer: bool)
      requires Ordered() && EvenOp(tree, op)
      requires op.Insert? ==> op.node.key == op.key && op.node != nil && op.node !in Nodes(tree)
      modifies this`root, this`tree, nil`left, nil`right, nil`parent, nil`color, Nodes(tree), NewNodes([op])
      ensures Ordered() && tree == AfterOp(old(tree), op) && KeySet(tree) == KeysAfterOp(old(KeySet(tree)), op)
      ensures answer == (old(op.key in KeySet(tree)) != op.Insert?)
      ensures Nodes(tree) <= old(Nodes(tree)) + NewNodes([op])
      ensures old(Valid()) && CleanOp(old(tree), op) ==> Valid()
    {
      hide Holds, Keys, Nodes, Sorted, Balanced, NoRedRed, DeletesLevel, DeletesClean, Has, Holder, KeySet, AfterDelete,
        AfterInsert, InsertsLevel;
      SearchedKeys(op.key);
      assert op.Insert? ==> [op][0].node in NewNodes([op]);
      match op
      case Insert(node, _) =>
        var r := InsertNode(node);
        answer := r == node;
      case Delete(key) =>
        var r, _ := DeleteNodeByKey(key);
        answer := r != nil;
    }

    lemma SupplyGoesOn(ops: seq<Op<Node>>)
      requires Supplied(ops) && ops != []
      ensures NewNodes([ops[0]]) <= NewNodes(ops) && NewNodes(ops[1..]) <= NewNodes(ops)
      ensures NewNodes([ops[0]]) !! NewNodes(ops[1..]) && NewNodes(ops) !! Nodes(tree)
      ensures ops[0].Insert? ==> ops[0].node.key == ops[0].key && ops[0].node != nil && ops[0].node !in Nodes(tree)
      ensures nil !in NewNodes(ops)
    {
      hide Nodes;
      var first, rest := [ops[0]], ops[1..];
      assert first[0] == ops[0];
      assert forall i :: 0 <= i < |rest| ==> rest[i] == ops[i + 1];
    }

    twostate lemma StillSupplied(ops: seq<Op<Node>>)
      requires old(Supplied(ops)) && ops != []
      requires forall n :: n in NewNodes(ops[1..]) ==> n.key == old(n.key) && n !in Nodes(tree)
      ensures Supplied(ops[1..])
    {
      hide Nodes;
      var rest := ops[1..];
      assert forall i :: 0 <= i < |rest| ==> rest[i] == ops[i + 1];
    }

    /**
     * Any sequence of insertions and deletions, in which the black counts are equal whenever a key is deleted, or which
     * starts from a valid tree and has clean deletions only. Search order, links and a black root survive, the keys
     * follow the finite set, and the tree is the one that the functions on values give.
     */
    method Run(ops: seq<Op<Node>>) returns (answers: seq<bool>)
      requires Ordered() && Supplied(ops)
      requires EvenRun(tree, ops) || (Valid() && CleanRun(tree, ops))
      modifies this`root, this`tree, nil`left, nil`right, nil`parent, nil`color, Nodes(tree), NewNodes(ops)
      ensures Ordered() && tree == AfterRun(old(tree), ops)
      ensures KeySet(tree) == KeysAfter(old(KeySet(tree)), ops) && answers == Answers(old(KeySet(tree)), ops)
      ensures old(Valid()) && CleanRun(old(tree), ops) ==> Valid()
      decreases |ops|
    {
      hide Holds, Keys, Nodes, Sorted, NoRedRed, DeletesClean, Has, Holder, KeySet, AfterOp, CleanOp, KeysAfterOp,
        NewNodes, Supplied, Balanced;
      if ops == [] {
        answers := [];
      } else {
        SupplyGoesOn(ops);
        ghost var later := NewNodes(ops[1..]);
        assert allocated(later);
        assert later !! Nodes(tree) && later !! NewNodes([ops[0]]);
        var answer := Perform(ops[0]);
        assert later !! Nodes(tree);
        forall n | n in later
          ensures n.key == old(n.key)
        {
          assert n != nil;
        }
        StillSupplied(ops);
        var rest := Run(ops[1..]);
        answers := [answer] + rest;
      }
    }
  }
}
