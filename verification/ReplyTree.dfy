/** The partially built reply tree of the reader, the stack of open arrays, and what the grammar
    says remains to be read for a given stack. */
module ReplyTree {
  import opened Bytes
  import opened IntText
  import opened Resp

  /** A reply object under construction; Hole is a NULL element pointer. */
  datatype Node = Hole | Leaf(reply: Reply) | Arr(slots: seq<Node>)

  /** The finished tree of a reply. */
  ghost function Rep(r: Reply): Node {
    if r.Array? then Arr(seq(|r.items|, i requires 0 <= i < |r.items| => Rep(r.items[i]))) else Leaf(r)
  }

  lemma {:induction false} RepInjective(a: Reply, b: Reply)
    requires Rep(a) == Rep(b)
    ensures a == b
    decreases a
  {
    if !a.Array? || !b.Array? {
    } else {
      forall i | 0 <= i < |a.items|
        ensures a.items[i] == b.items[i]
      {
        assert Rep(a).slots[i] == Rep(b).slots[i];
        RepInjective(a.items[i], b.items[i]);
      }
      assert a.items == b.items;
    }
  }

  predicate HasPath(root: Node, path: seq<nat>) {
    path == [] || (root.Arr? && path[0] < |root.slots| && HasPath(root.slots[path[0]], path[1..]))
  }

  function GetAt(root: Node, path: seq<nat>): Node
    requires HasPath(root, path)
  {
    if path == [] then root else GetAt(root.slots[path[0]], path[1..])
  }

  /** parent->element[idx] = x, with the parent found along the task stack. */
  function StoreAt(root: Node, path: seq<nat>, x: Node): Node
    requires HasPath(root, path)
  {
    if path == [] then x else
      Arr(root.slots[path[0] := StoreAt(root.slots[path[0]], path[1..], x)])
  }

  lemma {:induction false} StoreDeeper(root: Node, path: seq<nat>, i: nat, x: Node)
    requires HasPath(root, path)
    requires var a := GetAt(root, path); a.Arr? && i < |a.slots|
    ensures HasPath(root, path + [i]) && GetAt(root, path + [i]) == GetAt(root, path).slots[i]
    ensures StoreAt(root, path + [i], x) == StoreAt(root, path, Arr(GetAt(root, path).slots[i := x]))
    decreases |path|
  {
    if path == [] {
      assert path + [i] == [i] && [i][1..] == [];
      assert HasPath(root.slots[i], []);
    } else {
      assert (path + [i])[1..] == path[1..] + [i];
      StoreDeeper(root.slots[path[0]], path[1..], i, x);
    }
  }

  /** An array whose first `|done|` elements have been read. */
  datatype Frame = Frame(total: nat, done: seq<Reply>)

  ghost predicate Open(stack: seq<Frame>) {
    forall k :: 0 <= k < |stack| ==> |stack[k].done| < stack[k].total
  }

  ghost function Slots(f: Frame, x: Node): seq<Node>
    requires |f.done| < f.total
  {
    seq(f.total, i requires 0 <= i < f.total =>
      if i < |f.done| then Rep(f.done[i]) else if i == |f.done| then x else Hole)
  }

  /** The tree under construction for a stack of open arrays with `x` at the point of reading. */
  ghost function Build(stack: seq<Frame>, x: Node): Node
    requires Open(stack)
  {
    if stack == [] then x
    else Build(stack[..|stack| - 1], Arr(Slots(stack[|stack| - 1], x)))
  }

  function PathOf(stack: seq<Frame>): (path: seq<nat>)
    ensures |path| == |stack|
  {
    seq(|stack|, i requires 0 <= i < |stack| => |stack[i].done|)
  }

  /** Storing at the point of reading replaces exactly that slot. */
  lemma {:induction false} StoreAtPoint(stack: seq<Frame>, x0: Node, x: Node)
    requires Open(stack)
    ensures HasPath(Build(stack, x0), PathOf(stack))
    ensures GetAt(Build(stack, x0), PathOf(stack)) == x0
    ensures StoreAt(Build(stack, x0), PathOf(stack), x) == Build(stack, x)
    decreases |stack|
  {
    if stack == [] {
    } else {
      var pre, f := stack[..|stack| - 1], stack[|stack| - 1];
      var y0, y := Arr(Slots(f, x0)), Arr(Slots(f, x));
      StoreAtPoint(pre, y0, y);
      StoreDeeper(Build(pre, y0), PathOf(pre), |f.done|, x);
      assert PathOf(stack) == PathOf(pre) + [|f.done|];
      assert y0.slots[|f.done| := x] == y.slots;
    }
  }

  /** What the grammar yields for the whole reply once the item at the point of reading gave `res`. */
  ghost function Resume(stack: seq<Frame>, res: Parsed<Reply>): Parsed<Reply>
    requires Open(stack)
    decreases |stack|
  {
    if stack == [] || !res.Done? then res
    else
      var k := |stack| - 1;
      var f := stack[k];
      Resume(stack[..k], AsArray(f.done + [res.value], ParseItems(res.rest, f.total - |f.done| - 1, k + 1)))
  }

  /** The item at the point of reading, whose type byte may already have been read. */
  ghost function Item(ty: Option<Kind>, t: seq<Byte>, lvl: nat): Parsed<Reply> {
    match ty
    case None => ParseReply(t, lvl)
    case Some(kind) => ParseBody(kind, t, lvl)
  }

  ghost predicate AgreesOn(consumed: seq<Byte>, stack: seq<Frame>, ty: Option<Kind>, t: seq<Byte>) {
    Open(stack) && ParseReply(consumed + t, 0) == Resume(stack, Item(ty, t, |stack|))
  }

  /** The stack is the exact state of the grammar after `consumed`, whatever follows. */
  ghost predicate Agrees(consumed: seq<Byte>, stack: seq<Frame>, ty: Option<Kind>) {
    forall t :: AgreesOn(consumed, stack, ty, t)
  }

  ghost predicate DeliveredOn(consumed: seq<Byte>, stack: seq<Frame>, r: Reply, t: seq<Byte>) {
    Open(stack) && ParseReply(consumed + t, 0) == Resume(stack, Done(r, t))
  }

  /** Likewise, with the item at the point of reading just completed as `r`. */
  ghost predicate Delivered(consumed: seq<Byte>, stack: seq<Frame>, r: Reply) {
    forall t :: DeliveredOn(consumed, stack, r, t)
  }

  lemma AgreesInitially()
    ensures Agrees([], [], None)
  {
    forall t
      ensures AgreesOn([], [], None, t)
    {
      assert [] + t == t;
    }
  }

  lemma AgreesAfterType(consumed: seq<Byte>, stack: seq<Frame>, b: Byte)
    requires Agrees(consumed, stack, None) && KindOf(b).Some?
    ensures Agrees(consumed + [b], stack, KindOf(b))
  {
    forall t
      ensures AgreesOn(consumed + [b], stack, KindOf(b), t)
    {
      assert AgreesOn(consumed, stack, None, [b] + t);
      assert consumed + ([b] + t) == consumed + [b] + t;
      assert ([b] + t)[1..] == t;
    }
  }

  lemma Deliver(consumed: seq<Byte>, stack: seq<Frame>, kind: Kind, x: seq<Byte>, r: Reply)
    requires Agrees(consumed, stack, Some(kind))
    requires ParseBody(kind, x, |stack|) == Done(r, [])
    ensures Delivered(consumed + x, stack, r)
  {
    hide ParseReply, ParseBody, Resume, Open;
    forall t
      ensures DeliveredOn(consumed + x, stack, r, t)
    {
      assert AgreesOn(consumed, stack, Some(kind), x + t);
      assert consumed + (x + t) == consumed + x + t;
      BodyExtends(kind, x, |stack|, t);
      assert [] + t == t;
    }
  }

  lemma ItemsUnfold(done: seq<Reply>, t: seq<Byte>, n: nat, lvl: nat)
    requires n > 0
    ensures AsArray(done, ParseItems(t, n, lvl)) ==
            match ParseReply(t, lvl)
            case More => More
            case Bad(e) => Bad(e)
            case Done(v, rest) => AsArray(done + [v], ParseItems(rest, n - 1, lvl))
  {
    var res := ParseReply(t, lvl);
    if res.Done? {
      var items := ParseItems(res.rest, n - 1, lvl);
      if items.Done? {
        assert done + ([res.value] + items.value) == done + [res.value] + items.value;
      }
    }
  }

  /** Reading on inside the innermost array is reading all its remaining elements. */
  lemma ResumeInside(pre: seq<Frame>, f: Frame, t: seq<Byte>)
    requires Open(pre) && |f.done| < f.total
    ensures Open(pre + [f])
    ensures Resume(pre + [f], ParseReply(t, |pre| + 1)) ==
            Resume(pre, AsArray(f.done, ParseItems(t, f.total - |f.done|, |pre| + 1)))
  {
    hide ParseReply, ParseItems, AsArray;
    var stack := pre + [f];
    assert stack[..|pre|] == pre && stack[|pre|] == f;
    ItemsUnfold(f.done, t, f.total - |f.done|, |pre| + 1);
  }

  lemma ArrayHeader(x: seq<Byte>, n: nat, t: seq<Byte>, lvl: nat)
    requires 0 < n <= INT_MAX && lvl < MAX_LEVEL
    requires LineEnd(x) == |x| - 2 >= 0 && ParseInt(x[..|x| - 2]) == Some(n)
    ensures ParseBody(ArrayK, x + t, lvl) == AsArray([], ParseItems(t, n, lvl + 1))
  {
    hide ParseInt, ParseItems, ParseReply, LineEnd;
    LineEndExtends(x, t);
    assert x[|x|..] + t == t;
  }

  lemma PushTree(stack: seq<Frame>, n: nat)
    requires Open(stack) && n > 0
    ensures Open(stack + [Frame(n, [])])
    ensures Build(stack + [Frame(n, [])], Hole) == Build(stack, Arr(seq(n, _ => Hole)))
  {
    var stack' := stack + [Frame(n, [])];
    assert stack'[..|stack|] == stack;
    assert Slots(Frame(n, []), Hole) == seq(n, _ => Hole);
  }

  lemma PushAgreesOn(consumed: seq<Byte>, stack: seq<Frame>, x: seq<Byte>, n: nat, t: seq<Byte>)
    requires AgreesOn(consumed, stack, Some(ArrayK), x + t) && n > 0
    requires ParseBody(ArrayK, x + t, |stack|) == AsArray([], ParseItems(t, n, |stack| + 1))
    ensures AgreesOn(consumed + x, stack + [Frame(n, [])], None, t)
  {
    hide ParseReply, ParseBody, ParseItems, Resume, AsArray, Open;
    assert consumed + (x + t) == consumed + x + t;
    var f := Frame(n, []);
    assert f.total - |f.done| == n;
    ResumeInside(stack, f, t);
  }

  /** Opening an array of n > 0 elements. */
  lemma PushAgrees(consumed: seq<Byte>, stack: seq<Frame>, x: seq<Byte>, n: nat)
    requires Agrees(consumed, stack, Some(ArrayK)) && 0 < n <= INT_MAX && |stack| < MAX_LEVEL
    requires LineEnd(x) == |x| - 2 >= 0 && ParseInt(x[..|x| - 2]) == Some(n)
    ensures Agrees(consumed + x, stack + [Frame(n, [])], None)
    ensures Open(stack)
    ensures Build(stack + [Frame(n, [])], Hole) == Build(stack, Arr(seq(n, _ => Hole)))
  {
    hide ParseReply, ParseBody, ParseItems, Resume, AsArray, Build, ParseInt, LineEnd;
    assert AgreesOn(consumed, stack, Some(ArrayK), []);
    PushTree(stack, n);
    forall t
      ensures AgreesOn(consumed + x, stack + [Frame(n, [])], None, t)
    {
      assert AgreesOn(consumed, stack, Some(ArrayK), x + t);
      ArrayHeader(x, n, t, |stack|);
      PushAgreesOn(consumed, stack, x, n, t);
    }
  }

  /** The innermost array is complete: it becomes the item of the enclosing one. */
  lemma PopDelivers(consumed: seq<Byte>, stack: seq<Frame>, r: Reply)
    requires Delivered(consumed, stack, r) && Open(stack) && stack != []
    requires var f := stack[|stack| - 1]; f.total == |f.done| + 1
    ensures var pre, a := stack[..|stack| - 1], Array(stack[|stack| - 1].done + [r]);
            Delivered(consumed, pre, a) && Build(stack, Rep(r)) == Build(pre, Rep(a))
  {
    var pre, f := stack[..|stack| - 1], stack[|stack| - 1];
    var a := Array(f.done + [r]);
    assert Slots(f, Rep(r)) == Rep(a).slots;
    forall t
      ensures DeliveredOn(consumed, pre, a, t)
    {
      assert DeliveredOn(consumed, stack, r, t);
      assert f.done + [r] + [] == f.done + [r];
    }
  }

  /** The innermost array has elements left: reading moves to the next one. */
  lemma NextAgrees(consumed: seq<Byte>, stack: seq<Frame>, r: Reply)
    requires Delivered(consumed, stack, r) && Open(stack) && stack != []
    requires var f := stack[|stack| - 1]; f.total > |f.done| + 1
    ensures var f := stack[|stack| - 1];
            var stack' := stack[..|stack| - 1] + [Frame(f.total, f.done + [r])];
            Open(stack') && Agrees(consumed, stack', None) && Build(stack, Rep(r)) == Build(stack', Hole)
  {
    hide ParseReply, ParseItems;
    var pre, f := stack[..|stack| - 1], stack[|stack| - 1];
    var f' := Frame(f.total, f.done + [r]);
    var stack' := pre + [f'];
    assert stack'[..|stack| - 1] == pre;
    assert Slots(f, Rep(r)) == Slots(f', Hole);
    forall t
      ensures AgreesOn(consumed, stack', None, t)
    {
      assert DeliveredOn(consumed, stack, r, t);
      ResumeInside(pre, f', t);
    }
  }
}
