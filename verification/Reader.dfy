/** The resumable reader of read.c: a buffer with a cursor, a stack of nine tasks, a partial reply,
    sticky errors. GetReply and Feed are proved to behave like the recursive grammar applied to the
    bytes that are still pending, however they were cut into chunks. */
module Reader {
  import opened Bytes
  import opened IntText
  import opened Resp
  import opened ReplyTree

  /** One entry of rstack. `ty` is None for -1; `parent` is the index of the parent entry or -1. */
  datatype ReadTask = ReadTask(ty: Option<Kind>, elements: int, idx: int, parent: int)

  const READER_MAX_BUF := 1024 * 16

  /** The task stack mirrors the open arrays: every entry below the top is an array, and each
      entry's idx is the number of elements its parent already has. */
  ghost predicate Mirrors(tasks: seq<ReadTask>, ridx: int, stack: seq<Frame>) {
    && |tasks| == 9 && -1 <= ridx <= 8
    && Open(stack) && |stack| == (if ridx < 0 then 0 else ridx)
    && (forall k :: 0 <= k < ridx ==> tasks[k].ty == Some(ArrayK) && tasks[k].elements == stack[k].total)
    && (forall k :: 0 < k <= ridx ==> tasks[k].idx == |stack[k - 1].done| && tasks[k].parent == k - 1)
    && (ridx >= 0 ==> tasks[0].parent == -1)
  }

  lemma MirrorsFacts(tasks: seq<ReadTask>, ridx: int, stack: seq<Frame>)
    requires Mirrors(tasks, ridx, stack)
    ensures |tasks| == 9 && -1 <= ridx <= 8 && Open(stack) && |stack| == (if ridx < 0 then 0 else ridx)
    ensures ridx > 0 ==>
              var f := stack[ridx - 1];
              && tasks[ridx - 1].ty == Some(ArrayK) && tasks[ridx - 1].elements == f.total
              && tasks[ridx].idx == |f.done| < f.total && tasks[ridx].parent == ridx - 1
  {
  }

  lemma MirrorsStart(tasks: seq<ReadTask>)
    requires |tasks| == 9 && tasks[0].parent == -1
    ensures Mirrors(tasks, 0, []) && Mirrors(tasks, -1, [])
  {
  }

  lemma MirrorsPop(tasks: seq<ReadTask>, ridx: int, stack: seq<Frame>)
    requires Mirrors(tasks, ridx, stack) && ridx >= 0
    ensures var pre := if ridx == 0 then [] else stack[..ridx - 1]; Mirrors(tasks, ridx - 1, pre) && Open(pre)
  {
  }

  lemma MirrorsTop(tasks: seq<ReadTask>, ridx: int, stack: seq<Frame>, top: ReadTask)
    requires Mirrors(tasks, ridx, stack) && ridx >= 0
    requires top.parent == tasks[ridx].parent && (ridx > 0 ==> top.idx == tasks[ridx].idx)
    ensures Mirrors(tasks[ridx := top], ridx, stack)
  {
  }

  lemma MirrorsNext(tasks: seq<ReadTask>, ridx: int, stack: seq<Frame>, top: ReadTask, r: Reply)
    requires Mirrors(tasks, ridx, stack) && ridx > 0
    requires |stack[ridx - 1].done| + 1 < stack[ridx - 1].total
    requires top.parent == tasks[ridx].parent && top.idx == tasks[ridx].idx + 1
    ensures Mirrors(tasks[ridx := top], ridx,
                    stack[..ridx - 1] + [Frame(stack[ridx - 1].total, stack[ridx - 1].done + [r])])
  {
  }

  lemma MirrorsPush(tasks: seq<ReadTask>, ridx: int, stack: seq<Frame>, top: ReadTask, n: nat)
    requires Mirrors(tasks, ridx, stack) && 0 <= ridx < 8 && n > 0
    requires tasks[ridx].ty == Some(ArrayK) && tasks[ridx].elements == n
    requires top.parent == ridx && top.idx == 0
    ensures Mirrors(tasks[ridx + 1 := top], ridx + 1, stack + [Frame(n, [])])
  {
  }

  lemma MirrorsPath(tasks: seq<ReadTask>, ridx: int, stack: seq<Frame>)
    requires Mirrors(tasks, ridx, stack) && ridx >= 0
    ensures forall k :: 0 < k <= ridx ==> tasks[k].idx == |stack[k - 1].done|
  {
  }

  /** seekNewline: the first CRLF of `s`, with the source's two nested loops and int cursor. */
  method SeekNewline(s: seq<Byte>) returns (p: int)
    requires |s| <= INT_MAX
    ensures p == LineEnd(s)
  {
    var pos := 0;
    var last := |s| - 1;
    while pos < last
      invariant 0 <= pos && (|s| > 0 ==> pos <= last)
      invariant forall j :: 0 <= j < pos ==> !IsCRLF(s, j)
    {
      while pos < last && s[pos] != CR
        invariant 0 <= pos <= last
        invariant forall j :: 0 <= j < pos ==> !IsCRLF(s, j)
      {
        pos := pos + 1;
      }
      if pos == last {
        assert LineEnd(s) < 0;
        return -1;
      } else if s[pos + 1] == LF {
        LineEndIs(s, pos);
        return pos;
      } else {
        pos := pos + 1;
      }
    }
    assert LineEnd(s) < 0;
    p := -1;
  }

  /** sdsrange: keep the bytes from index `start` to index `end`, both inclusive, negative indices
      counting from the back. */
  method SdsRange(s: seq<Byte>, start: int, end: int) returns (r: seq<Byte>)
    ensures var len := |s|;
            var a := if start >= 0 then start else if len + start < 0 then 0 else len + start;
            var b := if end >= 0 then end else if len + end < 0 then 0 else len + end;
            r == if len == 0 || a > b || a >= len then [] else s[a..(if b >= len then len else b + 1)]
  {
    var len := |s|;
    if len == 0 {
      return s;
    }
    var start, end := start, end;
    if start < 0 {
      start := len + start;
      if start < 0 { start := 0; }
    }
    if end < 0 {
      end := len + end;
      if end < 0 { end := 0; }
    }
    var newlen := if start > end then 0 else end - start + 1;
    if newlen != 0 {
      if start >= len {
        newlen := 0;
      } else if end >= len {
        end := len - 1;
        newlen := if start > end then 0 else end - start + 1;
      }
    } else {
      start := 0;
    }
    if start != 0 && newlen != 0 {
      r := s[start..start + newlen];
    } else {
      r := s[..newlen];
    }
  }

  /** The indices at which the tasks above the root sit in their parents. */
  function Path(tasks: seq<ReadTask>, ridx: nat): (path: seq<nat>)
    requires ridx < |tasks| && forall k :: 0 < k <= ridx ==> tasks[k].idx >= 0
  {
    seq(ridx, k requires 0 <= k < ridx => tasks[k + 1].idx)
  }

  class RedisReader {
    var err: Option<ErrorKind>
    var buf: seq<Byte>
    var pos: nat
    var len: nat
    var maxbuf: nat
    const rstack: array<ReadTask>
    var ridx: int
    var reply: Option<Node>

    /** Bytes of the reply being read that the cursor has passed, and its open arrays. */
    ghost var consumed: seq<Byte>
    ghost var stack: seq<Frame>

    ghost predicate Shape()
      reads this, rstack
    {
      && pos <= len == |buf| <= INT_MAX
      && err.None?
      && Mirrors(rstack[..], ridx, stack)
    }

    /** In the middle of a reply. */
    ghost predicate Reading()
      reads this, rstack
    {
      && Shape() && 0 <= ridx < rstack.Length && Open(stack)
      && reply == (if ridx == 0 then None else Some(Build(stack, Hole)))
      && Agrees(consumed, stack, rstack[ridx].ty)
    }

    /** The item at the point of reading has just been stored as `r`. */
    ghost predicate Stored(r: Reply)
      reads this, rstack
    {
      Shape() && ridx >= 0 && Open(stack) && reply == Some(Build(stack, Rep(r))) && Delivered(consumed, stack, r)
    }

    /** The stack has run empty with the complete reply `r`. */
    ghost predicate Complete(r: Reply)
      reads this, rstack
    {
      Shape() && ridx == -1 && reply == Some(Rep(r)) && Delivered(consumed, [], r)
    }

    ghost predicate Failed(e: ErrorKind)
      reads this, rstack
    {
      && rstack.Length == 9 && err == Some(e) && ridx == -1
      && buf == [] && pos == len == 0 && reply == None && consumed == [] && stack == []
    }

    /** The state between two calls. */
    ghost predicate Valid()
      reads this, rstack
    {
      if err.Some? then Failed(err.value)
      else if ridx == -1 then Shape() && reply == None && consumed == []
      else Reading() && (rstack[ridx].ty == Some(ArrayK) ==> ridx < MAX_LEVEL)
    }

    /** The bytes fed so far that belong to no emitted reply. */
    ghost function Pending(): seq<Byte>
      reads this
      requires pos <= |buf|
    {
      consumed + buf[pos..]
    }

    constructor ()
      ensures Valid() && err == None && Pending() == [] && buf == []
      ensures fresh(rstack)
    {
      err := None;
      buf := [];
      pos, len := 0, 0;
      maxbuf := READER_MAX_BUF;
      rstack := new ReadTask[9](_ => ReadTask(None, 0, 0, -1));
      ridx := -1;
      reply := None;
      consumed, stack := [], [];
    }

    /** __redisReaderSetError: drop the partial reply and the buffer, empty the stack. */
    method SetError(e: ErrorKind)
      requires rstack.Length == 9
      modifies this
      ensures Failed(e)
    {
      reply := None;
      buf := [];
      pos, len := 0, 0;
      ridx := -1;
      err := Some(e);
      consumed, stack := [], [];
    }

    /** readLine: the text up to the next CRLF; the cursor moves behind the CRLF. */
    method ReadLine() returns (line: Option<seq<Byte>>)
      requires pos <= len == |buf| <= INT_MAX
      modifies this`pos
      ensures var i := LineEnd(buf[old(pos)..]);
              if i < 0 then line == None && pos == old(pos)
              else line == Some(buf[old(pos)..][..i]) && pos == old(pos) + i + 2 <= len
    {
      var i := SeekNewline(buf[pos..]);
      if i >= 0 {
        line := Some(buf[pos..][..i]);
        pos := pos + i + 2;
      } else {
        line := None;
      }
    }

    /** What createString, createArray, createInteger and createNil share: the new object becomes
        element idx of the parent task's object; a root object becomes the reply itself. */
    method StoreObject(x: Node)
      requires Shape() && ridx >= 0 && Open(stack)
      requires reply == (if ridx == 0 then None else Some(Build(stack, Hole)))
      modifies this`reply
      ensures reply == Some(Build(stack, x))
    {
      MirrorsFacts(rstack[..], ridx, stack);
      MirrorsPath(rstack[..], ridx, stack);
      StoreAtPoint(stack, Hole, x);
      if ridx == 0 {
        BuildEmpty(stack, x);
        reply := Some(x);
      } else {
        var path := Path(rstack[..], ridx);
        assert path == PathOf(stack);
        reply := Some(StoreAt(reply.value, path, x));
      }
    }

    /** moveToNextTask: leave every array that is now complete, then step to the next element. Both
        of the source's asserts are proved. */
    method MoveToNextTask(ghost r0: Reply) returns (ghost r: Reply)
      requires Stored(r0)
      modifies this`ridx, this`stack, rstack
      ensures if ridx == -1 then Complete(r) else Reading() && rstack[ridx].ty == None
    {
      hide Build, Agrees, Delivered, Rep, Mirrors, Open;
      r := r0;
      while ridx >= 0
        invariant if ridx == -1 then Complete(r) else Stored(r)
        decreases ridx
      {
        MirrorsFacts(rstack[..], ridx, stack);
        MirrorsPop(rstack[..], ridx, stack);
        if ridx == 0 {
          ridx := ridx - 1;
          BuildEmpty(stack, Rep(r));
          return;
        }
        var cur, prv := rstack[ridx], rstack[ridx - 1];
        assert prv.ty == Some(ArrayK);
        if cur.idx == prv.elements - 1 {
          PopDelivers(consumed, stack, r);
          r := Array(stack[|stack| - 1].done + [r]);
          stack := stack[..|stack| - 1];
          ridx := ridx - 1;
        } else {
          assert cur.idx < prv.elements;
          NextElement(r);
          return;
        }
      }
    }

    /** The other half of moveToNextTask: the top task is reset for the next element. */
    method NextElement(ghost r: Reply)
      requires Stored(r) && 0 < ridx <= 8 && |stack| == ridx
      requires |stack[ridx - 1].done| + 1 < stack[ridx - 1].total
      modifies this`stack, rstack
      ensures Reading() && rstack[ridx].ty == None
    {
      hide Build, Agrees, Delivered, Rep, Mirrors, Open;
      MirrorsFacts(rstack[..], ridx, stack);
      NextAgrees(consumed, stack, r);
      var cur := rstack[ridx].(ty := None, elements := -1, idx := rstack[ridx].idx + 1);
      MirrorsNext(rstack[..], ridx, stack, cur, r);
      stack := stack[..ridx - 1] + [Frame(stack[ridx - 1].total, stack[ridx - 1].done + [r])];
      rstack[ridx] := cur;
      assert rstack[..] == old(rstack[..])[ridx := cur];
    }

    /** Accounts for the bytes the cursor has passed since it was at `start`. */
    ghost method Absorb(start: nat)
      requires start <= pos <= |buf|
      modifies this`consumed
      ensures consumed == old(consumed) + buf[start..][..pos - start]
      ensures Pending() == old(consumed) + buf[start..]
    {
      consumed := consumed + buf[start..][..pos - start];
      assert buf[start..][..pos - start] + buf[pos..] == buf[start..];
    }

    /** What every item handler promises. Success moves the cursor and loses no byte; failure is
        either lack of input, again with nothing lost, or the grammar's own error. */
    twostate predicate Processed(ok: bool, r: Reply)
      reads this, rstack
      requires old(pos) <= |old(buf)|
    {
      if err.None? then
        && buf == old(buf) && old(pos) <= pos <= |buf| && Pending() == old(Pending())
        && (ok ==> old(pos) < pos && (if ridx == -1 then Complete(r) else Reading()))
        && (!ok ==> Reading() && (rstack[ridx].ty == Some(ArrayK) ==> ridx < MAX_LEVEL))
        && (!ok ==> ParseReply(Pending(), 0) == More)
      else
        !ok && Failed(err.value) && ParseReply(old(Pending()), 0) == Bad(err.value)
    }

    /** The tail of processLineItem and processBulkItem: the reply object is stored and the stack moves on. */
    method StoreItem(obj: Reply, ghost start: nat) returns (ghost r: Reply)
      requires Shape() && rstack.Length == 9 && 0 <= ridx && Open(stack) && start <= pos && !obj.Array?
      requires reply == (if ridx == 0 then None else Some(Build(stack, Hole)))
      requires Delivered(consumed + buf[start..][..pos - start], stack, obj)
      modifies this`reply, this`consumed, this`ridx, this`stack, rstack
      ensures Pending() == old(consumed) + buf[start..]
      ensures if ridx == -1 then Complete(r) else Reading()
    {
      hide Build, Agrees, Delivered, StoreAt, Rep, Open, Mirrors;
      LeafRep(obj);
      StoreObject(Leaf(obj));
      Absorb(start);
      r := MoveToNextTask(obj);
    }

    method ProcessLineItem() returns (ok: bool, ghost r: Reply)
      requires Reading() && rstack[ridx].ty.Some? && IsLine(rstack[ridx].ty.value)
      modifies this, rstack
      ensures Processed(ok, r)
    {
      hide Build, Agrees, Delivered, ParseReply, ParseInt, LineEnd, StoreAt, Rep, Open, Mirrors, WrapU64, Resume;
      MirrorsFacts(rstack[..], ridx, stack);
      var cur := rstack[ridx];
      ghost var start := pos;
      LineItem(consumed, stack, cur.ty.value, buf[pos..]);
      r := Reply.Nil;
      var line := ReadLine();
      if line.None? {
        return false, r;
      }
      var obj: Reply;
      if cur.ty == Some(IntegerK) {
        var good, v := String2ll(line.value);
        if !good {
          SetError(BadInteger);
          return false, r;
        }
        obj := Integer(v);
      } else {
        obj := if cur.ty == Some(StatusK) then Status(line.value) else Error(line.value);
      }
      r := StoreItem(obj, start);
      ok := true;
    }

    /** The body of a bulk item whose length line ends at `i` and says `n`. */
    method TakeBulk(i: nat, n: int) returns (ok: bool, ghost r: Reply)
      requires Reading() && rstack[ridx].ty == Some(BulkK) && -1 <= n <= LLONG_MAX
      requires i == LineEnd(buf[pos..]) && ParseInt(buf[pos..][..i]) == Some(n)
      modifies this, rstack
      ensures Processed(ok, r)
    {
      hide Build, Agrees, Delivered, ParseReply, ParseInt, LineEnd, StoreAt, Rep, Open, Mirrors, WrapU64, Resume;
      MirrorsFacts(rstack[..], ridx, stack);
      ghost var start := pos;
      BulkItem(consumed, stack, buf[pos..]);
      r := Reply.Nil;
      var bytelen := i + 2;
      var obj: Reply;
      if n == -1 {
        obj := Reply.Nil;
      } else {
        bytelen := WrapU64(bytelen + n + 2);
        if WrapU64(pos + bytelen) > len {
          return false, r;
        }
        obj := Bulk(buf[pos..][i + 2..i + 2 + n]);
      }
      pos := pos + bytelen;
      r := StoreItem(obj, start);
      ok := true;
    }

    method ProcessBulkItem() returns (ok: bool, ghost r: Reply)
      requires Reading() && rstack[ridx].ty == Some(BulkK)
      modifies this, rstack
      ensures Processed(ok, r)
    {
      hide Build, Agrees, Delivered, ParseReply, ParseInt, LineEnd, StoreAt, Rep, Open, Mirrors, WrapU64, Resume;
      MirrorsFacts(rstack[..], ridx, stack);
      BulkItem(consumed, stack, buf[pos..]);
      r := Reply.Nil;
      var i := SeekNewline(buf[pos..]);
      if i < 0 {
        return false, r;
      }
      var good, n := String2ll(buf[pos..][..i]);
      if !good {
        SetError(BadBulkLength);
        return false, r;
      }
      if n < -1 {
        SetError(BulkLengthRange);
        return false, r;
      }
      ok, r := TakeBulk(i, n);
    }

    /** Descends into the array just stored: the top of the stack becomes its first element. */
    method OpenArray(elements: int)
      requires Shape() && rstack.Length == 9 && 0 <= ridx < MAX_LEVEL && 0 < elements
      requires rstack[ridx].ty == Some(ArrayK)
      modifies this`ridx, this`stack, rstack
      ensures ridx == old(ridx) + 1 && stack == old(stack) + [Frame(elements, [])]
      ensures Shape() && rstack[ridx].ty == None
    {
      hide Mirrors, Open;
      MirrorsFacts(rstack[..], ridx, stack);
      var cur := rstack[ridx].(elements := elements);
      var top := ReadTask(None, -1, 0, ridx);
      MirrorsTop(rstack[..], ridx, stack, cur);
      rstack[ridx] := cur;
      assert rstack[..] == old(rstack[..])[ridx := cur];
      MirrorsPush(rstack[..], ridx, stack, top, elements);
      ghost var tasks := rstack[..];
      ridx := ridx + 1;
      rstack[ridx] := top;
      assert rstack[..] == tasks[ridx := top];
      stack := stack + [Frame(elements, [])];
    }

    /** The tail of processMultiBulkItem: the array of the given length, or nil for -1, is stored. A
        root object is stored before the task stack moves; the source does so afterwards, with the same
        effect, since moving the stack does not touch the reply. */
    method StoreHeader(elements: int, ghost start: nat) returns (ghost r: Reply)
      requires Shape() && rstack.Length == 9 && 0 <= ridx < MAX_LEVEL && Open(stack) && start <= pos
      requires rstack[ridx].ty == Some(ArrayK) && -1 <= elements <= INT_MAX
      requires reply == (if ridx == 0 then None else Some(Build(stack, Hole)))
      requires var c := consumed + buf[start..][..pos - start];
        if elements == -1 then Delivered(c, stack, Reply.Nil)
        else if elements == 0 then Delivered(c, stack, Array([]))
        else Agrees(c, stack + [Frame(elements, [])], None)
      modifies this`reply, this`consumed, this`ridx, this`stack, rstack
      ensures Pending() == old(consumed) + buf[start..]
      ensures if ridx == -1 then Complete(r) else Reading()
    {
      hide Build, Agrees, Delivered, StoreAt, Rep, Open, Mirrors;
      MirrorsFacts(rstack[..], ridx, stack);
      r := Reply.Nil;
      if elements > 0 {
        StoreObject(Arr(seq(elements, _ => Hole)));
        PushTree(stack, elements);
        Absorb(start);
        OpenArray(elements);
      } else {
        ghost var obj := if elements == -1 then Reply.Nil else Array([]);
        EmptyRep();
        StoreObject(if elements == -1 then Leaf(Reply.Nil) else Arr([]));
        Absorb(start);
        r := MoveToNextTask(obj);
      }
    }

    method ProcessMultiBulkItem() returns (ok: bool, ghost r: Reply)
      requires Reading() && rstack[ridx].ty == Some(ArrayK)
      modifies this, rstack
      ensures Processed(ok, r)
    {
      hide Build, Agrees, Delivered, ParseReply, ParseInt, LineEnd, StoreAt, Rep, Open, Mirrors, WrapU64, Resume;
      MirrorsFacts(rstack[..], ridx, stack);
      ghost var start := pos;
      ArrayItem(consumed, stack, buf[pos..]);
      r := Reply.Nil;
      if ridx == 8 {
        SetError(TooDeep);
        return false, r;
      }
      var line := ReadLine();
      if line.None? {
        return false, r;
      }
      var good, elements := String2ll(line.value);
      if !good {
        SetError(BadMultiBulkLength);
        return false, r;
      }
      if elements < -1 || elements > INT_MAX {
        SetError(MultiBulkLengthRange);
        return false, r;
      }
      ok := true;
      r := StoreHeader(elements, start);
    }

    /** The first half of processItem: read the type byte. */
    method ReadType() returns (ok: bool)
      requires Reading() && rstack[ridx].ty == None
      modifies this, rstack
      ensures ok ==> Reading() && rstack[ridx].ty.Some?
      ensures ok ==> buf == old(buf) && old(pos) < pos && Pending() == old(Pending())
      ensures !ok ==> Processed(ok, Reply.Nil)
    {
      hide Build, Agrees, ParseReply, Mirrors, Open;
      MirrorsFacts(rstack[..], ridx, stack);
      TypeItem(consumed, stack, buf[pos..]);
      if len - pos < 1 {
        return false;
      }
      var b := buf[pos];
      pos := pos + 1;
      var kind := KindOf(b);
      if kind.None? {
        SetError(BadTypeByte(b));
        return false;
      }
      AgreesAfterType(consumed, stack, b);
      var cur := rstack[ridx].(ty := kind);
      MirrorsTop(rstack[..], ridx, stack, cur);
      rstack[ridx] := cur;
      assert rstack[..] == old(rstack[..])[ridx := cur];
      assert buf[pos - 1..][..1] == [b];
      Absorb(pos - 1);
      ok := true;
    }

    /** processItem: read the type byte unless it is already known, then the typed item. */
    method ProcessItem() returns (ok: bool, ghost r: Reply)
      requires Reading()
      modifies this, rstack
      ensures Processed(ok, r)
    {
      hide Build, Agrees, Delivered, ParseReply, Open, Mirrors;
      r := Reply.Nil;
      if rstack[ridx].ty.None? {
        ok := ReadType();
        if !ok {
          return;
        }
      }
      match rstack[ridx].ty.value
      case BulkK => ok, r := ProcessBulkItem();
      case ArrayK => ok, r := ProcessMultiBulkItem();
      case _ => ok, r := ProcessLineItem();
    }

    /** redisReaderFeed. `avail` is the spare capacity of the buffer, an allocator detail. */
    method Feed(chunk: seq<Byte>, avail: nat) returns (ok: bool)
      requires Valid() && |buf| + |chunk| <= INT_MAX
      modifies this
      ensures Valid()
      ensures ok <==> old(err).None?
      ensures err == old(err)
      ensures Pending() == if ok then old(Pending()) + chunk else old(Pending())
      ensures |buf| <= old(|buf|) + |chunk|
    {
      hide Build, Agrees, Mirrors, Open, Delivered, ParseReply;
      if err.Some? {
        return false;
      }
      assert (buf + chunk)[pos..] == buf[pos..] + chunk;
      assert consumed + (buf[pos..] + chunk) == consumed + buf[pos..] + chunk;
      if |chunk| >= 1 {
        if len == 0 && maxbuf != 0 && avail > maxbuf {
          buf := [];
          pos := 0;
        }
        buf := buf + chunk;
        len := |buf|;
      }
      ok := true;
    }

    /** redisReaderGetReply: exactly one step of the recursive grammar on the pending bytes. */
    method GetReply() returns (ok: bool, out: Option<Node>)
      requires Valid()
      modifies this, rstack
      ensures Valid()
      ensures old(err).Some? ==> !ok && out == None && err == old(err)
      ensures old(err).None? ==>
                match ParseReply(old(Pending()), 0)
                case More => ok && out == None && err == None && Pending() == old(Pending())
                case Bad(e) => !ok && out == None && err == Some(e)
                case Done(r, rest) => ok && out == Some(Rep(r)) && err == None && Pending() == rest
      ensures |buf| <= old(|buf|) && (ok ==> pos < 1024)
    {
      hide Build, Agrees, Delivered, ParseReply, Open, Rep, Mirrors;
      if err.None? {
        MirrorsFacts(rstack[..], ridx, stack);
      }
      out := None;
      ghost var p := Pending();
      if err.Some? {
        return false, None;
      }
      if len == 0 {
        if ridx >= 0 {
          EmptyItem(consumed, stack, rstack[ridx].ty);
        } else {
          EmptyItem([], [], None);
        }
        return true, None;
      }
      if ridx == -1 {
        rstack[0] := ReadTask(None, -1, -1, -1);
        ridx := 0;
        MirrorsStart(rstack[..]);
        AgreesInitially();
      }
      ghost var r := Reply.Nil;
      var more := true;
      while ridx >= 0 && more
        invariant err.None? ==> pos <= |buf| && Pending() == p && buf == old(buf)
        invariant err.Some? ==> Failed(err.value) && ParseReply(p, 0) == Bad(err.value)
        invariant err.None? ==> if ridx == -1 then Complete(r) else Reading()
        invariant err.None? && !more ==> ridx >= 0 && ParseReply(p, 0) == More
        invariant err.None? && !more ==> rstack[ridx].ty == Some(ArrayK) ==> ridx < MAX_LEVEL
        decreases more, |buf| - pos
      {
        more, r := ProcessItem();
      }
      if err.Some? {
        return false, None;
      }
      ghost var rest := buf[pos..];
      if ridx == -1 {
        CompleteVerdict(consumed, r, rest);
      }
      out := Emit(r);
      ok := true;
    }

    /** The rest of redisReaderGetReply: the buffer is compacted and a complete reply handed out. */
    method Emit(ghost r: Reply) returns (out: Option<Node>)
      requires err.None? && if ridx == -1 then Complete(r) else Valid()
      modifies `buf, `pos, `len, `reply, `consumed
      ensures Valid() && pos < 1024 && |buf| <= old(|buf|)
      ensures old(ridx) == -1 ==> out == Some(Rep(r)) && Pending() == old(buf[pos..])
      ensures old(ridx) >= 0 ==> out == None && Pending() == old(Pending())
    {
      hide Build, Agrees, Delivered, ParseReply, Open, Rep, Mirrors;
      ghost var rest := buf[pos..];
      out := None;
      Compact();
      if ridx == -1 {
        out := reply;
        reply := None;
        consumed := [];
        assert [] + rest == rest;
      }
    }

    /** The tail of redisReaderGetReply: drop consumed bytes once there are at least 1024. */
    method Compact()
      requires pos <= len == |buf| <= INT_MAX
      modifies this`buf, this`pos, this`len
      ensures pos <= len == |buf| <= old(|buf|) && buf[pos..] == old(buf[pos..])
      ensures pos == if old(pos) < 1024 then old(pos) else 0
    {
      if pos >= 1024 {
        buf := SdsRange(buf, pos, -1);
        pos := 0;
        len := |buf|;
      }
    }
  }

  ghost predicate IsLine(kind: Kind) {
    !kind.BulkK? && !kind.ArrayK?
  }

  lemma BuildEmpty(stack: seq<Frame>, x: Node)
    requires stack == []
    ensures Build(stack, x) == x
  {
  }

  lemma LeafRep(r: Reply)
    ensures !r.Array? ==> Rep(r) == Leaf(r)
  {
  }

  lemma EmptyRep()
    ensures Rep(Array([])) == Arr([]) && Rep(Reply.Nil) == Leaf(Reply.Nil)
  {
  }

  /** A verdict on the item at the point of reading is the verdict on the whole reply. */
  lemma Verdict(consumed: seq<Byte>, stack: seq<Frame>, ty: Option<Kind>, t: seq<Byte>)
    requires Agrees(consumed, stack, ty) && !Item(ty, t, |stack|).Done?
    ensures ParseReply(consumed + t, 0) == Item(ty, t, |stack|)
  {
    assert AgreesOn(consumed, stack, ty, t);
  }

  lemma CompleteVerdict(consumed: seq<Byte>, r: Reply, rest: seq<Byte>)
    requires Delivered(consumed, [], r)
    ensures ParseReply(consumed + rest, 0) == Done(r, rest)
  {
    assert DeliveredOn(consumed, [], r, rest);
  }

  lemma NothingYet(ty: Option<Kind>, lvl: nat)
    requires ty == Some(ArrayK) ==> lvl < MAX_LEVEL
    ensures Item(ty, [], lvl) == More
  {
    assert LineEnd([]) == -1;
  }

  lemma EmptyItem(consumed: seq<Byte>, stack: seq<Frame>, ty: Option<Kind>)
    requires ty == Some(ArrayK) ==> |stack| < MAX_LEVEL
    ensures Agrees(consumed, stack, ty) ==> ParseReply(consumed + [], 0) == More
    ensures ParseReply([] + [], 0) == More
  {
    hide ParseBody;
    var none: seq<Byte> := [];
    assert none + none == none;
    NothingYet(ty, |stack|);
    if Agrees(consumed, stack, ty) {
      Verdict(consumed, stack, ty, []);
    }
  }

  lemma TypeItem(consumed: seq<Byte>, stack: seq<Frame>, s: seq<Byte>)
    requires Agrees(consumed, stack, None)
    ensures s == [] ==> ParseReply(consumed + s, 0) == More
    ensures s != [] && KindOf(s[0]).None? ==> ParseReply(consumed + s, 0) == Bad(BadTypeByte(s[0]))
  {
    if s == [] || KindOf(s[0]).None? {
      Verdict(consumed, stack, None, s);
    }
  }

  lemma PrefixLine(s: seq<Byte>)
    requires LineEnd(s) >= 0
    ensures var i, x := LineEnd(s), s[..LineEnd(s) + 2];
            LineEnd(x) == i && x[..i] == s[..i] && x[i + 2..] == []
  {
    var i, x := LineEnd(s), s[..LineEnd(s) + 2];
    forall j | 0 <= j < i
      ensures !IsCRLF(x, j)
    {
      assert !IsCRLF(s, j);
    }
    LineEndIs(x, i);
  }

  /** The three outcomes of a line item. */
  lemma LineItem(consumed: seq<Byte>, stack: seq<Frame>, kind: Kind, s: seq<Byte>)
    requires Agrees(consumed, stack, Some(kind)) && IsLine(kind)
    ensures var i := LineEnd(s);
            if i < 0 then ParseReply(consumed + s, 0) == More
            else if kind == IntegerK && ParseInt(s[..i]).None? then ParseReply(consumed + s, 0) == Bad(BadInteger)
            else
              var r := if kind == IntegerK then Integer(ParseInt(s[..i]).value)
                       else if kind == StatusK then Status(s[..i]) else Error(s[..i]);
              Delivered(consumed + s[..i + 2], stack, r)
  {
    var i := LineEnd(s);
    if i < 0 || (kind == IntegerK && ParseInt(s[..i]).None?) {
      Verdict(consumed, stack, Some(kind), s);
    } else {
      PrefixLine(s);
      Deliver(consumed, stack, kind, s[..i + 2], LineValue(kind, s[..i], []).value);
    }
  }

  lemma BulkBody(s: seq<Byte>, lvl: nat)
    ensures var i := LineEnd(s);
            ParseBody(BulkK, s, lvl) == if i < 0 then More else BulkValue(ParseInt(s[..i]), s[i + 2..])
  {
  }

  /** The bytes of a whole bulk item: its length line, its contents and two more bytes. */
  lemma CutBulk(s: seq<Byte>, i: nat, n: nat)
    requires i + 4 + n <= |s|
    ensures var y := s[i + 2..i + 4 + n];
            s[..i + 4 + n] == s[..i + 2] + y && y[..n] == s[i + 2..i + 2 + n] && y[n + 2..] == []
  {
  }

  lemma PrefixBulk(s: seq<Byte>, n: nat, lvl: nat)
    requires LineEnd(s) >= 0 && LineEnd(s) + 4 + n <= |s| && ParseInt(s[..LineEnd(s)]) == Some(n)
    ensures var i := LineEnd(s); ParseBody(BulkK, s[..i + 4 + n], lvl) == Done(Bulk(s[i + 2..i + 2 + n]), [])
  {
    hide ParseBody, LineEnd, ParseInt;
    var i := LineEnd(s);
    var y := s[i + 2..i + 4 + n];
    CutBulk(s, i, n);
    PrefixLine(s);
    LineEndExtends(s[..i + 2], y);
    BulkBody(s[..i + 2] + y, lvl);
    assert s[..i + 2][i + 2..] + y == y;
  }

  lemma PrefixNil(s: seq<Byte>, lvl: nat)
    requires LineEnd(s) >= 0 && ParseInt(s[..LineEnd(s)]) == Some(-1)
    ensures ParseBody(BulkK, s[..LineEnd(s) + 2], lvl) == Done(Reply.Nil, [])
  {
    PrefixLine(s);
    BulkBody(s[..LineEnd(s) + 2], lvl);
  }

  /** The outcomes of a bulk item. */
  lemma BulkItem(consumed: seq<Byte>, stack: seq<Frame>, s: seq<Byte>)
    requires Agrees(consumed, stack, Some(BulkK))
    ensures var i, p := LineEnd(s), ParseReply(consumed + s, 0);
            if i < 0 then p == More
            else
              match ParseInt(s[..i])
              case None => p == Bad(BadBulkLength)
              case Some(n) =>
                if n < -1 then p == Bad(BulkLengthRange)
                else if n == -1 then Delivered(consumed + s[..i + 2], stack, Reply.Nil)
                else if i + 4 + n <= |s| then
                  Delivered(consumed + s[..i + 4 + n], stack, Bulk(s[i + 2..i + 2 + n]))
                else p == More
  {
    hide Agrees, Delivered, ParseReply, ParseBody, LineEnd, ParseInt;
    var i := LineEnd(s);
    BulkBody(s, |stack|);
    if i >= 0 && ParseInt(s[..i]) == Some(-1) {
      PrefixNil(s, |stack|);
      Deliver(consumed, stack, BulkK, s[..i + 2], Reply.Nil);
    } else if i >= 0 && ParseInt(s[..i]).Some? && 0 <= ParseInt(s[..i]).value <= |s| - i - 4 {
      var n := ParseInt(s[..i]).value;
      PrefixBulk(s, n, |stack|);
      Deliver(consumed, stack, BulkK, s[..i + 4 + n], Bulk(s[i + 2..i + 2 + n]));
    } else {
      Verdict(consumed, stack, Some(BulkK), s);
    }
  }

  /** The outcomes of an array header. */
  lemma ArrayItem(consumed: seq<Byte>, stack: seq<Frame>, s: seq<Byte>)
    requires Agrees(consumed, stack, Some(ArrayK)) && |stack| <= MAX_LEVEL
    ensures var i, p := LineEnd(s), ParseReply(consumed + s, 0);
            if |stack| == MAX_LEVEL then p == Bad(TooDeep)
            else if i < 0 then p == More
            else
              match ParseInt(s[..i])
              case None => p == Bad(BadMultiBulkLength)
              case Some(n) =>
                if n < -1 || n > INT_MAX then p == Bad(MultiBulkLengthRange)
                else if n == -1 then Delivered(consumed + s[..i + 2], stack, Reply.Nil)
                else if n == 0 then Delivered(consumed + s[..i + 2], stack, Array([]))
                else Agrees(consumed + s[..i + 2], stack + [Frame(n, [])], None)
  {
    var i := LineEnd(s);
    if |stack| < MAX_LEVEL && i >= 0 && ParseInt(s[..i]).Some? && -1 <= ParseInt(s[..i]).value <= INT_MAX {
      var n := ParseInt(s[..i]).value;
      PrefixLine(s);
      if n == -1 {
        Deliver(consumed, stack, ArrayK, s[..i + 2], Reply.Nil);
      } else if n == 0 {
        var none: seq<Reply> := [];
        assert none + none == none;
        Deliver(consumed, stack, ArrayK, s[..i + 2], Array([]));
      } else {
        PushAgrees(consumed, stack, s[..i + 2], n);
      }
    } else {
      Verdict(consumed, stack, Some(ArrayK), s);
    }
  }
}
