/** The callback queue of hiredis' asynchronous context (regular commands), with callbacks that re-enter it. */
module Async {
  import opened Bytes
  import opened Resp

  /** A registered reply callback: whether a function was given, and its private data. */
  datatype Callback = Callback(fn: bool, privdata: nat)

  /** One invocation of a callback function; None stands for a NULL reply. */
  datatype Call = Call(privdata: nat, reply: Option<Reply>)

  /** What user code may do with the context, from a callback or from outside. */
  datatype Action = Command(fn: bool, privdata: nat, len: nat) | Disconnect | Free

  /** The commands a script gets accepted, the flags it leaves, from the flags it finds, and the bytes it writes. */
  ghost function Effect(script: seq<Action>, disconnecting: bool, freeing: bool): (r: (seq<Callback>, bool, bool, nat))
    ensures (disconnecting ==> r.1) && (freeing ==> r.2)
    ensures disconnecting || freeing || script == [] ==> r.0 == [] && r.3 == 0
    decreases |script|
  {
    if script == [] then ([], disconnecting, freeing, 0)
    else
      var a := script[0];
      var r := Effect(script[1..], disconnecting || a.Disconnect?, freeing || a.Free?);
      if a.Command? && !disconnecting && !freeing then ([Callback(a.fn, a.privdata)] + r.0, r.1, r.2, a.len + r.3)
      else r
  }

  /** All commands of a script. */
  ghost function Commands(script: seq<Action>): seq<Callback> {
    if script == [] then []
    else (if script[0].Command? then [Callback(script[0].fn, script[0].privdata)] else []) + Commands(script[1..])
  }

  /** A script gets its first commands accepted, and all of them if it does not close the context. */
  lemma {:induction false} EffectPrefix(script: seq<Action>)
    ensures var e := Effect(script, false, false);
      e.0 <= Commands(script) && (!e.1 && !e.2 ==> e.0 == Commands(script))
    decreases |script|
  {
    if script == [] {
    } else {
      EffectPrefix(script[1..]);
    }
  }

  /** A script closes the context exactly by the calls it makes. */
  lemma {:induction false} EffectCloses(script: seq<Action>, disconnecting: bool, freeing: bool)
    ensures var e := Effect(script, disconnecting, freeing);
      && (e.1 <==> disconnecting || exists i :: 0 <= i < |script| && script[i].Disconnect?)
      && (e.2 <==> freeing || exists i :: 0 <= i < |script| && script[i].Free?)
    decreases |script|
  {
    if script == [] {
    } else {
      var d, f := disconnecting || script[0].Disconnect?, freeing || script[0].Free?;
      EffectCloses(script[1..], d, f);
      assert forall i :: 0 < i < |script| ==> script[i] == script[1..][i - 1];
      assert forall i :: 0 <= i < |script| - 1 ==> script[1..][i] == script[i + 1];
    }
  }

  ghost function Sent(script: seq<Action>): nat {
    if script == [] then 0 else (if script[0].Command? then script[0].len else 0) + Sent(script[1..])
  }

  /** Of a script that closes the context, exactly the commands before the closing call are accepted and written. */
  lemma {:induction false} EffectUntilClosed(before: seq<Action>, closing: Action, behind: seq<Action>)
    requires (forall i :: 0 <= i < |before| ==> before[i].Command?) && !closing.Command?
    ensures var e := Effect(before + [closing] + behind, false, false); e.0 == Commands(before) && e.3 == Sent(before)
    ensures Effect(before, false, false) == (Commands(before), false, false, Sent(before))
    ensures |Commands(before)| == |before|
    ensures forall i :: 0 <= i < |before| ==> Commands(before)[i] == Callback(before[i].fn, before[i].privdata)
    decreases |before|
  {
    if before == [] {
      assert (before + [closing] + behind)[0] == closing;
    } else {
      EffectUntilClosed(before[1..], closing, behind);
      assert (before + [closing] + behind)[1..] == before[1..] + [closing] + behind;
      assert forall i :: 0 < i < |before| ==> before[i] == before[1..][i - 1];
    }
  }

  // ---------------------------------------------------------------- the books kept about a context

  /** Commands accepted, what answered each, the replies taken off the wire, and the calls made. */
  datatype Ledger = Ledger(accepted: seq<Callback>, answers: seq<Option<Reply>>, incoming: seq<Reply>, calls: seq<Call>)

  ghost function CallsOf(accepted: seq<Callback>, answers: seq<Option<Reply>>): seq<Call>
    requires |answers| <= |accepted|
    decreases |answers|
  {
    if answers == [] then []
    else
      var n := |answers| - 1;
      CallsOf(accepted, answers[..n]) + if accepted[n].fn then [Call(accepted[n].privdata, answers[n])] else []
  }

  /** Commands are answered in the order of acceptance: first by replies, and by NULL only once draining. */
  ghost predicate Settled(l: Ledger, queue: seq<Callback>, draining: bool) {
    && |l.incoming| <= |l.answers| <= |l.accepted|
    && queue == l.accepted[|l.answers|..]
    && (forall i :: 0 <= i < |l.incoming| ==> l.answers[i] == Some(l.incoming[i]))
    && (forall i :: |l.incoming| <= i < |l.answers| ==> l.answers[i] == None)
    && (|l.incoming| < |l.answers| ==> draining)
  }

  ghost predicate Sound(l: Ledger, queue: seq<Callback>, draining: bool) {
    Settled(l, queue, draining) && l.calls == CallsOf(l.accepted, l.answers)
  }

  /** The last answer is recorded but its callback has not been called yet. */
  ghost predicate Owing(l: Ledger, queue: seq<Callback>, draining: bool, cb: Callback, reply: Option<Reply>) {
    && Settled(l, queue, draining)
    && l.answers != []
    && l.answers[|l.answers| - 1] == reply
    && l.accepted[|l.answers| - 1] == cb
    && l.calls == CallsOf(l.accepted, l.answers[..|l.answers| - 1])
  }

  ghost function Accept(l: Ledger, cb: Callback): Ledger {
    l.(accepted := l.accepted + [cb])
  }

  ghost function Answer(l: Ledger, reply: Option<Reply>): Ledger {
    l.(answers := l.answers + [reply], incoming := if reply == None then l.incoming else l.incoming + [reply.value])
  }

  lemma {:induction false} CallsOfMore(accepted: seq<Callback>, cb: Callback, answers: seq<Option<Reply>>)
    requires |answers| <= |accepted|
    ensures CallsOf(accepted + [cb], answers) == CallsOf(accepted, answers)
    decreases |answers|
  {
    if answers == [] {
    } else {
      CallsOfMore(accepted, cb, answers[..|answers| - 1]);
    }
  }

  lemma AcceptSound(l: Ledger, queue: seq<Callback>, cb: Callback)
    requires Sound(l, queue, false)
    ensures Sound(Accept(l, cb), queue + [cb], false)
  {
    CallsOfMore(l.accepted, cb, l.answers);
  }

  lemma AnswerOwes(l: Ledger, queue: seq<Callback>, draining: bool, reply: Option<Reply>)
    requires Sound(l, queue, draining) && queue != []
    requires draining == (reply == None)
    ensures Owing(Answer(l, reply), queue[1..], draining, queue[0], reply)
  {
    var m := Answer(l, reply);
    assert m.answers[..|m.answers| - 1] == l.answers;
  }

  /** How many of the commands came with a function. */
  ghost function Rank(accepted: seq<Callback>): nat {
    if accepted == [] then 0
    else Rank(accepted[..|accepted| - 1]) + if accepted[|accepted| - 1].fn then 1 else 0
  }

  lemma {:induction false} CallAt(accepted: seq<Callback>, answers: seq<Option<Reply>>, i: nat)
    requires i <= |answers| <= |accepted|
    ensures |CallsOf(accepted, answers)| == Rank(accepted[..|answers|])
    ensures i < |answers| && accepted[i].fn ==>
      && Rank(accepted[..i]) < |CallsOf(accepted, answers)|
      && CallsOf(accepted, answers)[Rank(accepted[..i])] == Call(accepted[i].privdata, answers[i])
    decreases |answers|
  {
    if answers == [] {
    } else {
      var n := |answers| - 1;
      CallAt(accepted, answers[..n], if i < n then i else n);
      assert accepted[..n + 1][..n] == accepted[..n];
    }
  }

  /**
   * Once nothing is queued, every accepted command has been answered exactly once, in order: the i-th by the i-th
   * reply as far as replies came, the leftovers by NULL.
   */
  lemma ExactlyOnce(l: Ledger, draining: bool)
    requires Sound(l, [], draining)
    ensures |l.answers| == |l.accepted| && |l.calls| == Rank(l.accepted)
    ensures forall i :: 0 <= i < |l.accepted| && l.accepted[i].fn ==>
      && Rank(l.accepted[..i]) < |l.calls|
      && l.calls[Rank(l.accepted[..i])]
         == Call(l.accepted[i].privdata, if i < |l.incoming| then Some(l.incoming[i]) else None)
  {
    assert l.accepted[..|l.accepted|] == l.accepted;
    CallAt(l.accepted, l.answers, 0);
    forall i: nat | i < |l.accepted| && l.accepted[i].fn
      ensures Rank(l.accepted[..i]) < |l.calls|
      ensures l.calls[Rank(l.accepted[..i])]
           == Call(l.accepted[i].privdata, if i < |l.incoming| then Some(l.incoming[i]) else None)
    {
      CallAt(l.accepted, l.answers, i);
    }
  }

  // ---------------------------------------------------------------- the callback list

  class Node {
    const cb: Callback
    var next: Node?

    constructor (cb: Callback)
      ensures this.cb == cb && next == null
    {
      this.cb, next := cb, null;
    }
  }

  ghost function Callbacks(nodes: seq<Node>): (c: seq<Callback>)
    ensures |c| == |nodes| && forall i :: 0 <= i < |c| ==> c[i] == nodes[i].cb
  {
    seq(|nodes|, i requires 0 <= i < |nodes| => nodes[i].cb)
  }

  class CallbackList {
    var head: Node?
    var tail: Node?
    ghost var nodes: seq<Node>
    /** Every node that was ever in the list. */
    ghost var cells: set<Node>

    ghost predicate Valid()
      reads this, cells
    {
      && (forall i :: 0 <= i < |nodes| ==> nodes[i] in cells)
      && head == (if nodes == [] then null else nodes[0])
      && tail == (if nodes == [] then null else nodes[|nodes| - 1])
      && (forall i :: 0 <= i < |nodes| - 1 ==> nodes[i].next == nodes[i + 1])
      && (nodes != [] ==> nodes[|nodes| - 1].next == null)
      && (forall i, j :: 0 <= i < j < |nodes| ==> nodes[i] != nodes[j])
    }

    ghost function Contents(): (c: seq<Callback>)
      reads this
      ensures |c| == |nodes|
    {
      Callbacks(nodes)
    }

    constructor ()
      ensures Valid() && nodes == [] && cells == {}
    {
      head, tail, nodes, cells := null, null, [], {};
    }

    lemma HeadNull()
      requires Valid()
      ensures head == null <==> nodes == []
    {
    }

    /** __redisPushCallback */
    method Push(source: Callback)
      requires Valid()
      modifies this, cells
      ensures Valid() && Contents() == old(Contents()) + [source]
      ensures fresh(cells - old(cells))
    {
      var cb := new Node(source);
      if head == null {
        head := cb;
      }
      if tail != null {
        tail.next := cb;
      }
      tail := cb;
      nodes, cells := nodes + [cb], cells + {cb};
      assert Contents() == old(Contents()) + [source];
    }

    /** __redisShiftCallback; None for REDIS_ERR. */
    method Shift() returns (target: Option<Callback>)
      requires Valid()
      modifies `head, `tail, `nodes
      ensures Valid()
      ensures old(nodes) == [] ==> target == None && nodes == []
      ensures old(nodes) != [] ==> target == Some(old(Contents()[0])) && nodes == old(nodes)[1..]
      ensures old(nodes) != [] ==> Contents() == old(Contents())[1..]
    {
      var cb := head;
      if cb == null {
        return None;
      }
      head := cb.next;
      if cb == tail {
        tail := null;
      }
      nodes := nodes[1..];
      assert Contents() == old(Contents())[1..];
      return Some(cb.cb);
    }
  }

  lemma DrainSound(l: Ledger, queue: seq<Callback>)
    requires Sound(l, queue, false)
    ensures Sound(l, queue, true)
  {
  }

  lemma CallSound(l: Ledger, queue: seq<Callback>, draining: bool, cb: Callback, reply: Option<Reply>)
    requires Owing(l, queue, draining, cb, reply)
    ensures Sound(if cb.fn then l.(calls := l.calls + [Call(cb.privdata, reply)]) else l, queue, draining)
  {
  }

  lemma Balanced(l: Ledger, queue: seq<Callback>)
    requires Sound(l, queue, false)
    ensures |l.incoming| == |l.answers| && |l.accepted| == |l.answers| + |queue|
  {
  }

  /** What the user's callbacks do: any script, chosen from the callback, its reply and the number of calls so far. */
  type Behaviour = (Callback, Option<Reply>, nat) -> seq<Action>

  /** What the callback of a reply brings about. */
  ghost function Response(behave: Behaviour, cb: Callback, reply: Reply, turn: nat, disconnecting: bool, freeing: bool)
    : (seq<Callback>, bool, bool, nat)
  {
    Effect(if cb.fn then behave(cb, Some(reply), turn) else [], disconnecting, freeing)
  }

  lemma NoScript(disconnecting: bool, freeing: bool)
    ensures Effect([], disconnecting, freeing) == ([], disconnecting, freeing, 0)
  {
  }

  // ---------------------------------------------------------------- the context

  class AsyncContext {
    const behave: Behaviour
    const replies: CallbackList
    var disconnecting: bool
    var freeing: bool
    var inCallback: bool
    var err: bool
    /** Bytes waiting in the output buffer. */
    var obuf: nat
    /** How often the context has been released. */
    var freed: nat
    /** The process stopped at the assertion that a reply without a callback is a subscription's. */
    var halted: bool
    /** Number of callbacks run so far; with it a script may depend on the whole past. */
    var turn: nat
    ghost var book: Ledger
    ghost var draining: bool

    ghost predicate Closing()
      reads this
    {
      disconnecting || freeing
    }

    /** What entitles the context to answer commands with NULL. */
    ghost predicate Doomed()
      reads this
    {
      freeing || (err && disconnecting)
    }

    ghost function Queue(): seq<Callback>
      reads this, replies
    {
      replies.Contents()
    }

    ghost predicate Valid()
      reads this, replies, replies.cells
    {
      && replies.Valid()
      && Sound(book, Queue(), draining)
      && freed <= 1
      && (freed == 1 ==> Queue() == [] && draining)
      && (draining ==> Closing() || freed == 1)
      && (|book.incoming| < |book.answers| ==> Doomed())
    }

    /** No callback is running, and the context is neither being released nor gone. */
    ghost predicate Idle()
      reads this, replies, replies.cells
    {
      Valid() && !inCallback && !halted && !draining && freed == 0
    }

    /** redisAsyncInitialize */
    constructor (behave: Behaviour)
      ensures Idle() && fresh(replies) && replies.cells == {} && book == Ledger([], [], [], [])
      ensures Queue() == [] && !Closing() && !err && obuf == turn == 0 && this.behave == behave
    {
      this.behave := behave;
      disconnecting, freeing, inCallback, err := false, false, false, false;
      obuf, freed, halted, turn := 0, 0, false, 0;
      replies := new CallbackList();
      book, draining := Ledger([], [], [], []), false;
    }

    /** __redisAsyncCommand, for commands other than SUBSCRIBE, UNSUBSCRIBE and MONITOR. */
    method Command(fn: bool, privdata: nat, len: nat) returns (ok: bool)
      requires Valid() && freed == 0
      modifies `book, `obuf, replies, replies.cells
      ensures Valid() && ok == !Closing()
      ensures book == if ok then Accept(old(book), Callback(fn, privdata)) else old(book)
      ensures Queue() == if ok then old(Queue()) + [Callback(fn, privdata)] else old(Queue())
      ensures obuf == old(obuf) + if ok then len else 0
      ensures !ok ==> replies.nodes == old(replies.nodes)
      ensures fresh(replies.cells - old(replies.cells))
    {
      hide Sound;
      if disconnecting || freeing {
        return false;
      }
      assert !draining;
      AcceptSound(book, Queue(), Callback(fn, privdata));
      replies.Push(Callback(fn, privdata));
      book := Accept(book, Callback(fn, privdata));
      obuf := obuf + len;
      return true;
    }

    /** redisAsyncDisconnect */
    method Disconnect()
      requires Valid() && freed == 0 && !halted && (draining ==> inCallback)
      modifies this, replies, replies.cells
      ensures Valid() && disconnecting && !halted && freeing == old(freeing) && inCallback == old(inCallback)
      ensures freed == if old(inCallback) || old(Queue()) != [] then 0 else 1
      ensures book == old(book) && replies.nodes == old(replies.nodes) && err == old(err)
      ensures freed == 0 ==> draining == old(draining) && obuf == old(obuf) && turn == old(turn)
      ensures fresh(replies.cells - old(replies.cells))
      decreases if inCallback then 0 else 1, 5
    {
      hide Sound;
      disconnecting := true;
      if !inCallback && replies.head == null {
        AsyncDisconnect();
      }
    }

    /** redisAsyncFree */
    method Free()
      requires Valid() && freed == 0 && !halted && (draining ==> inCallback)
      modifies this, replies, replies.cells
      ensures Valid() && freeing && !halted && inCallback == old(inCallback)
      ensures freed == if old(inCallback) then 0 else 1
      ensures book.accepted == old(book).accepted && book.incoming == old(book).incoming
      ensures old(inCallback) ==>
        book == old(book) && replies.nodes == old(replies.nodes) && disconnecting == old(disconnecting)
      ensures old(inCallback) ==> obuf == old(obuf) && err == old(err) && draining == old(draining) && turn == old(turn)
      ensures fresh(replies.cells - old(replies.cells))
      decreases if inCallback then 0 else 1, 5
    {
      hide Sound;
      freeing := true;
      if !inCallback {
        AsyncFree();
      }
    }

    /** __redisAsyncDisconnect. Its `assert(ret == REDIS_ERR)` is the assertion below. */
    method AsyncDisconnect()
      requires Idle() && (err || Queue() == [])
      modifies this, replies, replies.cells
      ensures Valid() && freed == 1 && !inCallback && !halted && err == old(err)
      ensures old(disconnecting) ==> disconnecting
      ensures old(Queue()) == [] ==> book == old(book) && replies.nodes == old(replies.nodes) && freeing == old(freeing)
      ensures old(Queue()) == [] ==> obuf == old(obuf)
      ensures book.accepted == old(book).accepted && book.incoming == old(book).incoming
      ensures fresh(replies.cells - old(replies.cells))
      decreases 1, 4
    {
      hide Sound;
      if !err {
        var ret := replies.Shift();
        assert ret == None;
      } else {
        disconnecting := true;
      }
      AsyncFree();
    }

    /** __redisAsyncFree: what is left in the queue is called with NULL, then the context is released. */
    method AsyncFree()
      requires Idle() && (Doomed() || Queue() == [])
      modifies this, replies, replies.cells
      ensures Valid() && freed == 1 && !inCallback && !halted && err == old(err)
      ensures book.accepted == old(book).accepted && book.incoming == old(book).incoming
      ensures old(Queue()) == [] ==> book == old(book) && replies.nodes == old(replies.nodes) && freeing == old(freeing)
      ensures old(Queue()) == [] ==> obuf == old(obuf)
      ensures old(disconnecting) ==> disconnecting
      ensures old(freeing) ==> freeing
      ensures fresh(replies.cells - old(replies.cells))
      decreases 1, 3
    {
      hide Sound, CallbackList.Valid;
      DrainSound(book, Queue());
      draining := true;
      var more := true;
      while more
        invariant Draining() && (Doomed() || Queue() == []) && err == old(err)
        invariant more || Queue() == []
        invariant book.accepted == old(book).accepted && book.incoming == old(book).incoming
        invariant old(Queue()) == [] ==> book == old(book) && replies.nodes == [] && freeing == old(freeing)
        invariant old(Queue()) == [] ==> obuf == old(obuf)
        invariant old(disconnecting) ==> disconnecting
        invariant old(freeing) ==> freeing
        invariant fresh(replies.cells - old(replies.cells))
        decreases |replies.nodes|, more
      {
        more := DrainOne();
      }
      freed := freed + 1;
    }

    ghost predicate Draining()
      reads this, replies, replies.cells
    {
      && replies.Valid() && Sound(book, Queue(), true) && draining && freed == 0 && !inCallback && !halted
      && (|book.incoming| < |book.answers| ==> Doomed())
    }

    method DrainOne() returns (more: bool)
      requires Draining() && (Doomed() || Queue() == [])
      modifies this, replies, replies.cells
      ensures Draining() && (Doomed() || Queue() == []) && err == old(err)
      ensures book.accepted == old(book).accepted && book.incoming == old(book).incoming
      ensures if more then |replies.nodes| < |old(replies.nodes)| else book == old(book) && Queue() == []
      ensures old(Queue()) == [] ==> !more && book == old(book) && replies.nodes == [] && freeing == old(freeing)
      ensures old(Queue()) == [] ==> obuf == old(obuf)
      ensures old(disconnecting) ==> disconnecting
      ensures old(freeing) ==> freeing
      ensures fresh(replies.cells - old(replies.cells))
      decreases 1, 2, 1
    {
      hide Sound, Owing, CallbackList.Valid, Effect;
      ghost var queue := Queue();
      var cb := replies.Shift();
      if cb == None {
        return false;
      }
      AnswerOwes(book, queue, true, None);
      book := Answer(book, None);
      RunCallback(cb.value, None);
      return true;
    }

    /** __redisRunCallback */
    method RunCallback(cb: Callback, reply: Option<Reply>)
      requires replies.Valid() && Owing(book, Queue(), draining, cb, reply) && (draining ==> Closing())
      requires |book.incoming| < |book.answers| ==> Doomed()
      requires !inCallback && freed == 0 && !halted
      modifies this, replies, replies.cells
      ensures Valid() && !inCallback && freed == 0 && !halted && draining == old(draining) && err == old(err)
      ensures book.answers == old(book).answers && book.incoming == old(book).incoming
      ensures old(Closing()) ==> book.accepted == old(book).accepted && replies.nodes == old(replies.nodes)
      ensures var script := if cb.fn then behave(cb, reply, old(turn)) else [];
        var e := Effect(script, old(disconnecting), old(freeing));
        && book.accepted == old(book).accepted + e.0 && disconnecting == e.1 && freeing == e.2
        && obuf == old(obuf) + e.3 && turn == old(turn) + if cb.fn then 1 else 0
      ensures fresh(replies.cells - old(replies.cells))
      decreases 1, 2, 0
    {
      hide Sound, Owing, CallbackList.Valid;
      CallSound(book, Queue(), draining, cb, reply);
      if cb.fn {
        inCallback := true;
        Invoke(cb, reply);
        inCallback := false;
      }
    }

    /** One call into the context from a running callback. */
    method Perform(a: Action)
      requires Valid() && inCallback && freed == 0 && !halted
      modifies this, replies, replies.cells
      ensures Valid() && inCallback && freed == 0 && !halted && draining == old(draining) && err == old(err)
      ensures book == if a.Command? && !old(Closing()) then Accept(old(book), Callback(a.fn, a.privdata)) else old(book)
      ensures disconnecting == (old(disconnecting) || a.Disconnect?) && freeing == (old(freeing) || a.Free?)
      ensures turn == old(turn) && obuf == old(obuf) + if a.Command? && !old(Closing()) then a.len else 0
      ensures old(Closing()) ==> replies.nodes == old(replies.nodes)
      ensures fresh(replies.cells - old(replies.cells))
      decreases 0, 6
    {
      hide Sound;
      match a
      case Command(fn, privdata, len) =>
        var ok := Command(fn, privdata, len);
      case Disconnect =>
        Disconnect();
      case Free =>
        Free();
    }

    /** The user's function: any sequence of calls back into the context. */
    method Invoke(cb: Callback, reply: Option<Reply>)
      requires replies.Valid() && Owing(book, Queue(), draining, cb, reply) && (draining ==> Closing())
      requires |book.incoming| < |book.answers| ==> Doomed()
      requires inCallback && freed == 0 && !halted && cb.fn
      modifies this, replies, replies.cells
      ensures Valid() && inCallback && freed == 0 && !halted && draining == old(draining) && err == old(err)
      ensures book.answers == old(book).answers && book.incoming == old(book).incoming
      ensures old(Closing()) ==> book.accepted == old(book).accepted && replies.nodes == old(replies.nodes)
      ensures var e := Effect(behave(cb, reply, old(turn)), old(disconnecting), old(freeing));
        && book.accepted == old(book).accepted + e.0 && disconnecting == e.1 && freeing == e.2
        && obuf == old(obuf) + e.3 && turn == old(turn) + 1
      ensures fresh(replies.cells - old(replies.cells))
      decreases 0, 8
    {
      hide Sound, Owing, CallbackList.Valid;
      CallSound(book, Queue(), draining, cb, reply);
      book := book.(calls := book.calls + [Call(cb.privdata, reply)]);
      var script := behave(cb, reply, turn);
      turn := turn + 1;
      RunScript(script);
    }

    method RunScript(script: seq<Action>)
      requires Valid() && inCallback && freed == 0 && !halted
      modifies this, replies, replies.cells
      ensures Valid() && inCallback && freed == 0 && !halted && draining == old(draining) && err == old(err)
      ensures book.answers == old(book).answers && book.incoming == old(book).incoming
      ensures old(Closing()) ==> book.accepted == old(book).accepted && replies.nodes == old(replies.nodes)
      ensures var e := Effect(script, old(disconnecting), old(freeing));
        && book.accepted == old(book).accepted + e.0 && disconnecting == e.1 && freeing == e.2
        && obuf == old(obuf) + e.3 && turn == old(turn)
      ensures fresh(replies.cells - old(replies.cells))
      decreases 0, 7, |script|
    {
      hide Sound;
      if script != [] {
        Perform(script[0]);
        RunScript(script[1..]);
      }
    }

    /** A reply goes to the callback that was queued first; a free during the callback is carried out after it. */
    method Deliver(cb: Callback, reply: Reply) returns (stop: bool)
      requires replies.Valid() && Owing(book, Queue(), false, cb, Some(reply)) && |book.incoming| == |book.answers|
      requires !draining && !inCallback && freed == 0 && !halted
      modifies this, replies, replies.cells
      ensures Valid() && !inCallback && !halted && (if stop then freed == 1 && freeing else Idle())
      ensures book.incoming == old(book).incoming
      ensures var e := Response(behave, cb, reply, old(turn), old(disconnecting), old(freeing));
        && book.accepted == old(book).accepted + e.0 && stop == (cb.fn && e.2)
        && (!stop ==> disconnecting == e.1 && freeing == e.2 && obuf == old(obuf) + e.3)
        && (!stop ==> turn == old(turn) + if cb.fn then 1 else 0)
      ensures err == old(err)
      ensures fresh(replies.cells - old(replies.cells))
    {
      hide Sound, Owing, CallbackList.Valid, Effect;
      if cb.fn {
        RunCallback(cb, Some(reply));
        if freeing {
          AsyncFree();
          return true;
        }
      } else {
        CallSound(book, Queue(), draining, cb, Some(reply));
        NoScript(disconnecting, freeing);
        assert book.accepted + [] == book.accepted;
      }
      return false;
    }

    /** One turn of redisProcessCallbacks' loop, on a reply the reader has produced. */
    method HandleReply(reply: Reply) returns (stop: bool)
      requires Idle()
      modifies this, replies, replies.cells
      ensures Valid() && !inCallback && (if stop then halted != (freed == 1) else Idle())
      ensures old(Queue()) != [] ==> !halted && book.incoming == old(book).incoming + [reply]
      ensures old(Queue()) != [] ==>
        var cb := old(Queue())[0];
        var e := Response(behave, cb, reply, old(turn), old(disconnecting), old(freeing));
        && book.accepted == old(book).accepted + e.0 && stop == (cb.fn && e.2)
        && (!stop ==> disconnecting == e.1 && freeing == e.2 && obuf == old(obuf) + e.3)
        && (!stop ==> turn == old(turn) + if cb.fn then 1 else 0)
      ensures old(Queue()) == [] ==> stop && book == old(book) && halted == !reply.Error?
      ensures err == (old(err) || (old(Queue()) == [] && reply.Error?))
      ensures freed == 1 ==> err || freeing
      ensures fresh(replies.cells - old(replies.cells))
    {
      hide Sound, Owing, CallbackList.Valid, Effect, Response;
      ghost var queue := Queue();
      var cb := replies.Shift();
      if cb == None {
        if reply.Error? {
          err := true;
          AsyncDisconnect();
        } else {
          halted := true;
        }
        return true;
      }
      Balanced(book, queue);
      AnswerOwes(book, queue, false, Some(reply));
      book := Answer(book, Some(reply));
      stop := Deliver(cb.value, reply);
    }

    /** The state in which a method hands the context back: idle, released once, or stopped by the assertion. */
    ghost predicate Handed()
      reads this, replies, replies.cells
    {
      Valid() && !inCallback && (Idle() || halted != (freed == 1))
    }
  }
}
