/** The asynchronous client as a whole: the context of async.c on top of the reader of read.c. */
module Client {
  import opened Bytes
  import opened Resp
  import opened ReplyTree
  import opened Reader
  import opened Async

  /** The reply a finished tree stands for. */
  function Value(n: ReplyTree.Node): Reply {
    match n
    case Hole => Reply.Nil
    case Leaf(r) => r
    case Arr(slots) => Array(seq(|slots|, i requires 0 <= i < |slots| => Value(slots[i])))
  }

  lemma {:induction false} ValueOfRep(r: Reply)
    ensures Value(Rep(r)) == r
    decreases r
  {
    if !r.Array? {
    } else {
      forall i | 0 <= i < |r.items|
        ensures Value(Rep(r)).items[i] == r.items[i]
      {
        ValueOfRep(r.items[i]);
      }
      assert Value(Rep(r)).items == r.items;
    }
  }

  /** What happens to an idle context: a call by the user, or the event loop finding the socket readable or writable. */
  datatype Event =
    | Api(action: Action)
    | Readable(chunk: seq<Byte>, avail: nat)
    | ReadFails
    | Writable(sent: nat)
    | WriteFails

  function Arrived(e: Event): seq<Byte> {
    if e.Readable? then e.chunk else []
  }

  /** All bytes that arrive. */
  ghost function Stream(events: seq<Event>): seq<Byte> {
    if events == [] then [] else Arrived(events[0]) + Stream(events[1..])
  }

  // ---------------------------------------------------------------- the client as a function of its events

  /** A client between events; `asked` lists the commands it was given, refused ones included. */
  datatype State = State(accepted: seq<Callback>, asked: seq<Callback>, incoming: seq<Reply>,
                         disconnecting: bool, freeing: bool, obuf: nat, turn: nat, pending: seq<Byte>)
  {
    /** The commands that still wait for their replies. */
    function Queue(): seq<Callback> {
      if |incoming| <= |accepted| then accepted[|incoming|..] else []
    }

    predicate Closing() {
      disconnecting || freeing
    }
  }

  const START := State([], [], [], false, false, 0, 0, [])

  /** A life goes on, or the context was released, or the process stopped at a reply nobody asked for. */
  datatype Life = Open(s: State) | Released(s: State) | Stopped(s: State)

  /** A reply goes to the command that has waited longest. */
  ghost function TakeReply(behave: Behaviour, s: State, r: Reply): (l: Life)
    ensures l.s.pending == s.pending
  {
    if s.Queue() == [] then (if r.Error? then Released(s) else Stopped(s))
    else
      var cb := s.Queue()[0];
      var script := if cb.fn then behave(cb, Some(r), s.turn) else [];
      var e := Response(behave, cb, r, s.turn, s.disconnecting, s.freeing);
      var t := State(s.accepted + e.0, s.asked + Commands(script), s.incoming + [r], e.1, e.2, s.obuf + e.3,
                     s.turn + if cb.fn then 1 else 0, s.pending);
      if cb.fn && e.2 then Released(t) else Open(t)
  }

  /** All complete replies among the pending bytes are taken; then a disconnecting client with nothing to do leaves. */
  ghost function TakeReplies(behave: Behaviour, s: State): (l: Life)
    decreases |s.pending|
  {
    match ParseReply(s.pending, 0)
    case More => if s.disconnecting && s.obuf == 0 && s.Queue() == [] then Released(s) else Open(s)
    case Bad(_) => Released(s)
    case Done(r, rest) =>
      var l := TakeReply(behave, s.(pending := rest), r);
      if l.Open? then TakeReplies(behave, l.s) else l
  }

  ghost function After(behave: Behaviour, s: State, e: Event): Life {
    match e
    case Api(Command(fn, privdata, len)) =>
      var cb := Callback(fn, privdata);
      var t := s.(asked := s.asked + [cb]);
      Open(if s.Closing() then t else t.(accepted := s.accepted + [cb], obuf := s.obuf + len))
    case Api(Disconnect) =>
      var t := s.(disconnecting := true);
      if s.Queue() == [] then Released(t) else Open(t)
    case Api(Free) => Released(s.(freeing := true))
    case Readable(chunk, _) => TakeReplies(behave, s.(pending := s.pending + chunk))
    case Writable(sent) => Open(s.(obuf := if sent < s.obuf then s.obuf - sent else 0))
    case _ => Released(s)
  }

  ghost function AfterAll(behave: Behaviour, s: State, events: seq<Event>): Life
    decreases |events|
  {
    if events == [] then Open(s)
    else
      var l := After(behave, s, events[0]);
      if l.Open? then AfterAll(behave, l.s, events[1..]) else l
  }

  /** A life takes its events one by one, and after its end nothing happens any more. */
  lemma {:induction false} LifeAt(behave: Behaviour, s: State, events: seq<Event>, i: nat)
    requires i < |events|
    ensures var before, after := AfterAll(behave, s, events[..i]), AfterAll(behave, s, events[..i + 1]);
      after == if before.Open? then After(behave, before.s, events[i]) else before
    ensures AfterAll(behave, s, []) == Open(s) && AfterAll(behave, s, events[..|events|]) == AfterAll(behave, s, events)
    decreases |events|
  {
    hide After;
    assert events[..|events|] == events;
    if i == 0 {
      assert events[..i] == [] && events[..i + 1] == [events[0]];
    } else {
      var l := After(behave, s, events[0]);
      assert events[..i][1..] == events[1..][..i - 1] && events[..i + 1][1..] == events[1..][..i];
      if l.Open? {
        LifeAt(behave, l.s, events[1..], i - 1);
      }
    }
  }

  // ---------------------------------------------------------------- which commands are accepted

  /** The accepted commands are the first ones asked for: all of them, until closing begins. */
  ghost predicate Fair(s: State) {
    |s.incoming| <= |s.accepted| && s.accepted <= s.asked && (!s.Closing() ==> s.accepted == s.asked)
  }

  /** `t` comes after `s` in a life: nothing is taken back, and once closing has begun nothing is accepted. */
  ghost predicate Later(s: State, t: State) {
    && s.accepted <= t.accepted && s.asked <= t.asked && s.incoming <= t.incoming
    && (s.Closing() ==> t.Closing() && t.accepted == s.accepted)
    && (Fair(s) ==> Fair(t))
  }

  lemma LaterStill(s: State, t: State, u: State)
    requires Later(s, t) && Later(t, u)
    ensures Later(s, u)
  {
    hide Fair;
  }

  lemma ReplyLater(behave: Behaviour, s: State, r: Reply)
    ensures Later(s, TakeReply(behave, s, r).s)
  {
    hide Effect, Commands;
    if s.Queue() != [] {
      var cb := s.Queue()[0];
      var script := if cb.fn then behave(cb, Some(r), s.turn) else [];
      if s.Closing() {
        assert s.accepted + [] == s.accepted;
      } else {
        EffectPrefix(script);
      }
    }
  }

  lemma {:induction false} RepliesLater(behave: Behaviour, s: State)
    ensures Later(s, TakeReplies(behave, s).s)
    decreases |s.pending|
  {
    hide TakeReply;
    match ParseReply(s.pending, 0)
    case More =>
    case Bad(_) =>
    case Done(r, rest) =>
      var s' := s.(pending := rest);
      var l := TakeReply(behave, s', r);
      ReplyLater(behave, s', r);
      if l.Open? {
        RepliesLater(behave, l.s);
        LaterStill(s', l.s, TakeReplies(behave, l.s).s);
      }
  }

  lemma EventLater(behave: Behaviour, s: State, e: Event)
    ensures Later(s, After(behave, s, e).s)
  {
    hide TakeReplies;
    if e.Readable? {
      RepliesLater(behave, s.(pending := s.pending + e.chunk));
    }
  }

  lemma {:induction false} LifeLater(behave: Behaviour, s: State, events: seq<Event>)
    ensures Later(s, AfterAll(behave, s, events).s)
    decreases |events|
  {
    hide After;
    if events == [] {
    } else {
      var l := After(behave, s, events[0]);
      EventLater(behave, s, events[0]);
      if l.Open? {
        LifeLater(behave, l.s, events[1..]);
        LaterStill(s, l.s, AfterAll(behave, l.s, events[1..]).s);
      }
    }
  }

  // ---------------------------------------------------------------- when a life ends

  /** An error reply that stands at place i of the pending bytes, with `rest` behind it. */
  ghost predicate ErrorAt(pending: seq<Byte>, i: nat, rest: seq<Byte>) {
    i <= |pending| && var p := ParseReply(pending[i..], 0); p.Done? && p.value.Error? && p.rest == rest
  }

  /** What ends a life among the replies: a protocol error, a free by a callback, an error reply that no command is
      waiting for, or a disconnect with everything answered and sent. */
  ghost predicate Ends(pending: seq<Byte>, t: State) {
    || ParseReply(t.pending, 0).Bad?
    || t.freeing
    || (t.Queue() == [] && exists i: nat :: ErrorAt(pending, i, t.pending))
    || (ParseReply(t.pending, 0) == More && t.disconnecting && t.obuf == 0 && t.Queue() == [])
  }

  lemma ErrorFurtherOn(pending: seq<Byte>, i: nat, t: State)
    requires i <= |pending| && Ends(pending[i..], t)
    ensures Ends(pending, t)
  {
    if j: nat :| ErrorAt(pending[i..], j, t.pending) {
      assert pending[i..][j..] == pending[i + j..];
      assert ErrorAt(pending, i + j, t.pending);
    }
  }

  /** The loop over the replies leaves the life open exactly when nothing ends it. */
  lemma {:induction false} RepliesEnd(behave: Behaviour, s: State)
    ensures var l := TakeReplies(behave, s);
      && (l.Open? ==>
            ParseReply(l.s.pending, 0) == More && !(l.s.disconnecting && l.s.obuf == 0 && l.s.Queue() == []))
      && (l.Released? ==> Ends(s.pending, l.s))
    decreases |s.pending|
  {
    hide ParseReply, Response, Commands;
    match ParseReply(s.pending, 0)
    case More =>
    case Bad(_) =>
    case Done(r, rest) =>
      RestIsSuffix(s.pending, 0);
      var l := TakeReply(behave, s.(pending := rest), r);
      if l.Open? {
        RepliesEnd(behave, l.s);
        if TakeReplies(behave, l.s).Released? {
          ErrorFurtherOn(s.pending, |s.pending| - |rest|, TakeReplies(behave, l.s).s);
        }
      } else if l.Released? && s.Queue() == [] {
        assert s.pending[0..] == s.pending;
        assert ErrorAt(s.pending, 0, rest);
      }
  }

  /** The commands of the user's own calls. */
  ghost function UserCommands(events: seq<Event>): seq<Callback> {
    if events == [] then []
    else
      var e := events[0];
      (if e.Api? && e.action.Command? then [Callback(e.action.fn, e.action.privdata)] else [])
      + UserCommands(events[1..])
  }

  /** Callbacks that issue no commands. */
  ghost predicate Passive(behave: Behaviour) {
    forall cb, r, n :: Commands(behave(cb, r, n)) == []
  }

  lemma UserCommandsNext(events: seq<Event>)
    ensures events == [] ==> UserCommands(events) == []
    ensures events != [] ==> UserCommands(events) == UserCommands([events[0]]) + UserCommands(events[1..])
  {
    if events != [] {
      assert [events[0]][0] == events[0] && UserCommands([events[0]][1..]) == [];
    }
  }

  lemma {:induction false} QuietReplies(behave: Behaviour, s: State)
    requires Passive(behave)
    ensures TakeReplies(behave, s).s.asked == s.asked
    decreases |s.pending|
  {
    hide ParseReply, Response;
    match ParseReply(s.pending, 0)
    case More =>
    case Bad(_) =>
    case Done(r, rest) =>
      var s' := s.(pending := rest);
      var l := TakeReply(behave, s', r);
      if s.Queue() != [] {
        var cb := s'.Queue()[0];
        assert Commands(if cb.fn then behave(cb, Some(r), s.turn) else []) == [];
        assert l.s.asked == s.asked + [];
      }
      if l.Open? {
        QuietReplies(behave, l.s);
      }
  }

  lemma QuietEvent(behave: Behaviour, s: State, e: Event)
    requires Passive(behave)
    ensures After(behave, s, e).s.asked == s.asked + UserCommands([e])
  {
    hide TakeReplies, Commands;
    assert [e][0] == e && UserCommands([e][1..]) == [];
    if e.Readable? {
      QuietReplies(behave, s.(pending := s.pending + e.chunk));
    }
  }

  /** With callbacks that issue no commands, the commands asked for are those of the user, each once and in order. */
  lemma {:induction false} AllAsked(behave: Behaviour, s: State, events: seq<Event>)
    requires Passive(behave)
    requires AfterAll(behave, s, events).Open?
    ensures AfterAll(behave, s, events).s.asked == s.asked + UserCommands(events)
    decreases |events|
  {
    hide After, Passive, UserCommands;
    UserCommandsNext(events);
    if events == [] {
      assert s.asked + [] == s.asked;
    } else {
      var l := After(behave, s, events[0]);
      QuietEvent(behave, s, events[0]);
      AllAsked(behave, l.s, events[1..]);
    }
  }

  // ---------------------------------------------------------------- the stream

  /** The parse of the whole stream is the replies taken so far, then the parse of what is pending and to come. */
  ghost predicate OnWire(whole: (seq<Reply>, Option<ErrorKind>), taken: seq<Reply>, ahead: seq<Byte>) {
    whole == (taken + ParseAll(ahead).0, ParseAll(ahead).1)
  }

  /** What one call of GetReply finds in the pending bytes, it finds in the stream. */
  lemma Found(whole: (seq<Reply>, Option<ErrorKind>), taken: seq<Reply>, pending: seq<Byte>, future: seq<Byte>)
    requires OnWire(whole, taken, pending + future)
    ensures match ParseReply(pending, 0)
      case More => true
      case Bad(e) => whole == (taken, Some(e))
      case Done(r, rest) =>
        && OnWire(whole, taken + [r], rest + future)
        && |taken| < |whole.0| && whole.0[|taken|] == r && taken + [r] <= whole.0
    ensures taken <= whole.0
  {
    hide ParseReply, ParseAll;
    ReplyExtends(pending, 0, future);
    ParseAllStep(taken, pending + future);
  }

  /** What a life has come to, measured by the parse of its whole stream of which `future` has not arrived. */
  ghost predicate Reached(l: Life, whole: (seq<Reply>, Option<ErrorKind>), future: seq<Byte>) {
    match l
    case Open(s) => OnWire(whole, s.incoming, s.pending + future) && ParseReply(s.pending, 0) == More
    case Released(s) => s.incoming <= whole.0
    case Stopped(s) =>
      && s.incoming <= whole.0 && s.Queue() == []
      && |s.incoming| < |whole.0| && !whole.0[|s.incoming|].Error?
  }

  lemma {:induction false} RepliesOnWire(behave: Behaviour, s: State,
                                         whole: (seq<Reply>, Option<ErrorKind>), future: seq<Byte>)
    requires OnWire(whole, s.incoming, s.pending + future)
    ensures Reached(TakeReplies(behave, s), whole, future)
    decreases |s.pending|
  {
    hide ParseReply, OnWire, Response, Commands;
    Found(whole, s.incoming, s.pending, future);
    match ParseReply(s.pending, 0)
    case More =>
    case Bad(_) =>
    case Done(r, rest) =>
      var l := TakeReply(behave, s.(pending := rest), r);
      if l.Open? {
        RepliesOnWire(behave, l.s, whole, future);
      }
  }

  /** The replies a life takes are the first of its stream, in order. */
  lemma {:induction false} LifeOnWire(behave: Behaviour, s: State, events: seq<Event>,
                                      whole: (seq<Reply>, Option<ErrorKind>))
    requires OnWire(whole, s.incoming, s.pending + Stream(events)) && ParseReply(s.pending, 0) == More
    ensures Reached(AfterAll(behave, s, events), whole, [])
    decreases |events|
  {
    hide ParseReply, OnWire, TakeReplies;
    if events == [] {
    } else {
      var e, future := events[0], Stream(events[1..]);
      assert s.pending + (Arrived(e) + future) == s.pending + Arrived(e) + future;
      assert s.pending + [] == s.pending;
      Found(whole, s.incoming, s.pending + Arrived(e), future);
      if e.Readable? {
        RepliesOnWire(behave, s.(pending := s.pending + e.chunk), whole, future);
      }
      var l := After(behave, s, e);
      if l.Open? {
        LifeOnWire(behave, l.s, events[1..], whole);
      }
    }
  }

  lemma PendingPasses(behave: Behaviour, s: State, r: Reply, p: seq<Byte>)
    ensures var l, m := TakeReply(behave, s, r), TakeReply(behave, s.(pending := p), r);
      l.Open? ==> m == Open(l.s.(pending := p))
  {
    hide Response, Commands;
    assert s.(pending := p).Queue() == s.Queue();
  }

  /** A chunk may be cut anywhere, unless the client leaves at the cut. */
  lemma {:induction false} CutsInvisible(behave: Behaviour, s: State, more: seq<Byte>)
    requires TakeReplies(behave, s).Open?
    ensures var t := TakeReplies(behave, s).s;
      TakeReplies(behave, s.(pending := s.pending + more)) == TakeReplies(behave, t.(pending := t.pending + more))
    decreases |s.pending|
  {
    hide TakeReply, ParseReply;
    ReplyExtends(s.pending, 0, more);
    match ParseReply(s.pending, 0)
    case More =>
    case Bad(_) =>
    case Done(r, rest) =>
      var l := TakeReply(behave, s.(pending := rest), r);
      PendingPasses(behave, s.(pending := rest), r, rest + more);
      CutsInvisible(behave, l.s, more);
  }

  lemma ChunksJoin(behave: Behaviour, s: State, c1: seq<Byte>, c2: seq<Byte>, avail: nat, later: seq<Event>)
    requires After(behave, s, Readable(c1, avail)).Open?
    ensures AfterAll(behave, s, [Readable(c1, avail), Readable(c2, avail)] + later)
         == AfterAll(behave, s, [Readable(c1 + c2, avail)] + later)
  {
    hide TakeReplies;
    var two, one := [Readable(c1, avail), Readable(c2, avail)] + later, [Readable(c1 + c2, avail)] + later;
    CutsInvisible(behave, s.(pending := s.pending + c1), c2);
    assert s.pending + c1 + c2 == s.pending + (c1 + c2);
    assert two[1..] == [Readable(c2, avail)] + later && two[1..][1..] == later && one[1..] == later;
  }

  /** Every call made so far carries the answer to its command: the i-th reply of the list, or NULL behind them. */
  ghost predicate InOrder(l: Ledger, replies: seq<Reply>) {
    && |l.incoming| <= |l.answers| <= |l.accepted| && |l.incoming| <= |replies|
    && |l.calls| == Rank(l.accepted[..|l.answers|])
    && forall i :: 0 <= i < |l.answers| && l.accepted[i].fn ==>
         && Rank(l.accepted[..i]) < |l.calls|
         && l.calls[Rank(l.accepted[..i])]
            == Call(l.accepted[i].privdata, if i < |l.incoming| then Some(replies[i]) else None)
  }

  lemma SoundInOrder(l: Ledger, queue: seq<Callback>, draining: bool, replies: seq<Reply>)
    requires Sound(l, queue, draining) && l.incoming <= replies
    ensures InOrder(l, replies)
  {
    CallAt(l.accepted, l.answers, 0);
    forall i: nat | i < |l.answers| && l.accepted[i].fn
      ensures Rank(l.accepted[..i]) < |l.calls|
      ensures l.calls[Rank(l.accepted[..i])]
           == Call(l.accepted[i].privdata, if i < |l.incoming| then Some(replies[i]) else None)
    {
      CallAt(l.accepted, l.answers, i);
    }
  }

  // ---------------------------------------------------------------- the client on the heap

  /** The context and the reader stand where the model does. */
  ghost predicate At(ac: AsyncContext, rd: RedisReader, s: State)
    reads ac, ac.replies, ac.replies.cells, rd, rd.rstack
  {
    && ac.Idle() && rd.Valid() && rd.err == None && rd.Pending() == s.pending
    && ac.book.accepted == s.accepted && ac.book.incoming == s.incoming
    && ac.disconnecting == s.disconnecting && ac.freeing == s.freeing && ac.obuf == s.obuf && ac.turn == s.turn
    && !ac.err
  }

  /** Why a context was released: an error, a free, or a disconnect after every command had got its reply. */
  ghost predicate Warranted(ac: AsyncContext)
    reads ac
  {
    ac.err || ac.freeing || (ac.disconnecting && |ac.book.incoming| == |ac.book.accepted|)
  }

  /** The end of a life: the context is released, or the process stopped at a reply nobody asked for. */
  ghost predicate Over(ac: AsyncContext, l: Life)
    reads ac, ac.replies, ac.replies.cells
  {
    && ac.Handed() && ac.book.accepted == l.s.accepted && ac.book.incoming == l.s.incoming
    && ac.halted == l.Stopped? && (ac.freed == 1) == l.Released? && (l.Released? ==> Warranted(ac))
  }

  ghost predicate Shows(ac: AsyncContext, rd: RedisReader, l: Life)
    reads ac, ac.replies, ac.replies.cells, rd, rd.rstack
  {
    if l.Open? then At(ac, rd, l.s) else Over(ac, l)
  }

  lemma SameQueue(ac: AsyncContext, s: State)
    requires ac.Idle() && ac.book.accepted == s.accepted && ac.book.incoming == s.incoming
    ensures ac.Queue() == s.Queue()
  {
    Balanced(ac.book, ac.Queue());
  }

  /** The context goes down with an error. */
  method Fail(ac: AsyncContext, ghost s: State)
    requires ac.Idle() && ac.book.accepted == s.accepted && ac.book.incoming == s.incoming
    modifies ac, ac.replies, ac.replies.cells
    ensures Over(ac, Released(s)) && ac.err
    ensures fresh(ac.replies.cells - old(ac.replies.cells))
  {
    hide Sound, CallbackList.Valid;
    ac.err := true;
    ac.AsyncDisconnect();
  }

  /** When the connection is being disconnected, a NULL reply is the cue to really disconnect. */
  method NoReply(ac: AsyncContext, rd: RedisReader, ghost s: State) returns (over: bool)
    requires At(ac, rd, s)
    modifies ac, ac.replies, ac.replies.cells
    ensures over == (s.disconnecting && s.obuf == 0 && s.Queue() == [])
    ensures Shows(ac, rd, if over then Released(s) else Open(s))
    ensures over ==> ac.disconnecting && ac.obuf == 0 && |ac.book.incoming| == |ac.book.accepted|
    ensures !over ==> !(ac.disconnecting && ac.obuf == 0 && ac.Queue() == [])
    ensures fresh(ac.replies.cells - old(ac.replies.cells))
  {
    hide Sound, CallbackList.Valid, State.Queue, RedisReader.Valid;
    SameQueue(ac, s);
    Balanced(ac.book, ac.Queue());
    ac.replies.HeadNull();
    over := ac.disconnecting && ac.obuf == 0 && ac.replies.head == null;
    if over {
      ac.AsyncDisconnect();
    }
  }

  /** A reply is handed to the context. */
  method OneReply(ac: AsyncContext, rd: RedisReader, reply: Reply, ghost s: State) returns (over: bool)
    requires At(ac, rd, s)
    modifies ac, ac.replies, ac.replies.cells
    ensures over == !TakeReply(ac.behave, s, reply).Open? && Shows(ac, rd, TakeReply(ac.behave, s, reply))
    ensures over && ac.freed == 1 ==> ac.err || ac.freeing
    ensures fresh(ac.replies.cells - old(ac.replies.cells))
  {
    hide Sound, CallbackList.Valid, Effect, Response, State.Queue, RedisReader.Valid;
    SameQueue(ac, s);
    over := ac.HandleReply(reply);
  }

  /** Nothing is left to do: no complete reply is pending, and no disconnect waits to be completed. */
  ghost predicate Quiet(ac: AsyncContext, rd: RedisReader)
    reads ac, ac.replies, rd
  {
    && rd.pos <= |rd.buf| && ParseReply(rd.Pending(), 0) == More
    && !(ac.disconnecting && ac.obuf == 0 && ac.Queue() == [])
  }

  /** After the loop over the replies a disconnect is only completed when everything is answered and sent. */
  ghost predicate CleanlyOver(ac: AsyncContext)
    reads ac
  {
    ac.err || ac.freeing || (ac.disconnecting && ac.obuf == 0 && |ac.book.incoming| == |ac.book.accepted|)
  }

  lemma CursorInside(rd: RedisReader)
    requires rd.Valid()
    ensures rd.pos <= |rd.buf|
  {
  }

  /** One turn of redisProcessCallbacks' loop: more says that a reply was taken. */
  method Turn(ac: AsyncContext, rd: RedisReader, ghost s: State) returns (more: bool, over: bool, ghost t: State)
    requires At(ac, rd, s)
    modifies ac, ac.replies, ac.replies.cells, rd, rd.rstack
    ensures more ==> !over && At(ac, rd, t) && |t.pending| < |s.pending|
    ensures more ==> TakeReplies(ac.behave, t) == TakeReplies(ac.behave, s)
    ensures !more ==> over == !TakeReplies(ac.behave, s).Open? && Shows(ac, rd, TakeReplies(ac.behave, s))
    ensures !more && !over ==> Quiet(ac, rd)
    ensures over && ac.freed == 1 ==> CleanlyOver(ac)
    ensures |rd.buf| <= old(|rd.buf|)
    ensures fresh(ac.replies.cells - old(ac.replies.cells))
  {
    hide Sound, CallbackList.Valid, ParseReply, Rep, Value, TakeReply, State.Queue, RedisReader.Valid;
    if ParseReply(s.pending, 0).Done? {
      ValueOfRep(ParseReply(s.pending, 0).value);
    }
    t := s;
    var ok, out := rd.GetReply();
    if !ok {
      Fail(ac, s);
      return false, true, t;
    }
    if out == None {
      over := NoReply(ac, rd, s);
      CursorInside(rd);
      return false, over, t;
    }
    t := s.(pending := ParseReply(s.pending, 0).rest);
    over := OneReply(ac, rd, Value(out.value), t);
    more := !over;
    t := TakeReply(ac.behave, t, ParseReply(s.pending, 0).value).s;
  }

  /** redisProcessCallbacks */
  method ProcessCallbacks(ac: AsyncContext, rd: RedisReader, ghost s: State) returns (over: bool)
    requires At(ac, rd, s)
    modifies ac, ac.replies, ac.replies.cells, rd, rd.rstack
    ensures over == !TakeReplies(ac.behave, s).Open? && Shows(ac, rd, TakeReplies(ac.behave, s))
    ensures !over ==> Quiet(ac, rd)
    ensures over && ac.freed == 1 ==> CleanlyOver(ac)
    ensures |rd.buf| <= old(|rd.buf|)
    ensures fresh(ac.replies.cells - old(ac.replies.cells))
  {
    hide Quiet, CleanlyOver, TakeReplies, Shows, At, Sound, CallbackList.Valid;
    var more := true;
    over := false;
    ghost var t := s;
    while more
      invariant more ==> At(ac, rd, t) && TakeReplies(ac.behave, t) == TakeReplies(ac.behave, s)
      invariant !more ==> over == !TakeReplies(ac.behave, s).Open? && Shows(ac, rd, TakeReplies(ac.behave, s))
      invariant !more && !over ==> Quiet(ac, rd)
      invariant !more && over && ac.freed == 1 ==> CleanlyOver(ac)
      invariant |rd.buf| <= old(|rd.buf|)
      invariant fresh(ac.replies.cells - old(ac.replies.cells))
      decreases more, |t.pending|
    {
      more, over, t := Turn(ac, rd, t);
    }
  }

  /** redisAsyncHandleRead, once redisBufferRead has read a chunk. */
  method HandleRead(ac: AsyncContext, rd: RedisReader, chunk: seq<Byte>, avail: nat, ghost s: State)
    returns (over: bool)
    requires At(ac, rd, s) && |rd.buf| + |chunk| <= INT_MAX
    modifies ac, ac.replies, ac.replies.cells, rd, rd.rstack
    ensures var l := TakeReplies(ac.behave, s.(pending := s.pending + chunk)); over == !l.Open? && Shows(ac, rd, l)
    ensures !over ==> Quiet(ac, rd)
    ensures over && ac.freed == 1 ==> CleanlyOver(ac)
    ensures |rd.buf| <= old(|rd.buf|) + |chunk|
    ensures fresh(ac.replies.cells - old(ac.replies.cells))
  {
    hide Sound, CallbackList.Valid, TakeReplies, Shows, Quiet, CleanlyOver;
    var ok := rd.Feed(chunk, avail);
    over := ProcessCallbacks(ac, rd, s.(pending := s.pending + chunk));
  }

  /** Calls by the user, and failures of the socket. */
  method HandleOther(ac: AsyncContext, rd: RedisReader, e: Event, ghost s: State) returns (over: bool)
    requires At(ac, rd, s) && !e.Readable?
    modifies ac, ac.replies, ac.replies.cells
    ensures over == !After(ac.behave, s, e).Open? && Shows(ac, rd, After(ac.behave, s, e))
    ensures over ==> ac.freed == 1
    ensures e.Api? && e.action.Command? && !old(ac.Closing()) ==>
      && !over && ac.obuf == old(ac.obuf) + e.action.len
      && ac.book.accepted == old(ac.book).accepted + [Callback(e.action.fn, e.action.privdata)]
    ensures e.Api? && e.action.Command? && old(ac.Closing()) ==> !over && ac.book == old(ac.book)
    ensures e.Api? && e.action.Disconnect? ==>
      ac.disconnecting && over == (old(ac.Queue()) == []) && ac.book.accepted == old(ac.book).accepted
    ensures e.Writable? ==>
      !over && ac.book == old(ac.book) && ac.obuf == if e.sent < old(ac.obuf) then old(ac.obuf) - e.sent else 0
    ensures (e.Api? && e.action.Free?) || e.ReadFails? || e.WriteFails? ==> over
    ensures fresh(ac.replies.cells - old(ac.replies.cells))
  {
    hide Sound, CallbackList.Valid, State.Queue, RedisReader.Valid, TakeReplies;
    SameQueue(ac, s);
    Balanced(ac.book, ac.Queue());
    match e {
      case Api(Command(fn, privdata, len)) =>
        var ok := ac.Command(fn, privdata, len);
      case Api(Disconnect) =>
        ac.Disconnect();
      case Api(Free) =>
        ac.Free();
      case Writable(sent) =>
        ac.obuf := ac.obuf - if sent < ac.obuf then sent else ac.obuf;
      case ReadFails =>
        Fail(ac, s);
      case WriteFails =>
        Fail(ac, s);
    }
    over := ac.freed == 1;
  }

  /** One event, from outside any callback. */
  method HandleEvent(ac: AsyncContext, rd: RedisReader, e: Event, ghost s: State) returns (over: bool)
    requires At(ac, rd, s) && |rd.buf| + |Arrived(e)| <= INT_MAX
    modifies ac, ac.replies, ac.replies.cells, rd, rd.rstack
    ensures over == !After(ac.behave, s, e).Open? && Shows(ac, rd, After(ac.behave, s, e))
    ensures e.Api? && e.action.Command? && !old(ac.Closing()) ==>
      && !over && ac.obuf == old(ac.obuf) + e.action.len
      && ac.book.accepted == old(ac.book).accepted + [Callback(e.action.fn, e.action.privdata)]
    ensures e.Api? && e.action.Command? && old(ac.Closing()) ==> !over && ac.book == old(ac.book)
    ensures e.Api? && e.action.Disconnect? ==>
      ac.disconnecting && over == (old(ac.Queue()) == []) && ac.book.accepted == old(ac.book).accepted
    ensures e.Writable? ==>
      !over && ac.book == old(ac.book) && ac.obuf == if e.sent < old(ac.obuf) then old(ac.obuf) - e.sent else 0
    ensures (e.Api? && e.action.Free?) || e.ReadFails? || e.WriteFails? ==> over && ac.freed == 1
    ensures e.Readable? && !over ==> Quiet(ac, rd)
    ensures e.Readable? && over && ac.freed == 1 ==> CleanlyOver(ac)
    ensures |rd.buf| <= old(|rd.buf|) + |Arrived(e)|
    ensures fresh(ac.replies.cells - old(ac.replies.cells))
  {
    hide At, Shows, TakeReplies, Sound, CallbackList.Valid, Quiet, CleanlyOver, AsyncContext.Closing;
    if e.Readable? {
      over := HandleRead(ac, rd, e.chunk, e.avail, s);
    } else {
      over := HandleOther(ac, rd, e, s);
    }
  }

  /** Events are handled one after the other until the context is released or the process stops. */
  method HandleEvents(ac: AsyncContext, rd: RedisReader, events: seq<Event>, ghost s: State) returns (over: bool)
    requires At(ac, rd, s) && |rd.buf| + |Stream(events)| <= INT_MAX
    modifies ac, ac.replies, ac.replies.cells, rd, rd.rstack
    ensures over == !AfterAll(ac.behave, s, events).Open? && Shows(ac, rd, AfterAll(ac.behave, s, events))
    decreases |events|
  {
    hide At, Over, After, Sound, CallbackList.Valid;
    over := false;
    if events != [] {
      over := HandleEvent(ac, rd, events[0], s);
      if !over {
        over := HandleEvents(ac, rd, events[1..], After(ac.behave, s, events[0]).s);
      }
    }
  }

  /**
   * A whole life of a client, whatever the callbacks do: it ends as the model says. The accepted commands are the first
   * ones asked for, all of them unless closing began, and however the bytes of the stream are cut into chunks, the i-th
   * of them is answered by the i-th reply of one parse of the stream, the leftovers by NULL.
   */
  method Live(behave: Behaviour, events: seq<Event>) returns (ac: AsyncContext)
    requires |Stream(events)| <= INT_MAX
    ensures ac.Handed() && InOrder(ac.book, ParseAll(Stream(events)).0)
    ensures var l := AfterAll(behave, START, events);
      && Fair(l.s) && ac.book.accepted == l.s.accepted && ac.book.incoming == l.s.incoming
      && (l.Open? <==> ac.Idle()) && (l.Released? <==> ac.freed == 1) && (l.Stopped? <==> ac.halted)
      && (l.Open? ==> ac.disconnecting == l.s.disconnecting && ac.freeing == l.s.freeing && ac.obuf == l.s.obuf)
    ensures ac.Idle() ==> ParseAll(Stream(events)) == (ac.book.incoming, None)
    ensures ac.freed == 1 ==> |ac.book.answers| == |ac.book.accepted| && Warranted(ac)
    ensures ac.freed == 1 && |ac.book.incoming| < |ac.book.accepted| ==> ac.Doomed()
    ensures ac.halted ==>
      var i := |ac.book.incoming|;
      i == |ac.book.accepted| < |ParseAll(Stream(events)).0| && !ParseAll(Stream(events)).0[i].Error?
  {
    hide Sound, CallbackList.Valid, Over, At, ParseAll, ParseReply, OnWire, InOrder, AsyncContext.Idle, Stream,
      AsyncContext.Handed, AsyncContext.Doomed, RedisReader.Valid, AfterAll, Fair, Shows;
    ac := new AsyncContext(behave);
    var rd := new RedisReader();
    Started(ac, rd);
    var over := HandleEvents(ac, rd, events, START);
    Lived(ac, rd, behave, events);
  }

  lemma Started(ac: AsyncContext, rd: RedisReader)
    requires ac.Idle() && ac.book == Ledger([], [], [], []) && !ac.Closing() && !ac.err && ac.obuf == ac.turn == 0
    requires rd.Valid() && rd.err == None && rd.Pending() == []
    ensures At(ac, rd, START)
  {
  }

  lemma NothingPending()
    ensures ParseReply([], 0) == More
  {
  }

  /** What a whole life comes to on the model. */
  lemma LifeOnStream(behave: Behaviour, events: seq<Event>)
    ensures Fair(AfterAll(behave, START, events).s)
    ensures Reached(AfterAll(behave, START, events), ParseAll(Stream(events)), [])
  {
    hide ParseAll, AfterAll, Stream;
    var stream := Stream(events);
    assert [] + stream == stream && [] + ParseAll(stream).0 == ParseAll(stream).0;
    NothingPending();
    LifeLater(behave, START, events);
    LifeOnWire(behave, START, events, ParseAll(stream));
  }

  lemma Lived(ac: AsyncContext, rd: RedisReader, behave: Behaviour, events: seq<Event>)
    requires Shows(ac, rd, AfterAll(behave, START, events))
    ensures ac.Handed() && InOrder(ac.book, ParseAll(Stream(events)).0)
    ensures var l := AfterAll(behave, START, events);
      && Fair(l.s) && ac.book.accepted == l.s.accepted && ac.book.incoming == l.s.incoming
      && (l.Open? <==> ac.Idle()) && (l.Released? <==> ac.freed == 1) && (l.Stopped? <==> ac.halted)
      && (l.Open? ==> ac.disconnecting == l.s.disconnecting && ac.freeing == l.s.freeing && ac.obuf == l.s.obuf)
    ensures ac.Idle() ==> ParseAll(Stream(events)) == (ac.book.incoming, None)
    ensures ac.freed == 1 ==> |ac.book.answers| == |ac.book.accepted| && Warranted(ac)
    ensures ac.freed == 1 && |ac.book.incoming| < |ac.book.accepted| ==> ac.Doomed()
    ensures ac.halted ==>
      var i := |ac.book.incoming|;
      i == |ac.book.accepted| < |ParseAll(Stream(events)).0| && !ParseAll(Stream(events)).0[i].Error?
  {
    var l, whole := AfterAll(behave, START, events), ParseAll(Stream(events));
    LifeOnStream(behave, events);
    if l.Open? {
      assert l.s.pending + [] == l.s.pending && l.s.incoming + [] == l.s.incoming;
    }
    SoundInOrder(ac.book, ac.Queue(), ac.draining, whole.0);
  }
}
