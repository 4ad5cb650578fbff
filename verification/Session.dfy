/** Whole sessions of the reader: any way of cutting a stream into Feed calls, draining GetReply
    after each, yields what one recursive parse of the whole stream yields. */
module Session {
  import opened Bytes
  import opened Resp
  import opened ReplyTree
  import opened Reader

  function Concat(chunks: seq<seq<Byte>>): seq<Byte> {
    if chunks == [] then [] else chunks[0] + Concat(chunks[1..])
  }

  /** What is left of `s` after its complete replies. */
  ghost function Rest(s: seq<Byte>): (r: seq<Byte>)
    ensures !ParseReply(r, 0).Done?
    decreases |s|
  {
    match ParseReply(s, 0)
    case Done(_, rest) => Rest(rest)
    case _ => s
  }

  lemma RestStep(s: seq<Byte>)
    ensures Rest(s) == match ParseReply(s, 0) case Done(_, rest) => Rest(rest) case _ => s
  {
  }

  ghost predicate Clean(s: seq<Byte>) {
    ParseAll(s).1 == None
  }

  lemma Regroup(a: seq<Reply>, b: seq<Reply>, c: seq<Reply>)
    ensures a + (b + c) == a + b + c
  {
  }

  /** Parsing can be cut anywhere: the replies so far, then the parse of what was left plus the new bytes. */
  lemma {:induction false} ParseAllExtends(s: seq<Byte>, t: seq<Byte>)
    ensures ParseAll(s + t) ==
            if Clean(s) then (ParseAll(s).0 + ParseAll(Rest(s) + t).0, ParseAll(Rest(s) + t).1)
            else ParseAll(s)
    decreases |s|
  {
    ReplyExtends(s, 0, t);
    match ParseReply(s, 0)
    case Done(v, rest) =>
      ParseAllExtends(rest, t);
      if Clean(s) {
        Regroup([v], ParseAll(rest).0, ParseAll(Rest(s) + t).0);
      }
    case More =>
      assert [] + ParseAll(s + t).0 == ParseAll(s + t).0;
    case Bad(_) =>
  }

  /** A session on values: each chunk is appended to what is pending and drained; an error is final. */
  ghost function Run(pending: seq<Byte>, chunks: seq<seq<Byte>>): (seq<Reply>, Option<ErrorKind>)
    decreases |chunks|
  {
    if chunks == [] then ([], None)
    else
      var s := pending + chunks[0];
      if Clean(s) then
        var r := Run(Rest(s), chunks[1..]);
        (ParseAll(s).0 + r.0, r.1)
      else ParseAll(s)
  }

  /** Chunking is invisible. */
  lemma {:induction false} ChunkingInvisible(pending: seq<Byte>, chunks: seq<seq<Byte>>)
    requires ParseReply(pending, 0) == More
    ensures Run(pending, chunks) == ParseAll(pending + Concat(chunks))
    decreases |chunks|
  {
    if chunks == [] {
      assert pending + Concat(chunks) == pending;
    } else {
      var s := pending + chunks[0];
      var t := Concat(chunks[1..]);
      assert pending + Concat(chunks) == s + t;
      ParseAllExtends(s, t);
      if Clean(s) {
        CleanRest(s);
        ChunkingInvisible(Rest(s), chunks[1..]);
      }
    }
  }

  lemma {:induction false} CleanRest(s: seq<Byte>)
    requires Clean(s)
    ensures ParseReply(Rest(s), 0) == More
    decreases |s|
  {
    match ParseReply(s, 0)
    case Done(_, rest) => CleanRest(rest);
    case _ =>
  }

  /** Any way of cutting a stream gives the replies and the error of one parse of the stream. */
  lemma RunWhole(chunks: seq<seq<Byte>>)
    ensures Run([], chunks) == ParseAll(Concat(chunks))
  {
    ChunkingInvisible([], chunks);
    assert [] + Concat(chunks) == Concat(chunks);
  }

  ghost function Reps(replies: seq<Reply>): (nodes: seq<Node>)
    ensures |nodes| == |replies|
  {
    seq(|replies|, i requires 0 <= i < |replies| => Rep(replies[i]))
  }

  lemma RepsAppend(a: seq<Reply>, b: seq<Reply>)
    ensures Reps(a + b) == Reps(a) + Reps(b)
  {
  }

  lemma OneRep(done: seq<Reply>, r: Reply)
    ensures Reps(done + [r]) == Reps(done) + [Rep(r)]
  {
    RepsAppend(done, [r]);
  }

  /** The inner loop of redisProcessCallbacks on the reader side: GetReply until there is none. */
  method Drain(rd: RedisReader, ghost p: seq<Byte>) returns (out: seq<Node>)
    requires rd.Valid() && rd.err == None && rd.Pending() == p
    modifies rd, rd.rstack
    ensures rd.Valid()
    ensures out == Reps(ParseAll(p).0) && rd.err == ParseAll(p).1
    ensures rd.err == None ==> rd.Pending() == Rest(p)
    ensures |rd.buf| <= old(|rd.buf|)
  {
    hide ParseAll, ParseReply, Reps, Rep, Rest;
    out := [];
    ghost var done: seq<Reply> := [];
    ghost var q := p;
    assert [] + ParseAll(p).0 == ParseAll(p).0;
    var going := true;
    while going
      invariant rd.Valid() && |rd.buf| <= old(|rd.buf|)
      invariant rd.err == None ==> rd.Pending() == q
      invariant out == Reps(done)
      invariant going ==> rd.err == None && ParseAll(p) == (done + ParseAll(q).0, ParseAll(q).1)
      invariant !going ==> ParseAll(p) == (done, rd.err)
      invariant rd.err == None ==> Rest(p) == Rest(q)
      invariant !going && rd.err == None ==> Rest(q) == q
      decreases going, |q|
    {
      ParseAllStep(done, q);
      RestStep(q);
      var ok, node := rd.GetReply();
      if node.Some? {
        OneRep(done, ParseReply(q, 0).value);
        out := out + [node.value];
        done := done + [ParseReply(q, 0).value];
        q := ParseReply(q, 0).rest;
      } else {
        going := false;
      }
    }
  }

  /** redisAsyncHandleRead on the reader side: feed what arrived, then drain. */
  method FeedAndDrain(rd: RedisReader, chunk: seq<Byte>, avail: nat, ghost p: seq<Byte>) returns (out: seq<Node>)
    requires rd.Valid() && rd.err == None && rd.Pending() == p && |rd.buf| + |chunk| <= INT_MAX
    modifies rd, rd.rstack
    ensures rd.Valid() && |rd.buf| <= old(|rd.buf|) + |chunk|
    ensures out == Reps(ParseAll(p + chunk).0) && rd.err == ParseAll(p + chunk).1
    ensures rd.err == None ==> rd.Pending() == Rest(p + chunk)
  {
    hide ParseAll, ParseReply, Reps, Rest;
    var ok := rd.Feed(chunk, avail);
    out := Drain(rd, p + chunk);
  }

  /** The event loop on the reader side: the chunks arrive one after the other, until an error. */
  method RunFrom(rd: RedisReader, chunks: seq<seq<Byte>>, avail: nat, ghost p: seq<Byte>) returns (out: seq<Node>)
    requires rd.Valid() && rd.err == None && rd.Pending() == p && |rd.buf| + |Concat(chunks)| <= INT_MAX
    modifies rd, rd.rstack
    ensures rd.Valid()
    ensures out == Reps(Run(p, chunks).0) && rd.err == Run(p, chunks).1
    decreases |chunks|
  {
    hide ParseAll, ParseReply, Reps, Rest, RedisReader.Valid;
    if chunks == [] {
      out := [];
    } else {
      out := FeedAndDrain(rd, chunks[0], avail, p);
      if rd.err == None {
        var rest := RunFrom(rd, chunks[1..], avail, Rest(p + chunks[0]));
        RepsAppend(ParseAll(p + chunks[0]).0, Run(Rest(p + chunks[0]), chunks[1..]).0);
        out := out + rest;
      }
    }
  }

  /** A whole session: however the stream is cut, the objects emitted and the error are those of one parse of it. */
  method RunSession(chunks: seq<seq<Byte>>, avail: nat) returns (out: seq<Node>, err: Option<ErrorKind>)
    requires |Concat(chunks)| <= INT_MAX
    ensures out == Reps(ParseAll(Concat(chunks)).0)
    ensures err == ParseAll(Concat(chunks)).1
  {
    hide ParseAll, ParseReply, Reps, Rest, Run, Concat, RedisReader.Valid;
    var rd := new RedisReader();
    out := RunFrom(rd, chunks, avail, []);
    RunWhole(chunks);
    err := rd.err;
  }
}
