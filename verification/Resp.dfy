/** The RESP (version 2) reply grammar as one recursive parser, the matching encoder, and the
    theorems relating the two. The incremental reader is proved against this grammar. */
module Resp {
  import opened Bytes
  import opened IntText

  datatype Reply =
    | Status(text: seq<Byte>)
    | Error(text: seq<Byte>)
    | Integer(n: int)
    | Bulk(text: seq<Byte>)
    | Nil
    | Array(items: seq<Reply>)

  /** The five type bytes. */
  datatype Kind = StatusK | ErrorK | IntegerK | BulkK | ArrayK

  datatype ErrorKind =
    | BadTypeByte(b: Byte)
    | BadInteger
    | BadBulkLength
    | BulkLengthRange
    | BadMultiBulkLength
    | MultiBulkLengthRange
    | TooDeep

  /** More: the input ends inside the reply. Done: a value and the bytes after it. */
  datatype Parsed<+T> = More | Bad(error: ErrorKind) | Done(value: T, rest: seq<Byte>)

  /** The deepest stack level; an array may not start there. */
  const MAX_LEVEL := 8

  function KindOf(b: Byte): Option<Kind> {
    if b == 45 then Some(ErrorK)         // '-'
    else if b == 43 then Some(StatusK)   // '+'
    else if b == 58 then Some(IntegerK)  // ':'
    else if b == 36 then Some(BulkK)     // '$'
    else if b == 42 then Some(ArrayK)    // '*'
    else None
  }

  function TypeByte(k: Kind): (b: Byte)
    ensures KindOf(b) == Some(k)
  {
    match k
    case ErrorK => 45
    case StatusK => 43
    case IntegerK => 58
    case BulkK => 36
    case ArrayK => 42
  }

  predicate IsCRLF(s: seq<Byte>, i: int) {
    0 <= i < |s| - 1 && s[i] == CR && s[i + 1] == LF
  }

  /** The index of the first CRLF, or -1. */
  ghost function LineEnd(s: seq<Byte>): (i: int)
    ensures i >= 0 ==> IsCRLF(s, i) && forall j :: 0 <= j < i ==> !IsCRLF(s, j)
    ensures i < 0 ==> i == -1 && forall j :: !IsCRLF(s, j)
  {
    if |s| < 2 then -1
    else if IsCRLF(s, 0) then 0
    else
      var i := LineEnd(s[1..]);
      assert forall j :: IsCRLF(s, j) && j > 0 ==> IsCRLF(s[1..], j - 1);
      if i < 0 then -1 else i + 1
  }

  lemma LineEndIs(s: seq<Byte>, i: int)
    requires IsCRLF(s, i) && forall j :: 0 <= j < i ==> !IsCRLF(s, j)
    ensures LineEnd(s) == i
  {
    assert IsCRLF(s, LineEnd(s));
  }

  /** A simple reply line: its text is known. */
  ghost function LineValue(kind: Kind, line: seq<Byte>, rest: seq<Byte>): Parsed<Reply> {
    match kind
    case StatusK => Done(Status(line), rest)
    case ErrorK => Done(Error(line), rest)
    case _ =>
      match ParseInt(line)
      case None => Bad(BadInteger)
      case Some(n) => Done(Integer(n), rest)
  }

  /** The rest of a reply whose type byte has been read, at stack level `lvl`. */
  ghost function ParseBody(kind: Kind, s: seq<Byte>, lvl: nat): (r: Parsed<Reply>)
    ensures r.Done? ==> |r.rest| < |s|
    decreases |s|, 0
  {
    var i := LineEnd(s);
    match kind
    case BulkK =>
      if i < 0 then More else BulkValue(ParseInt(s[..i]), s[i + 2..])
    case ArrayK =>
      if lvl == MAX_LEVEL then Bad(TooDeep)
      else if i < 0 then More
      else (
        match ParseInt(s[..i])
        case None => Bad(BadMultiBulkLength)
        case Some(n) =>
          if n < -1 || n > INT_MAX then Bad(MultiBulkLengthRange)
          else if n == -1 then Done(Nil, s[i + 2..])
          else AsArray([], ParseItems(s[i + 2..], n, lvl + 1))
      )
    case _ =>
      if i < 0 then More else LineValue(kind, s[..i], s[i + 2..])
  }

  /** A bulk string after its length line: only the length decides, not the bytes that end it. */
  ghost function BulkValue(n: Option<int>, s: seq<Byte>): (r: Parsed<Reply>)
    ensures r.Done? ==> |r.rest| <= |s|
  {
    match n
    case None => Bad(BadBulkLength)
    case Some(n) =>
      if n < -1 then Bad(BulkLengthRange)
      else if n == -1 then Done(Nil, s)
      else if n + 2 <= |s| then Done(Bulk(s[..n]), s[n + 2..])
      else More
  }

  ghost function AsArray(done: seq<Reply>, r: Parsed<seq<Reply>>): (p: Parsed<Reply>)
    ensures p.Done? <==> r.Done?
    ensures p.Done? ==> p.rest == r.rest
  {
    match r
    case More => More
    case Bad(e) => Bad(e)
    case Done(items, rest) => Done(Array(done + items), rest)
  }

  /** `n` consecutive replies. */
  ghost function ParseItems(s: seq<Byte>, n: nat, lvl: nat): (r: Parsed<seq<Reply>>)
    ensures r.Done? ==> |r.rest| <= |s| && |r.value| == n
    decreases |s|, 2
  {
    if n == 0 then Done([], s) else
      match ParseReply(s, lvl)
      case More => More
      case Bad(e) => Bad(e)
      case Done(v, rest) =>
        match ParseItems(rest, n - 1, lvl)
        case More => More
        case Bad(e) => Bad(e)
        case Done(items, rest') => Done([v] + items, rest')
  }

  /** One reply from its first byte. */
  ghost function ParseReply(s: seq<Byte>, lvl: nat): (r: Parsed<Reply>)
    ensures r.Done? ==> |r.rest| < |s|
    decreases |s|, 1
  {
    if s == [] then More else
      match KindOf(s[0])
      case None => Bad(BadTypeByte(s[0]))
      case Some(kind) => ParseBody(kind, s[1..], lvl)
  }

  /** The whole stream: the replies it carries and the error, if any, that ends it. */
  ghost function ParseAll(s: seq<Byte>): (seq<Reply>, Option<ErrorKind>)
    decreases |s|
  {
    match ParseReply(s, 0)
    case More => ([], None)
    case Bad(e) => ([], Some(e))
    case Done(v, rest) => var r := ParseAll(rest); ([v] + r.0, r.1)
  }

  lemma ParseAllStep(done: seq<Reply>, s: seq<Byte>)
    ensures match ParseReply(s, 0)
      case More => done + ParseAll(s).0 == done && ParseAll(s).1 == None
      case Bad(e) => done + ParseAll(s).0 == done && ParseAll(s).1 == Some(e)
      case Done(v, rest) =>
        done + ParseAll(s).0 == done + [v] + ParseAll(rest).0 && ParseAll(s).1 == ParseAll(rest).1
  {
    hide ParseReply;
    match ParseReply(s, 0)
    case More => assert done + [] == done;
    case Bad(_) => assert done + [] == done;
    case Done(v, rest) => assert done + ([v] + ParseAll(rest).0) == done + [v] + ParseAll(rest).0;
  }

  // ---------------------------------------------------------------- more input never changes a verdict

  /** `q` is `p` seen with `t` more bytes behind it. */
  ghost predicate Extends<T>(p: Parsed<T>, q: Parsed<T>, t: seq<Byte>) {
    match p
    case More => true
    case Bad(e) => q == p
    case Done(v, rest) => q == Done(v, rest + t)
  }

  lemma LineEndExtends(s: seq<Byte>, t: seq<Byte>)
    requires LineEnd(s) >= 0
    ensures var i := LineEnd(s); LineEnd(s + t) == i && (s + t)[..i] == s[..i] && (s + t)[i + 2..] == s[i + 2..] + t
  {
    var i := LineEnd(s);
    forall j | 0 <= j < i
      ensures !IsCRLF(s + t, j)
    {
      assert !IsCRLF(s, j);
    }
    LineEndIs(s + t, i);
  }

  lemma {:induction false} BodyExtends(kind: Kind, s: seq<Byte>, lvl: nat, t: seq<Byte>)
    ensures Extends(ParseBody(kind, s, lvl), ParseBody(kind, s + t, lvl), t)
    decreases |s|, 0
  {
    var i := LineEnd(s);
    if i >= 0 {
      LineEndExtends(s, t);
      match kind
      case BulkK =>
        BulkExtends(ParseInt(s[..i]), s[i + 2..], t);
      case ArrayK =>
        var n := ParseInt(s[..i]);
        if lvl != MAX_LEVEL && n.Some? && 0 <= n.value <= INT_MAX {
          ItemsExtend(s[i + 2..], n.value, lvl + 1, t);
        }
      case _ =>
    }
  }

  lemma BulkExtends(n: Option<int>, s: seq<Byte>, t: seq<Byte>)
    ensures Extends(BulkValue(n, s), BulkValue(n, s + t), t)
  {
    if n.Some? && 0 <= n.value && n.value + 2 <= |s| {
      assert (s + t)[..n.value] == s[..n.value];
      assert (s + t)[n.value + 2..] == s[n.value + 2..] + t;
    }
  }

  lemma {:induction false} ItemsExtend(s: seq<Byte>, n: nat, lvl: nat, t: seq<Byte>)
    ensures Extends(ParseItems(s, n, lvl), ParseItems(s + t, n, lvl), t)
    decreases |s|, 2
  {
    if n == 0 {
    } else {
      ReplyExtends(s, lvl, t);
      var r := ParseReply(s, lvl);
      if r.Done? {
        ItemsExtend(r.rest, n - 1, lvl, t);
      }
    }
  }

  /** A verdict reached on a prefix of the stream is the verdict on the stream. */
  lemma {:induction false} ReplyExtends(s: seq<Byte>, lvl: nat, t: seq<Byte>)
    ensures Extends(ParseReply(s, lvl), ParseReply(s + t, lvl), t)
    decreases |s|, 1
  {
    if s != [] && KindOf(s[0]).Some? {
      assert (s + t)[1..] == s[1..] + t;
      BodyExtends(KindOf(s[0]).value, s[1..], lvl, t);
    }
  }

  /** What a reply leaves is the end of what it was given. */
  lemma {:induction false} RestIsSuffix(s: seq<Byte>, lvl: nat)
    ensures var p := ParseReply(s, lvl); p.Done? ==> p.rest == s[|s| - |p.rest|..]
    decreases |s|, 1
  {
    if s != [] && KindOf(s[0]).Some? {
      var kind := KindOf(s[0]).value;
      BodyIsSuffix(kind, s[1..], lvl);
    }
  }

  lemma {:induction false} BodyIsSuffix(kind: Kind, s: seq<Byte>, lvl: nat)
    ensures var p := ParseBody(kind, s, lvl); p.Done? ==> p.rest == s[|s| - |p.rest|..]
    decreases |s|, 0
  {
    hide ParseInt, ParseItems, LineEnd;
    var i := LineEnd(s);
    if i >= 0 && kind == ArrayK && lvl != MAX_LEVEL {
      var n := ParseInt(s[..i]);
      if n.Some? && 0 <= n.value <= INT_MAX {
        ItemsAreSuffix(s[i + 2..], n.value, lvl + 1);
      }
    }
  }

  lemma {:induction false} ItemsAreSuffix(s: seq<Byte>, n: nat, lvl: nat)
    ensures var p := ParseItems(s, n, lvl); p.Done? ==> p.rest == s[|s| - |p.rest|..]
    decreases |s|, 2
  {
    if n == 0 {
    } else {
      RestIsSuffix(s, lvl);
      var p := ParseReply(s, lvl);
      if p.Done? {
        ItemsAreSuffix(p.rest, n - 1, lvl);
      }
    }
  }

  // ---------------------------------------------------------------- encoder and round trip

  ghost function Line(kind: Kind, text: seq<Byte>): seq<Byte> {
    [TypeByte(kind)] + (text + CRLF)
  }

  ghost function Encode(r: Reply): seq<Byte> {
    match r
    case Status(x) => Line(StatusK, x)
    case Error(x) => Line(ErrorK, x)
    case Integer(n) => Line(IntegerK, Decimal(n))
    case Bulk(x) => Line(BulkK, Decimal(|x|)) + (x + CRLF)
    case Nil => Line(BulkK, Decimal(-1))
    case Array(items) => Line(ArrayK, Decimal(|items|)) + EncodeItems(items)
  }

  ghost function EncodeItems(items: seq<Reply>): seq<Byte> {
    if items == [] then [] else Encode(items[0]) + EncodeItems(items[1..])
  }

  ghost predicate NoCRLF(text: seq<Byte>) {
    forall i :: !IsCRLF(text, i)
  }

  /** What the protocol can carry: line texts without CRLF, 64-bit integers, lengths in range. */
  ghost predicate Encodable(r: Reply) {
    match r
    case Status(x) => NoCRLF(x)
    case Error(x) => NoCRLF(x)
    case Integer(n) => InI64(n)
    case Bulk(x) => |x| <= LLONG_MAX
    case Nil => true
    case Array(items) => |items| <= INT_MAX && forall i :: 0 <= i < |items| ==> Encodable(items[i])
  }

  /** Array nesting: 0 for a scalar. */
  ghost function Depth(r: Reply): nat {
    if r.Array? then 1 + DepthOf(r.items) else 0
  }

  ghost function DepthOf(items: seq<Reply>): nat {
    if items == [] then 0
    else
      var d, e := Depth(items[0]), DepthOf(items[1..]);
      if d > e then d else e
  }

  lemma LineEndOfText(text: seq<Byte>, t: seq<Byte>)
    requires NoCRLF(text)
    ensures var s := text + CRLF + t;
            LineEnd(s) == |text| && s[..|text|] == text && s[|text| + 2..] == t
  {
    var s := text + CRLF + t;
    forall j | 0 <= j < |text|
      ensures !IsCRLF(s, j)
    {
      assert !IsCRLF(text, j);
    }
    LineEndIs(s, |text|);
  }

  lemma DecimalLine(v: int, t: seq<Byte>)
    requires InI64(v)
    ensures var d, s := Decimal(v), Decimal(v) + CRLF + t;
            LineEnd(s) == |d| && s[..|d|] == d && s[|d| + 2..] == t && ParseInt(d) == Some(v)
  {
    LineEndOfText(Decimal(v), t);
    PrintThenParse(v);
  }

  lemma TypedLine(kind: Kind, text: seq<Byte>, u: seq<Byte>, t: seq<Byte>, lvl: nat)
    ensures ParseReply(Line(kind, text) + u + t, lvl) == ParseBody(kind, text + CRLF + (u + t), lvl)
  {
    var s := Line(kind, text) + u + t;
    assert s[1..] == text + CRLF + (u + t);
  }

  lemma LineReplyRoundTrip(kind: Kind, text: seq<Byte>, t: seq<Byte>, lvl: nat)
    requires NoCRLF(text) && !kind.BulkK? && !kind.ArrayK?
    ensures ParseReply(Line(kind, text) + t, lvl) == LineValue(kind, text, t)
  {
    var s := Line(kind, text) + t;
    assert s[1..] == text + CRLF + t;
    LineEndOfText(text, t);
  }

  lemma BulkRoundTrip(n: int, u: seq<Byte>, t: seq<Byte>, lvl: nat)
    requires InI64(n)
    ensures ParseReply(Line(BulkK, Decimal(n)) + u + t, lvl) == BulkValue(Some(n), u + t)
  {
    TypedLine(BulkK, Decimal(n), u, t, lvl);
    DecimalLine(n, u + t);
  }

  lemma NilRoundTrip(t: seq<Byte>, lvl: nat)
    ensures ParseReply(Encode(Nil) + t, lvl) == Done(Nil, t)
  {
    hide ParseReply, ParseInt, Decimal;
    BulkRoundTrip(-1, [], t, lvl);
    assert [] + t == t && Encode(Nil) + t == Line(BulkK, Decimal(-1)) + [] + t;
  }

  lemma BytesRoundTrip(x: seq<Byte>, t: seq<Byte>, lvl: nat)
    requires |x| <= LLONG_MAX
    ensures ParseReply(Encode(Bulk(x)) + t, lvl) == Done(Bulk(x), t)
  {
    hide ParseReply, ParseInt, Decimal;
    var u := x + CRLF;
    BulkRoundTrip(|x|, u, t, lvl);
    assert Encode(Bulk(x)) + t == Line(BulkK, Decimal(|x|)) + u + t;
    assert (u + t)[..|x|] == x && (u + t)[|x| + 2..] == t;
  }

  lemma {:induction false} ArrayRoundTrip(items: seq<Reply>, t: seq<Byte>, lvl: nat)
    requires |items| <= INT_MAX && forall i :: 0 <= i < |items| ==> Encodable(items[i])
    requires lvl < MAX_LEVEL
    ensures var r := if lvl + 1 + DepthOf(items) <= MAX_LEVEL then Done(Array(items), t) else Bad(TooDeep);
            ParseReply(Encode(Array(items)) + t, lvl) == r
    decreases items, 1
  {
    hide ParseReply, ParseItems, ParseInt, LineEnd, Decimal, DepthOf, EncodeItems, Encodable;
    var u := EncodeItems(items);
    TypedLine(ArrayK, Decimal(|items|), u, t, lvl);
    DecimalLine(|items|, u + t);
    ItemsRoundTrip(items, t, lvl + 1);
    assert [] + items == items;
  }

  /** Any encodable reply nested at most to the limit is read back exactly, leaving exactly the
      bytes behind it; a deeper one is refused with the depth error. */
  lemma {:induction false} RoundTrip(r: Reply, t: seq<Byte>, lvl: nat)
    requires Encodable(r) && lvl <= MAX_LEVEL
    ensures ParseReply(Encode(r) + t, lvl) ==
            if lvl + Depth(r) <= MAX_LEVEL then Done(r, t) else Bad(TooDeep)
    decreases r, 0
  {
    hide ParseReply, ParseItems, ParseInt, LineEnd, Decimal, DepthOf, EncodeItems;
    match r
    case Status(x) =>
      LineReplyRoundTrip(StatusK, x, t, lvl);
    case Error(x) =>
      LineReplyRoundTrip(ErrorK, x, t, lvl);
    case Integer(n) =>
      DecimalLine(n, t);
      LineReplyRoundTrip(IntegerK, Decimal(n), t, lvl);
    case Nil =>
      NilRoundTrip(t, lvl);
    case Bulk(x) =>
      BytesRoundTrip(x, t, lvl);
    case Array(items) =>
      if lvl < MAX_LEVEL {
        ArrayRoundTrip(items, t, lvl);
      } else {
        TypedLine(ArrayK, Decimal(|items|), EncodeItems(items), t, lvl);
      }
  }

  lemma {:induction false} ItemsRoundTrip(items: seq<Reply>, t: seq<Byte>, lvl: nat)
    requires forall i :: 0 <= i < |items| ==> Encodable(items[i])
    requires lvl <= MAX_LEVEL
    ensures ParseItems(EncodeItems(items) + t, |items|, lvl) ==
            if lvl + DepthOf(items) <= MAX_LEVEL then Done(items, t) else Bad(TooDeep)
    decreases items, 0
  {
    hide ParseReply, Encode, Encodable, Depth;
    if items != [] {
      var rest := EncodeItems(items[1..]) + t;
      assert EncodeItems(items) + t == Encode(items[0]) + rest;
      RoundTrip(items[0], rest, lvl);
      ItemsRoundTrip(items[1..], t, lvl);
      assert [items[0]] + items[1..] == items;
    } else {
      assert EncodeItems(items) + t == t;
    }
  }

  /** For line replies the condition on the text is exact: it comes back iff it has no CRLF. */
  lemma StatusRoundTripExact(x: seq<Byte>, t: seq<Byte>)
    ensures ParseReply(Encode(Status(x)) + t, 0) == Done(Status(x), t) <==> NoCRLF(x)
  {
    if NoCRLF(x) {
      RoundTrip(Status(x), t, 0);
    } else {
      var i :| IsCRLF(x, i);
      TypedLine(StatusK, x, [], t, 0);
      assert Encode(Status(x)) + t == Line(StatusK, x) + [] + t;
      var s := x + CRLF + ([] + t);
      assert IsCRLF(s, i);
      assert LineEnd(s) <= i;
      assert |s[..LineEnd(s)]| < |x|;
    }
  }

  /** Reading a stream of whole replies yields exactly those replies and no error. */
  lemma {:induction false} StreamRoundTrip(replies: seq<Reply>)
    requires forall i :: 0 <= i < |replies| ==> Encodable(replies[i]) && Depth(replies[i]) <= MAX_LEVEL
    ensures ParseAll(EncodeItems(replies)) == (replies, None)
  {
    if replies == [] {
    } else {
      RoundTrip(replies[0], EncodeItems(replies[1..]), 0);
      StreamRoundTrip(replies[1..]);
      assert [replies[0]] + replies[1..] == replies;
    }
  }

  // ---------------------------------------------------------------- everything read can be written

  /** Every reply that the grammar delivers is one that the round trip covers. */
  lemma {:induction false} ReadIsEncodable(s: seq<Byte>, lvl: nat)
    requires lvl <= MAX_LEVEL
    ensures var r := ParseReply(s, lvl); r.Done? ==> Encodable(r.value) && lvl + Depth(r.value) <= MAX_LEVEL
    decreases |s|, 1
  {
    if s == [] {
    } else if KindOf(s[0]).Some? {
      BodyIsEncodable(KindOf(s[0]).value, s[1..], lvl);
    }
  }

  lemma LineHasNoEnd(s: seq<Byte>)
    requires LineEnd(s) >= 0
    ensures NoCRLF(s[..LineEnd(s)])
  {
    assert forall j :: IsCRLF(s[..LineEnd(s)], j) ==> IsCRLF(s, j);
  }

  lemma {:induction false} BodyIsEncodable(kind: Kind, s: seq<Byte>, lvl: nat)
    requires lvl <= MAX_LEVEL
    ensures var r := ParseBody(kind, s, lvl); r.Done? ==> Encodable(r.value) && lvl + Depth(r.value) <= MAX_LEVEL
    decreases |s|, 0
  {
    hide ParseInt, ParseItems, LineEnd;
    var i := LineEnd(s);
    if i >= 0 {
      LineHasNoEnd(s);
      var n := ParseInt(s[..i]);
      if kind == ArrayK && lvl < MAX_LEVEL && n.Some? && 0 <= n.value <= INT_MAX {
        ItemsAreEncodable(s[i + 2..], n.value, lvl + 1);
        ArrayIsEncodable(ParseItems(s[i + 2..], n.value, lvl + 1), n.value, lvl);
      }
    }
  }

  lemma ArrayIsEncodable(r: Parsed<seq<Reply>>, n: nat, lvl: nat)
    requires n <= INT_MAX && (r.Done? ==> |r.value| == n)
    requires r.Done? ==> lvl + 1 + DepthOf(r.value) <= MAX_LEVEL && forall i :: 0 <= i < n ==> Encodable(r.value[i])
    ensures var a := AsArray([], r); a.Done? ==> Encodable(a.value) && lvl + Depth(a.value) <= MAX_LEVEL
  {
    if r.Done? {
      assert [] + r.value == r.value;
    }
  }

  lemma {:induction false} ItemsAreEncodable(s: seq<Byte>, n: nat, lvl: nat)
    requires lvl <= MAX_LEVEL
    ensures var r := ParseItems(s, n, lvl);
      r.Done? ==> lvl + DepthOf(r.value) <= MAX_LEVEL && forall i :: 0 <= i < n ==> Encodable(r.value[i])
    decreases |s|, 2
  {
    if n == 0 {
    } else {
      ReadIsEncodable(s, lvl);
      var first := ParseReply(s, lvl);
      if first.Done? {
        ItemsAreEncodable(first.rest, n - 1, lvl);
      }
    }
  }
}
