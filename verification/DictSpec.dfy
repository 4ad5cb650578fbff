/** Bucket chains as sequences of entries: what the hash table of dict.c keeps about them. */
module DictSpec {
  import opened Bytes
  import opened Sequences

  type Key = seq<Byte>
  type Val = int

  class Entry {
    const key: Key
    var val: Val
    var next: Entry?

    constructor (key: Key, val: Val)
      ensures this.key == key && this.val == val && next == null
    {
      this.key, this.val, this.next := key, val, null;
    }
  }

  type Chain = seq<Entry>

  // ---------------------------------------------------------------- index arithmetic

  /** Bitwise and of two non-negative numbers. */
  function And(x: nat, y: nat): nat
    decreases y
  {
    if y == 0 then 0 else (x % 2) * (y % 2) + 2 * And(x / 2, y / 2)
  }

  /** Masking with 2^k - 1 is the remainder modulo 2^k: `hash & sizemask` is a bucket number. */
  lemma {:induction false} AndMask(x: nat, k: nat)
    ensures And(x, Pow2(k) - 1) == x % Pow2(k)
  {
    hide And;
    if k == 0 {
      OddAnd(x, 0);
    } else {
      AndMask(x / 2, k - 1);
      AndStep(x, Pow2(k - 1));
    }
  }

  lemma {:induction false} MaskBound(x: nat, y: nat)
    ensures And(x, y) <= y
    decreases y
  {
    if y == 0 {
    } else {
      MaskBound(x / 2, y / 2);
      LowBits(x % 2, y % 2);
      assert y == 2 * (y / 2) + y % 2;
    }
  }

  lemma LowBits(a: nat, b: nat)
    requires a < 2 && b < 2
    ensures a * b <= b
  {
  }

  lemma AndStep(x: nat, p: nat)
    requires p > 0 && And(x / 2, p - 1) == x / 2 % p
    ensures And(x, 2 * p - 1) == x % (2 * p)
  {
    hide And;
    Halves(x, p);
    OddAnd(x, p - 1);
  }

  lemma OddAnd(x: nat, y: nat)
    ensures And(x, 2 * y + 1) == x % 2 + 2 * And(x / 2, y)
    ensures And(x, 0) == 0
  {
    assert (2 * y + 1) % 2 == 1 && (2 * y + 1) / 2 == y;
  }

  lemma Halves(x: nat, p: nat)
    requires p > 0
    ensures x % (2 * p) == x % 2 + 2 * (x / 2 % p)
  {
    var q, r := x / 2 / p, x % 2 + 2 * (x / 2 % p);
    Quotient(x / 2, p);
    assert x == (2 * p) * q + r by {
      assert x == 2 * (x / 2) + x % 2;
      assert 2 * (p * q) == (2 * p) * q;
    }
    Remainder(x, 2 * p, q, r);
  }

  lemma Quotient(x: nat, d: nat)
    requires d > 0
    ensures x == d * (x / d) + x % d
  {
  }

  lemma Remainder(x: nat, d: nat, q: nat, r: nat)
    requires d > 0 && x == d * q + r && r < d
    ensures x % d == r
  {
    Quotient(x, d);
    assert d * (x / d - q) == d * (x / d) - d * q;
    SmallMultiple(d, x / d - q);
  }

  lemma SmallMultiple(d: int, a: int)
    requires d > 0
    ensures a >= 1 ==> d * a >= d
    ensures a <= -1 ==> d * a <= -d
  {
    if a >= 1 {
      assert d * a == d + d * (a - 1);
    }
    if a <= -1 {
      assert d * a == -d + d * (a + 1);
    }
  }

  // ---------------------------------------------------------------- chains

  ghost predicate Linked(head: Entry?, c: Chain)
    reads c`next
  {
    && head == (if c == [] then null else c[0])
    && (forall i :: 0 <= i < |c| - 1 ==> c[i].next == c[i + 1])
    && (c != [] ==> c[|c| - 1].next == null)
  }

  ghost function Entries(chains: seq<Chain>): set<Entry> {
    set b, i | 0 <= b < |chains| && 0 <= i < |chains[b]| :: chains[b][i]
  }

  ghost predicate AllLinked(table: seq<Entry?>, chains: seq<Chain>)
    reads Entries(chains)`next
  {
    |table| == |chains| && forall b :: 0 <= b < |chains| ==> Linked(table[b], chains[b])
  }

  /** Every entry sits in the bucket its hash selects. */
  ghost predicate Placed(hash: Key -> nat, mask: nat, chains: seq<Chain>) {
    forall b, i :: 0 <= b < |chains| && 0 <= i < |chains[b]| ==> And(hash(chains[b][i].key), mask) == b
  }

  ghost predicate KeysApart(c: Chain) {
    forall i, j :: 0 <= i < j < |c| ==> c[i].key != c[j].key
  }

  ghost predicate AllApart(chains: seq<Chain>) {
    forall b :: 0 <= b < |chains| ==> KeysApart(chains[b])
  }

  ghost function Total(chains: seq<Chain>): nat {
    if chains == [] then 0 else |chains[0]| + Total(chains[1..])
  }

  /** All entries in the order in which the iterator meets them. */
  ghost function Flat(chains: seq<Chain>): Chain {
    if chains == [] then [] else chains[0] + Flat(chains[1..])
  }

  ghost function Members(c: Chain): set<Entry> {
    set e | e in c
  }

  ghost predicate UniqueKeys(s: set<Entry>) {
    forall x, y :: x in s && y in s && x.key == y.key ==> x == y
  }

  /** The finite map a set of entries stands for. */
  ghost predicate Models(s: set<Entry>, m: map<Key, Val>)
    reads s`val
  {
    && (forall e :: e in s ==> e.key in m && m[e.key] == e.val)
    && (forall k :: k in m ==> exists e :: e in s && e.key == k)
  }

  /** The shape of a table: hash & mask finds every entry, no key occurs twice. */
  ghost predicate WellPlaced(hash: Key -> nat, mask: nat, chains: seq<Chain>) {
    Placed(hash, mask, chains) && AllApart(chains)
  }

  /** A key determines its position. */
  lemma OnePosition(hash: Key -> nat, mask: nat, chains: seq<Chain>, b: nat, i: nat, c: nat, j: nat)
    requires WellPlaced(hash, mask, chains)
    requires b < |chains| && i < |chains[b]| && c < |chains| && j < |chains[c]|
    requires chains[b][i].key == chains[c][j].key
    ensures b == c && i == j
  {
    assert KeysApart(chains[b]);
  }

  lemma AllUnique(hash: Key -> nat, mask: nat, chains: seq<Chain>)
    requires WellPlaced(hash, mask, chains)
    ensures UniqueKeys(Entries(chains))
  {
    hide And;
    forall x, y | x in Entries(chains) && y in Entries(chains) && x.key == y.key
      ensures x == y
    {
      var b, i :| 0 <= b < |chains| && 0 <= i < |chains[b]| && chains[b][i] == x;
      var c, j :| 0 <= c < |chains| && 0 <= j < |chains[c]| && chains[c][j] == y;
      OnePosition(hash, mask, chains, b, i, c, j);
    }
  }

  lemma FirstBucket(chains: seq<Chain>)
    requires chains != []
    ensures Entries(chains) == Members(chains[0]) + Entries(chains[1..])
    ensures Total(chains) == |chains[0]| + Total(chains[1..])
  {
    var t := chains[1..];
    assert forall b :: 0 < b < |chains| ==> chains[b] == t[b - 1];
    forall x | x in Entries(chains)
      ensures x in Members(chains[0]) + Entries(t)
    {
      var b, i :| 0 <= b < |chains| && 0 <= i < |chains[b]| && chains[b][i] == x;
      if b > 0 {
        assert t[b - 1][i] == x;
      }
    }
    forall x | x in Entries(t)
      ensures x in Entries(chains)
    {
      var b, i :| 0 <= b < |t| && 0 <= i < |t[b]| && t[b][i] == x;
      assert chains[b + 1][i] == x;
    }
  }

  lemma Elsewhere(hash: Key -> nat, mask: nat, chains: seq<Chain>, b: nat, i: nat, c: nat, j: nat)
    requires WellPlaced(hash, mask, chains) && b != c
    requires b < |chains| && i < |chains[b]| && c < |chains| && j < |chains[c]|
    ensures chains[b][i] != chains[c][j]
  {
  }

  /** A bucket shares no entry with the buckets after it. */
  lemma BucketApart(hash: Key -> nat, mask: nat, chains: seq<Chain>, b: nat)
    requires WellPlaced(hash, mask, chains) && b < |chains|
    ensures Members(chains[b]) !! Entries(chains[b + 1..])
  {
    hide And;
    var t := chains[b + 1..];
    forall x | x in Members(chains[b])
      ensures x !in Entries(t)
    {
      var i :| 0 <= i < |chains[b]| && chains[b][i] == x;
      forall c: nat, j: nat | c < |t| && j < |t[c]|
        ensures t[c][j] != x
      {
        assert t[c] == chains[b + 1 + c];
        Elsewhere(hash, mask, chains, b, i, b + 1 + c, j);
      }
    }
  }

  lemma {:induction false} TotalUpdate(chains: seq<Chain>, b: nat, c: Chain)
    requires b < |chains|
    ensures Total(chains[b := c]) == Total(chains) - |chains[b]| + |c|
    decreases |chains|
  {
    if b > 0 {
      assert chains[b := c][1..] == chains[1..][b - 1 := c];
      TotalUpdate(chains[1..], b - 1, c);
    } else {
      assert chains[b := c][1..] == chains[1..];
    }
  }

  lemma {:induction false} TotalZero(chains: seq<Chain>, b: nat)
    requires Total(chains) == 0 && b < |chains|
    ensures chains[b] == []
    decreases |chains|
  {
    if b == 0 {
    } else {
      TotalZero(chains[1..], b - 1);
    }
  }

  // ---------------------------------------------------------------- putting one entry in front of a chain

  ghost function Push(chains: seq<Chain>, b: nat, e: Entry): (r: seq<Chain>)
    requires b < |chains|
    ensures |r| == |chains|
  {
    chains[b := [e] + chains[b]]
  }

  lemma PushEntries(chains: seq<Chain>, b: nat, e: Entry)
    requires b < |chains|
    ensures Entries(Push(chains, b, e)) == Entries(chains) + {e}
  {
    var r := Push(chains, b, e);
    assert forall c, i :: 0 <= c < |chains| && 0 <= i < |chains[c]| ==>
      chains[c][i] == r[c][if c == b then i + 1 else i];
    assert forall c, i :: 0 <= c < |r| && 0 <= i < |r[c]| ==>
      r[c][i] == if c == b && i == 0 then e else chains[c][if c == b then i - 1 else i];
    assert r[b][0] == e;
  }

  lemma PushPlaced(hash: Key -> nat, mask: nat, chains: seq<Chain>, b: nat, e: Entry)
    requires WellPlaced(hash, mask, chains) && b < |chains| && And(hash(e.key), mask) == b
    requires forall i :: 0 <= i < |chains[b]| ==> chains[b][i].key != e.key
    ensures WellPlaced(hash, mask, Push(chains, b, e))
  {
    var r := Push(chains, b, e);
    forall c | 0 <= c < |r|
      ensures KeysApart(r[c])
    {
      assert KeysApart(chains[c]);
    }
  }

  // ---------------------------------------------------------------- putting many entries in front of their chains

  /** The entries of c, one after the other, go to the front of their chains. */
  ghost function Moved(hash: Key -> nat, mask: nat, chains: seq<Chain>, c: Chain): (r: seq<Chain>)
    ensures |r| == |chains|
    decreases |c|
  {
    if c == [] then chains
    else
      var b := And(hash(c[0].key), mask);
      Moved(hash, mask, if b < |chains| then Push(chains, b, c[0]) else chains, c[1..])
  }

  lemma {:induction false} MovedOn(hash: Key -> nat, mask: nat, chains: seq<Chain>, c: Chain, d: Chain)
    ensures Moved(hash, mask, chains, c + d) == Moved(hash, mask, Moved(hash, mask, chains, c), d)
    decreases |c|
  {
    hide And, Push;
    if c == [] {
      assert c + d == d;
    } else {
      assert (c + d)[1..] == c[1..] + d;
      var b := And(hash(c[0].key), mask);
      MovedOn(hash, mask, if b < |chains| then Push(chains, b, c[0]) else chains, c[1..], d);
    }
  }

  /** The entries of c that belong to bucket b, the last one first. */
  ghost function Bucketful(hash: Key -> nat, mask: nat, c: Chain, b: nat): Chain
    decreases |c|
  {
    if c == [] then []
    else Bucketful(hash, mask, c[1..], b) + if And(hash(c[0].key), mask) == b then [c[0]] else []
  }

  lemma PushAt(chains: seq<Chain>, h: nat, e: Entry, b: nat)
    requires h < |chains| && b < |chains|
    ensures Push(chains, h, e)[b] == (if h == b then [e] else []) + chains[b]
  {
    assert [] + chains[b] == chains[b];
  }

  lemma Regrouped(c: Chain, d: Chain, e: Chain)
    ensures c + (d + e) == c + d + e && [] + e == e
  {
  }

  /** Moving reverses the order within each bucket. */
  lemma {:induction false} MovedInReverse(hash: Key -> nat, mask: nat, chains: seq<Chain>, c: Chain, b: nat)
    requires b < |chains|
    ensures Moved(hash, mask, chains, c)[b] == Bucketful(hash, mask, c, b) + chains[b]
    decreases |c|
  {
    hide And, Push;
    if c == [] {
      Regrouped([], [], chains[b]);
    } else {
      var h := And(hash(c[0].key), mask);
      var first := if h == b then [c[0]] else [];
      var next := if h < |chains| then Push(chains, h, c[0]) else chains;
      if h < |chains| {
        PushAt(chains, h, c[0], b);
      } else {
        Regrouped([], [], chains[b]);
      }
      MovedInReverse(hash, mask, next, c[1..], b);
      Regrouped(Bucketful(hash, mask, c[1..], b), first, chains[b]);
    }
  }

  /** The two pointer writes that put an entry in front of its chain. */
  method LinkFront(table: array<Entry?>, h: nat, e: Entry, ghost chains: seq<Chain>)
    requires AllLinked(table[..], chains) && h < |chains| && e !in Entries(chains)
    modifies table, e`next
    ensures AllLinked(table[..], Push(chains, h, e))
  {
    ghost var c: Chain := chains[h];
    assert Linked(table[h], c);
    assert forall j :: 0 <= j < |c| ==> chains[h][j] in Entries(chains);
    e.next := table[h];
    assert forall b :: 0 <= b < |chains| ==> Linked(table[..][b], chains[b]) by {
      Untouched(table[..], chains, e);
    }
    table[h] := e;
    assert forall i :: 0 < i <= |c| ==> ([e] + c)[i] == c[i - 1];
    assert Linked(e, [e] + c);
  }

  lemma Untouched(table: seq<Entry?>, chains: seq<Chain>, e: Entry)
    requires AllLinked(table, chains)
    ensures forall b :: 0 <= b < |chains| ==> Linked(table[b], chains[b])
  {
  }

  // ---------------------------------------------------------------- taking one entry out of a chain

  ghost function Without(c: Chain, i: nat): Chain
    requires i < |c|
  {
    c[..i] + c[i + 1..]
  }

  ghost function Drop(chains: seq<Chain>, b: nat, i: nat): seq<Chain>
    requires b < |chains| && i < |chains[b]|
  {
    chains[b := Without(chains[b], i)]
  }

  lemma DropEntries(hash: Key -> nat, mask: nat, chains: seq<Chain>, b: nat, i: nat)
    requires WellPlaced(hash, mask, chains) && b < |chains| && i < |chains[b]|
    ensures Entries(Drop(chains, b, i)) == Entries(chains) - {chains[b][i]}
  {
    hide And, Placed;
    var r, e := Drop(chains, b, i), chains[b][i];
    forall x | x in Entries(r)
      ensures x in Entries(chains) && x != e
    {
      var c: nat, j: nat :| c < |r| && j < |r[c]| && r[c][j] == x;
      var j' := if c == b && j >= i then j + 1 else j;
      assert chains[c][j'] == x;
      if c == b {
        assert KeysApart(chains[b]);
      } else {
        Elsewhere(hash, mask, chains, c, j', b, i);
      }
    }
    forall x | x in Entries(chains) && x != e
      ensures x in Entries(r)
    {
      var c, j :| 0 <= c < |chains| && 0 <= j < |chains[c]| && chains[c][j] == x;
      assert r[c][if c == b && j > i then j - 1 else j] == x;
    }
  }

  lemma DropPlaced(hash: Key -> nat, mask: nat, chains: seq<Chain>, b: nat, i: nat)
    requires WellPlaced(hash, mask, chains) && b < |chains| && i < |chains[b]|
    ensures WellPlaced(hash, mask, Drop(chains, b, i))
  {
    hide And;
    var r := Drop(chains, b, i);
    forall c | 0 <= c < |r|
      ensures KeysApart(r[c])
    {
      assert KeysApart(chains[c]);
    }
  }

  /** An entry of a chain leads to the next one. */
  ghost predicate LeadsOn(c: Chain, k: nat)
    requires k < |c|
    reads c[k]
  {
    c[k].next == if k + 1 < |c| then c[k + 1] else null
  }

  lemma LinkedSteps(head: Entry?, c: Chain)
    requires Linked(head, c)
    ensures c != [] ==> head == c[0]
    ensures forall k :: 0 <= k < |c| ==> LeadsOn(c, k)
  {
  }

  lemma LinkedThrough(head: Entry?, c: Chain)
    requires head == if c == [] then null else c[0]
    requires forall k :: 0 <= k < |c| ==> LeadsOn(c, k)
    ensures Linked(head, c)
  {
    forall k | 0 <= k < |c| - 1
      ensures c[k].next == c[k + 1]
    {
      assert LeadsOn(c, k);
    }
    assert c != [] ==> LeadsOn(c, |c| - 1);
  }

  /** A chain after the pointer that led to its i-th entry leads past it. */
  lemma LinkedWithout(head: Entry?, c: Chain, i: nat)
    requires i < |c|
    requires forall k :: 0 <= k < |c| && k != i && k != i - 1 ==> LeadsOn(c, k)
    requires (if i == 0 then head else c[i - 1].next) == if i + 1 < |c| then c[i + 1] else null
    requires i > 0 ==> head == c[0]
    ensures Linked(head, Without(c, i))
  {
    var r := Without(c, i);
    forall k | 0 <= k < |r|
      ensures LeadsOn(r, k)
    {
      var j := if k < i then k else k + 1;
      assert r[k] == c[j];
      assert j != i - 1 ==> LeadsOn(c, j);
      if k < |r| - 1 {
        assert r[k + 1] == c[if k + 1 < i then k + 1 else k + 2];
      }
    }
    LinkedThrough(head, r);
  }

  /** The two-way pointer write that takes an entry out of its chain. */
  method Unlink(hash: Key -> nat, mask: nat, table: array<Entry?>, h: nat, prev: Entry?, de: Entry,
                ghost chains: seq<Chain>, ghost i: nat)
    requires AllLinked(table[..], chains) && WellPlaced(hash, mask, chains)
    requires h < |chains| && i < |chains[h]| && de == chains[h][i]
    requires prev == if i == 0 then null else chains[h][i - 1]
    modifies table, Entries(chains)`next
    ensures AllLinked(table[..], Drop(chains, h, i))
  {
    hide And, Placed, Without;
    ghost var c: Chain := chains[h];
    LinkedSteps(table[..][h], c);
    assert LeadsOn(c, i);
    assert KeysApart(c);
    assert forall b :: 0 <= b < |chains| ==> Linked(table[..][b], chains[b]);
    if prev != null {
      assert prev in Entries(chains);
      forall b: nat, k: nat | b < |chains| && k < |chains[b]| && chains[b][k] == prev
        ensures b == h && k == i - 1
      {
        OnePosition(hash, mask, chains, b, k, h, i - 1);
      }
      prev.next := de.next;
    } else {
      table[h] := de.next;
    }
    assert forall k :: 0 <= k < |c| && k != i - 1 ==> c[k] != prev;
    LinkedWithout(table[h], c, i);
    assert forall b :: 0 <= b < |chains| && b != h ==> Linked(table[..][b], chains[b]);
  }

  // ---------------------------------------------------------------- maps

  lemma OneKeyMore(m: map<Key, Val>, k: Key, v: Val)
    requires k !in m
    ensures |m[k := v]| == |m| + 1
  {
    assert m[k := v].Keys == m.Keys + {k};
  }

  lemma ModelsAdd(s: set<Entry>, m: map<Key, Val>, e: Entry)
    requires Models(s, m) && e.key !in m
    ensures Models(s + {e}, m[e.key := e.val]) && |m[e.key := e.val]| == |m| + 1
  {
    var n := m[e.key := e.val];
    OneKeyMore(m, e.key, e.val);
    forall k | k in n
      ensures exists x :: x in s + {e} && x.key == k
    {
      if k == e.key {
        assert e in s + {e};
      } else {
        var x :| x in s && x.key == k;
        assert x in s + {e};
      }
    }
  }

  lemma ModelsDrop(s: set<Entry>, m: map<Key, Val>, e: Entry)
    requires Models(s, m) && e in s && forall x :: x in s && x.key == e.key ==> x == e
    ensures Models(s - {e}, m - {e.key}) && |m - {e.key}| == |m| - 1
  {
    var n := m - {e.key};
    assert m.Keys == n.Keys + {e.key};
    forall k | k in n
      ensures exists x :: x in s - {e} && x.key == k
    {
      var x :| x in s && x.key == k;
      assert x in s - {e};
    }
  }
}
