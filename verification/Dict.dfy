/** The chained hash table of hiredis' dict.c, refined to a finite map, and its deletion-tolerant iterator. */
module Dict {
  import opened Bytes
  import opened DictSpec
  import opened Sequences

  const INITIAL_SIZE: nat := 4

  /** The largest number of buckets whose numbers fit the C `int` that carries a bucket index. */
  const MAX_BUCKETS: nat := 0x8000_0000

  /** _dictNextPower: the least power of two that is at least 4 and at least `size`. */
  method NextPower(size: nat) returns (p: nat, ghost k: nat)
    ensures size >= LLONG_MAX ==> p == LLONG_MAX
    ensures size < LLONG_MAX ==> p == Pow2(k) && p >= size && p >= 4 && (p == 4 || p / 2 < size)
    ensures p < 0x1_0000_0000_0000_0000
  {
    k := 2;
    assert Pow2(1) == 2 && Pow2(2) == 4;
    p := INITIAL_SIZE;
    if size >= LLONG_MAX {
      return LLONG_MAX, k;
    }
    while p < size
      invariant p == Pow2(k) && p >= 4 && (p == 4 || p / 2 < size)
      decreases size - p
    {
      p, k := p * 2, k + 1;
    }
  }

  class Table {
    const hash: Key -> nat
    var table: array<Entry?>
    var size: nat
    var sizemask: nat
    var used: nat
    ghost var bits: nat
    ghost var chains: seq<Chain>
    ghost var m: map<Key, Val>

    ghost predicate Sized()
      reads this
    {
      && table.Length == size == |chains|
      && (size == 0 || (size == Pow2(bits) && size >= 4))
      && sizemask == (if size == 0 then 0 else size - 1)
      && used == Total(chains) == |m| <= size
    }

    ghost predicate Valid()
      reads this, table, Entries(chains)
    {
      && Sized()
      && AllLinked(table[..], chains)
      && WellPlaced(hash, sizemask, chains)
      && Models(Entries(chains), m)
    }

    /** dictCreate */
    constructor (hash: Key -> nat)
      ensures Valid() && fresh(table) && m == map[] && size == 0
    {
      this.hash := hash;
      table := new Entry?[0];
      size, sizemask, used := 0, 0, 0;
      bits, chains, m := 0, [], map[];
    }

    /** One turn of dictExpand's inner loop: an entry leaves its old chain for the front of its new one. */
    method MoveEntry(n: array<Entry?>, mask: nat, he: Entry, ghost todo: Chain, ghost nc: seq<Chain>)
      returns (nextHe: Entry?, ghost r: seq<Chain>)
      requires Linked(he, todo) && KeysApart(todo) && UniqueKeys(Entries(nc) + Members(todo))
      requires AllLinked(n[..], nc) && WellPlaced(hash, mask, nc) && mask < |nc|
      requires Entries(nc) !! Members(todo) && used > 0
      modifies n, he`next, `used
      ensures todo != [] && Linked(nextHe, todo[1..])
      ensures AllLinked(n[..], r) && WellPlaced(hash, mask, r) && |r| == |nc|
      ensures And(hash(he.key), mask) < |nc| && r == Push(nc, And(hash(he.key), mask), he) && he == todo[0]
      ensures Entries(r) == Entries(nc) + {he}
      ensures used == old(used) - 1
    {
      hide And, AllLinked, WellPlaced, Linked, Entries, Members, UniqueKeys, KeysApart;
      Advance(he, todo);
      nextHe := he.next;
      var h := And(hash(he.key), mask);
      MaskBound(hash(he.key), mask);
      FreshKey(nc, h, he, Members(todo));
      PushEntries(nc, h, he);
      PushPlaced(hash, mask, nc, h, he);
      LinkFront(n, h, he, nc);
      r := Push(nc, h, he);
      used := used - 1;
    }

    /** The inner loop of dictExpand: every entry of one bucket is moved. */
    method MoveBucket(n: array<Entry?>, mask: nat, first: Entry?, ghost c: Chain, ghost nc: seq<Chain>)
      returns (ghost r: seq<Chain>)
      requires Linked(first, c) && KeysApart(c) && UniqueKeys(Entries(nc) + Members(c))
      requires AllLinked(n[..], nc) && WellPlaced(hash, mask, nc) && mask < |nc|
      requires Entries(nc) !! Members(c) && |c| <= used
      modifies n, Members(c)`next, `used
      ensures AllLinked(n[..], r) && WellPlaced(hash, mask, r) && |r| == |nc|
      ensures r == Moved(hash, mask, nc, c) && Entries(r) == Entries(nc) + Members(c)
      ensures used == old(used) - |c|
    {
      hide WellPlaced, AllLinked, Entries, And, Push;
      var he := first;
      r := nc;
      ghost var todo := c;
      while he != null
        invariant Linked(he, todo) && KeysApart(todo) && Members(todo) <= Members(c)
        invariant Entries(r) !! Members(todo)
        invariant Entries(r) + Members(todo) == Entries(nc) + Members(c)
        invariant Moved(hash, mask, r, todo) == Moved(hash, mask, nc, c)
        invariant AllLinked(n[..], r) && WellPlaced(hash, mask, r) && |r| == |nc|
        invariant used == old(used) - |c| + |todo|
        decreases |todo|
      {
        ghost var e := todo[0];
        assert Members(todo) == {e} + Members(todo[1..]);
        assert e !in Members(todo[1..]);
        assert KeysApart(todo[1..]);
        he, r := MoveEntry(n, mask, he, todo, r);
        todo := todo[1..];
      }
      assert todo == [];
    }

    /** One turn of dictExpand's outer loop: bucket i is moved. */
    method MoveRow(n: array<Entry?>, mask: nat, i: nat, ghost nc: seq<Chain>) returns (ghost r: seq<Chain>)
      requires i < table.Length == |chains| && n != table && mask < |nc|
      requires AllLinked(n[..], nc) && WellPlaced(hash, mask, nc)
      requires AllLinked(table[i..], chains[i..]) && WellPlaced(hash, sizemask, chains)
      requires Entries(nc) !! Entries(chains[i..]) && Entries(nc) + Entries(chains[i..]) == Entries(chains)
      requires used == Total(chains[i..])
      modifies n, Entries(chains)`next, `used
      ensures AllLinked(n[..], r) && WellPlaced(hash, mask, r) && |r| == |nc|
      ensures AllLinked(table[i + 1..], chains[i + 1..])
      ensures Entries(r) !! Entries(chains[i + 1..]) && Entries(r) + Entries(chains[i + 1..]) == Entries(chains)
      ensures used == Total(chains[i + 1..]) && r == Moved(hash, mask, nc, chains[i])
    {
      hide AllLinked, WellPlaced, Linked, And, Models, Total, Entries, Members, KeysApart, UniqueKeys;
      ghost var rest := chains[i..];
      assert rest[0] == chains[i] && rest[1..] == chains[i + 1..];
      assert table[i..][0] == table[i] && table[i..][1..] == table[i + 1..];
      FirstLinked(table[i..], rest);
      FirstBucket(rest);
      BucketApart(hash, sizemask, chains, i);
      BucketKeys(sizemask, chains, i, Entries(nc));
      NoMembers(chains[i]);
      assert allocated(Entries(chains[i + 1..]));
      r := nc;
      if table[i] != null {
        r := MoveBucket(n, mask, table[i], chains[i], nc);
      }
    }

    lemma NoMembers(c: Chain)
      ensures c == [] ==> Members(c) == {}
    {
    }

    /** dictExpand's loops: the outer one stops as soon as the `used` count has run down. */
    method MoveAll(n: array<Entry?>, mask: nat)
      returns (ghost r: seq<Chain>)
      requires Valid() && n != table && n.Length == mask + 1 && forall b :: 0 <= b < n.Length ==> n[b] == null
      modifies n, Entries(chains)`next, `used
      ensures AllLinked(n[..], r) && WellPlaced(hash, mask, r) && |r| == mask + 1
      ensures Entries(r) == Entries(chains) && r == Moved(hash, mask, seq(mask + 1, _ => []), Flat(chains))
      ensures used == 0
    {
      hide AllLinked, WellPlaced, Linked, And, Models, Total, Entries, Pow2, Moved, Flat;
      r := EmptyTable(n, mask);
      ghost var nc := r;
      WholeTable();
      assert allocated(Entries(chains));
      var i := 0;
      while i < size && used > 0
        invariant 0 <= i <= size
        invariant AllLinked(n[..], r) && WellPlaced(hash, mask, r) && |r| == mask + 1
        invariant AllLinked(table[i..], chains[i..])
        invariant Entries(r) !! Entries(chains[i..]) && Entries(r) + Entries(chains[i..]) == Entries(chains)
        invariant used == Total(chains[i..])
        invariant Moved(hash, mask, r, Flat(chains[i..])) == Moved(hash, mask, nc, Flat(chains))
      {
        NextBucket(chains, i);
        MovedOn(hash, mask, r, chains[i], Flat(chains[i + 1..]));
        r := MoveRow(n, mask, i, r);
        i := i + 1;
      }
      NothingLeft(chains[i..]);
      NothingMoved(hash, mask, r, chains[i..]);
    }

    /** dictExpand. Its closing `assert(ht->used == 0)` is the assertion below. */
    method Expand(wanted: nat) returns (ok: bool)
      requires Valid() && wanted < LLONG_MAX
      modifies this, Entries(chains)`next
      ensures Valid() && Entries(chains) == old(Entries(chains)) && m == old(m)
      ensures ok == (old(used) <= wanted)
      ensures ok ==> fresh(table) && wanted <= size && (size == 4 || size / 2 < wanted)
      ensures ok ==> chains == Moved(hash, sizemask, seq(size, _ => []), Flat(old(chains)))
      ensures !ok ==> table == old(table) && size == old(size) && chains == old(chains)
    {
      hide AllLinked, WellPlaced, Models, Pow2, Entries, Total, Moved, Flat;
      assert allocated(Entries(chains));
      var realsize; ghost var k;
      realsize, k := NextPower(wanted);
      if used > wanted {
        return false;
      }
      var n := new Entry?[realsize](_ => null);
      var n_used := used;
      ghost var r := MoveAll(n, realsize - 1);
      assert used == 0;
      SameTotal(sizemask, chains, realsize - 1, r);
      Install(n, realsize, n_used, k, r);
      return true;
    }

    /** The struct copy that ends dictExpand. */
    method Install(n: array<Entry?>, realsize: nat, n_used: nat, ghost k: nat, ghost r: seq<Chain>)
      requires n.Length == realsize == |r| == Pow2(k) >= 4 && n_used == Total(r) == |m| <= realsize
      requires AllLinked(n[..], r) && WellPlaced(hash, realsize - 1, r) && Models(Entries(r), m)
      modifies this
      ensures Valid() && table == n && size == realsize && chains == r && used == n_used && m == old(m)
    {
      hide AllLinked, WellPlaced, Models, Pow2, Entries, Total;
      table, size, sizemask, used := n, realsize, realsize - 1, n_used;
      bits, chains := k, r;
    }

    method ExpandIfNeeded() returns (ok: bool)
      requires Valid() && size < LLONG_MAX / 2
      modifies this, Entries(chains)`next
      ensures Valid() && ok && used < size
      ensures Entries(chains) == old(Entries(chains)) && m == old(m) && used == old(used)
      ensures size == (if old(size) == 0 then 4 else if old(used == size) then 2 * old(size) else old(size))
      ensures table == old(table) || fresh(table)
      ensures size == old(size) ==> table == old(table) && chains == old(chains)
    {
      hide AllLinked, WellPlaced, Models, Entries;
      ok := true;
      ghost var b := bits;
      if size == 0 {
        ok := Expand(INITIAL_SIZE);
        assert Pow2(1) == 2 && Pow2(2) == 4;
        PowersApart(bits, 2);
        PowersApart(2, bits);
      } else if used == size {
        ok := Expand(size * 2);
        PowersApart(bits, b + 1);
        PowersApart(b + 1, bits);
      }
    }

    lemma PowersApart(k: nat, j: nat)
      ensures k > j ==> Pow2(k) >= 2 * Pow2(j)
      decreases k
    {
      if k <= j + 1 {
      } else {
        PowersApart(k - 1, j);
      }
    }

    lemma SameTotal(mask: nat, cs: seq<Chain>, mask': nat, ds: seq<Chain>)
      requires WellPlaced(hash, mask, cs) && WellPlaced(hash, mask', ds) && Entries(cs) == Entries(ds)
      ensures Total(cs) == Total(ds)
    {
      CountEntries(mask, cs);
      CountEntries(mask', ds);
    }

    lemma CountEntries(mask: nat, cs: seq<Chain>)
      requires WellPlaced(hash, mask, cs)
      ensures |Entries(cs)| == Total(cs)
    {
      CountFrom(mask, cs, 0);
      assert cs[0..] == cs;
    }

    lemma {:induction false} CountFrom(mask: nat, cs: seq<Chain>, b: nat)
      requires WellPlaced(hash, mask, cs) && b <= |cs|
      ensures |Entries(cs[b..])| == Total(cs[b..])
      decreases |cs| - b
    {
      if b == |cs| {
        assert Entries(cs[b..]) == {};
      } else {
        var t := cs[b..];
        assert t[0] == cs[b] && t[1..] == cs[b + 1..];
        CountFrom(mask, cs, b + 1);
        FirstBucket(t);
        BucketApart(hash, mask, cs, b);
        CountMembers(cs[b]);
      }
    }

    lemma {:induction false} CountMembers(c: Chain)
      requires KeysApart(c)
      ensures |Members(c)| == |c|
    {
      if c == [] {
        assert Members(c) == {};
      } else {
        CountMembers(c[1..]);
        assert Members(c) == {c[0]} + Members(c[1..]);
      }
    }

    /** The next insertion leaves a table whose bucket numbers fit an `int`. */
    predicate Room()
      reads this
    {
      (if used == size then 2 * size else size) <= MAX_BUCKETS
    }

    /** _dictKeyIndex: makes room, then looks for the key in its bucket. */
    method KeyIndex(key: Key) returns (index: int)
      requires Valid() && Room()
      modifies this, Entries(chains)`next
      ensures Valid() && used < size <= MAX_BUCKETS && (table == old(table) || fresh(table))
      ensures size == (if old(size) == 0 then 4 else if old(used == size) then 2 * old(size) else old(size))
      ensures size == old(size) ==> table == old(table) && chains == old(chains)
      ensures Entries(chains) == old(Entries(chains)) && m == old(m)
      ensures index == -1 <==> key in m
      ensures index != -1 ==> index == And(hash(key), sizemask) < |chains|
      ensures index != -1 ==> forall i :: 0 <= i < |chains[index]| ==> chains[index][i].key != key
    {
      hide And, WellPlaced, Models, Entries, Total;
      var ok := ExpandIfNeeded();
      if !ok {
        return -1;
      }
      var h := And(hash(key), sizemask);
      MaskBound(hash(key), sizemask);
      assert Linked(table[..][h], chains[h]);
      var he := table[h];
      ghost var i := 0;
      while he != null
        invariant i <= |chains[h]| && he == if i == |chains[h]| then null else chains[h][i]
        invariant forall j :: 0 <= j < i ==> chains[h][j].key != key
        decreases |chains[h]| - i
      {
        if key == he.key {
          Present(h, i);
          return -1;
        }
        he, i := he.next, i + 1;
      }
      Absent(h, key);
      return h;
    }

    lemma Present(h: nat, i: nat)
      requires Models(Entries(chains), m) && h < |chains| && i < |chains[h]|
      ensures chains[h][i] in Entries(chains)
      ensures chains[h][i].key in m && m[chains[h][i].key] == chains[h][i].val
    {
    }

    lemma Absent(h: nat, key: Key)
      requires Models(Entries(chains), m) && WellPlaced(hash, sizemask, chains)
      requires h < |chains| && h == And(hash(key), sizemask)
      requires forall i :: 0 <= i < |chains[h]| ==> chains[h][i].key != key
      ensures key !in m
    {
      hide And;
    }

    /** dictFind */
    method Find(key: Key) returns (he: Entry?)
      requires Valid()
      ensures he == null <==> key !in m
      ensures he != null ==> he in Entries(chains) && he.key == key && m[key] == he.val
    {
      hide And, WellPlaced, Models, Entries, Total;
      if size == 0 {
        return null;
      }
      var h := And(hash(key), sizemask);
      MaskBound(hash(key), sizemask);
      assert Linked(table[..][h], chains[h]);
      he := table[h];
      ghost var i := 0;
      while he != null
        invariant i <= |chains[h]| && he == if i == |chains[h]| then null else chains[h][i]
        invariant forall j :: 0 <= j < i ==> chains[h][j].key != key
        decreases |chains[h]| - i
      {
        if key == he.key {
          Present(h, i);
          return he;
        }
        he, i := he.next, i + 1;
      }
      Absent(h, key);
      return null;
    }

    /** dictAdd */
    method Add(key: Key, val: Val) returns (ok: bool)
      requires Valid() && Room()
      modifies this, table, Entries(chains)`next
      ensures Valid() && (table == old(table) || fresh(table))
      ensures ok == (key !in old(m)) && m == if ok then old(m)[key := val] else old(m)
      ensures ok ==> exists e :: fresh(e) && Entries(chains) == old(Entries(chains)) + {e}
      ensures !ok ==> Entries(chains) == old(Entries(chains))
      ensures size == (if old(size) == 0 then 4 else if old(used == size) then 2 * old(size) else old(size))
      ensures ok && size == old(size) ==>
        && And(hash(key), sizemask) < size
        && exists e: Entry :: fresh(e) && e.key == key && chains == Push(old(chains), And(hash(key), sizemask), e)
    {
      hide And, WellPlaced, Models, Entries, Total, AllLinked, Pow2;
      var index := KeyIndex(key);
      if index == -1 {
        return false;
      }
      assert allocated(Entries(chains));
      var entry := new Entry(key, val);
      Bring(index, entry);
      return true;
    }

    method Bring(h: nat, entry: Entry)
      requires Valid() && used < size && entry !in Entries(chains) && entry.key !in m
      requires h == And(hash(entry.key), sizemask) < |chains|
      requires forall i :: 0 <= i < |chains[h]| ==> chains[h][i].key != entry.key
      modifies this, table, entry`next
      ensures Valid() && table == old(table) && size == old(size) && m == old(m)[entry.key := entry.val]
      ensures chains == Push(old(chains), h, entry) && Entries(chains) == old(Entries(chains)) + {entry}
    {
      hide And, WellPlaced, Models, Entries, Total, AllLinked, Pow2;
      PushEntries(chains, h, entry);
      PushPlaced(hash, sizemask, chains, h, entry);
      TotalUpdate(chains, h, [entry] + chains[h]);
      ModelsAdd(Entries(chains), m, entry);
      ghost var r, n := Push(chains, h, entry), m[entry.key := entry.val];
      assert allocated(Entries(r));
      LinkFront(table, h, entry, chains);
      assert Models(Entries(r), n);
      used := used + 1;
      chains, m := r, n;
      assert AllLinked(table[..], chains);
      assert Sized();
      assert WellPlaced(hash, sizemask, chains);
    }

    /** dictReplace: true when the key was new, false when an old value gave way. */
    method Replace(key: Key, val: Val) returns (added: bool)
      requires Valid() && Room()
      modifies this, table, Entries(chains)
      ensures Valid() && (table == old(table) || fresh(table))
      ensures added == (key !in old(m)) && m == old(m)[key := val]
      ensures forall e :: e in Entries(chains) ==> e in old(Entries(chains)) || fresh(e)
      ensures size == (if old(size) == 0 then 4 else if old(used == size) then 2 * old(size) else old(size))
    {
      hide And, WellPlaced, Models, Entries, Total, AllLinked, Pow2;
      added := Add(key, val);
      if added {
        return;
      }
      assert allocated(Entries(chains));
      var entry := Find(key);
      SetVal(entry, val);
    }

    method SetVal(entry: Entry, val: Val)
      requires Valid() && entry in Entries(chains) && entry.key in m
      modifies entry`val, `m
      ensures Valid() && m == old(m)[entry.key := val] && size == old(size)
    {
      hide And, WellPlaced, Entries, Total, AllLinked, Pow2;
      AllUnique(hash, sizemask, chains);
      ghost var s := Entries(chains);
      entry.val := val;
      m := m[entry.key := val];
      assert m.Keys == old(m.Keys);
    }

    /** dictDelete. The ghost results say which entry went. */
    method Delete(key: Key) returns (ok: bool, ghost h: nat, ghost i: nat)
      requires Valid()
      modifies this, table, Entries(chains)`next
      ensures Valid() && table == old(table) && size == old(size)
      ensures ok == (key in old(m)) && m == old(m) - {key}
      ensures ok ==> h < |old(chains)| && i < |old(chains)[h]| && old(chains)[h][i].key == key
      ensures ok ==> chains == Drop(old(chains), h, i)
      ensures !ok ==> chains == old(chains)
      ensures Entries(chains) <= old(Entries(chains))
    {
      hide And, WellPlaced, Models, Entries, Total, Pow2;
      h, i := 0, 0;
      if size == 0 {
        return false, h, i;
      }
      var bucket := And(hash(key), sizemask);
      MaskBound(hash(key), sizemask);
      assert Linked(table[..][bucket], chains[bucket]);
      var de := table[bucket];
      var prevde: Entry? := null;
      h := bucket;
      while de != null
        invariant i <= |chains[h]| && de == if i == |chains[h]| then null else chains[h][i]
        invariant prevde == if i == 0 then null else chains[h][i - 1]
        invariant forall j :: 0 <= j < i ==> chains[h][j].key != key
        decreases |chains[h]| - i
      {
        if key == de.key {
          Present(h, i);
          Remove(bucket, prevde, de, i);
          return true, h, i;
        }
        prevde, de, i := de, de.next, i + 1;
      }
      Absent(h, key);
      return false, h, i;
    }

    method Remove(h: nat, prevde: Entry?, de: Entry, ghost i: nat)
      requires Valid() && h < |chains| && i < |chains[h]| && de == chains[h][i]
      requires prevde == if i == 0 then null else chains[h][i - 1]
      modifies this, table, Entries(chains)`next
      ensures Valid() && table == old(table) && size == old(size)
      ensures m == old(m) - {de.key} && chains == Drop(old(chains), h, i)
      ensures Entries(chains) <= old(Entries(chains))
    {
      hide And, WellPlaced, Models, Total, AllLinked, Pow2, Entries, Linked;
      Present(h, i);
      ghost var r, n := Drop(chains, h, i), m - {de.key};
      AllUnique(hash, sizemask, chains);
      DropEntries(hash, sizemask, chains, h, i);
      DropPlaced(hash, sizemask, chains, h, i);
      TotalUpdate(chains, h, Without(chains[h], i));
      ModelsDrop(Entries(chains), m, de);
      assert allocated(Entries(r));
      Unlink(hash, sizemask, table, h, prevde, de, chains, i);
      Settle(r, n);
    }

    /** The bookkeeping after an entry has been unlinked. */
    method Settle(ghost r: seq<Chain>, ghost n: map<Key, Val>)
      requires Sized() && |r| == size && used == Total(r) + 1 == |n| + 1
      requires AllLinked(table[..], r) && WellPlaced(hash, sizemask, r) && Models(Entries(r), n)
      modifies `used, `chains, `m
      ensures Valid() && chains == r && m == n
    {
      hide And, WellPlaced, Models, Total, AllLinked, Pow2, Entries;
      assert allocated(Entries(r));
      used := used - 1;
      chains, m := r, n;
    }

    lemma EmptyTable(n: array<Entry?>, mask: nat) returns (r: seq<Chain>)
      requires n.Length == mask + 1 && forall b :: 0 <= b < n.Length ==> n[b] == null
      ensures |r| == n.Length && AllLinked(n[..], r) && WellPlaced(hash, mask, r) && Entries(r) == {}
      ensures r == seq(mask + 1, _ => [])
    {
      hide And;
      r := seq(n.Length, _ => []);
    }

    /** The table seen from its first bucket on. */
    lemma WholeTable()
      requires Valid()
      ensures AllLinked(table[0..], chains[0..]) && Entries(chains[0..]) == Entries(chains)
      ensures used == Total(chains[0..]) && WellPlaced(hash, sizemask, chains) && table.Length == size == |chains|
    {
      hide And, Pow2, WellPlaced;
      assert table[0..] == table[..] && chains[0..] == chains;
    }

    lemma FirstLinked(t: seq<Entry?>, cs: seq<Chain>)
      requires AllLinked(t, cs) && cs != []
      ensures Linked(t[0], cs[0]) && AllLinked(t[1..], cs[1..])
      ensures t[0] == null ==> cs[0] == []
    {
      assert forall b :: 0 < b < |cs| ==> Linked(t[b], cs[b]);
    }

    lemma BucketKeys(mask: nat, cs: seq<Chain>, b: nat, s: set<Entry>)
      requires WellPlaced(hash, mask, cs) && b < |cs| && s <= Entries(cs)
      ensures KeysApart(cs[b]) && UniqueKeys(s + Members(cs[b]))
    {
      AllUnique(hash, mask, cs);
      assert forall i :: 0 <= i < |cs[b]| ==> cs[b][i] in Entries(cs);
    }

    lemma NothingLeft(cs: seq<Chain>)
      requires cs == [] || Total(cs) == 0
      ensures Entries(cs) == {} && Total(cs) == 0 && forall b :: 0 <= b < |cs| ==> cs[b] == []
    {
      forall b: nat | b < |cs|
        ensures cs[b] == []
      {
        TotalZero(cs, b);
      }
    }

    lemma Advance(he: Entry, todo: Chain)
      requires Linked(he, todo) && KeysApart(todo)
      ensures todo != [] && he == todo[0] && he in Members(todo)
      ensures Linked(he.next, todo[1..]) && he !in todo[1..]
    {
    }

    lemma FreshKey(nc: seq<Chain>, h: nat, e: Entry, s: set<Entry>)
      requires UniqueKeys(Entries(nc) + s) && e in s && Entries(nc) !! s && h < |nc|
      ensures forall i :: 0 <= i < |nc[h]| ==> nc[h][i].key != e.key
      ensures e !in Entries(nc)
    {
      assert forall i :: 0 <= i < |nc[h]| ==> nc[h][i] in Entries(nc);
    }
  }

  // ---------------------------------------------------------------- runs

  datatype Op = Insert(key: Key, val: Val) | Update(key: Key, val: Val) | Erase(key: Key) | Lookup(key: Key)

  /** What an operation does to the map, and what it answers: the value found, or none. */
  ghost function After(m: map<Key, Val>, op: Op): map<Key, Val> {
    match op
    case Insert(key, val) => if key in m then m else m[key := val]
    case Update(key, val) => m[key := val]
    case Erase(key) => m - {key}
    case Lookup(key) => m
  }

  ghost function Answer(m: map<Key, Val>, op: Op): Option<Val> {
    if op.Lookup? && op.key in m then Some(m[op.key]) else None
  }

  ghost function AfterAll(m: map<Key, Val>, ops: seq<Op>): map<Key, Val>
    decreases |ops|
  {
    if ops == [] then m else AfterAll(After(m, ops[0]), ops[1..])
  }

  ghost function Answers(m: map<Key, Val>, ops: seq<Op>): seq<Option<Val>>
    decreases |ops|
  {
    if ops == [] then [] else [Answer(m, ops[0])] + Answers(After(m, ops[0]), ops[1..])
  }

  lemma {:induction false} OneMoreOp(m: map<Key, Val>, ops: seq<Op>, op: Op)
    ensures AfterAll(m, ops + [op]) == After(AfterAll(m, ops), op)
    ensures Answers(m, ops + [op]) == Answers(m, ops) + [Answer(AfterAll(m, ops), op)]
    decreases |ops|
  {
    hide After, Answer;
    if ops == [] {
      assert ops + [op] == [op];
    } else {
      assert (ops + [op])[1..] == ops[1..] + [op];
      OneMoreOp(After(m, ops[0]), ops[1..], op);
    }
  }

  lemma NothingDone(m: map<Key, Val>)
    ensures AfterAll(m, []) == m
  {
  }

  lemma {:induction false} LengthOfAnswers(m: map<Key, Val>, ops: seq<Op>)
    ensures |Answers(m, ops)| == |ops|
    decreases |ops|
  {
    if ops != [] {
      LengthOfAnswers(After(m, ops[0]), ops[1..]);
    }
  }

  /**
   * At every place of a run: an insertion adds a new key and leaves an old one alone, an update sets its key either
   * way, an erasure removes it, a lookup answers with its value or none; no other key is touched.
   */
  lemma {:induction false} RunAt(m: map<Key, Val>, ops: seq<Op>, i: nat)
    requires i < |ops|
    ensures |Answers(m, ops)| == |ops|
    ensures var before, after, answer := AfterAll(m, ops[..i]), AfterAll(m, ops[..i + 1]), Answers(m, ops)[i];
      match ops[i]
      case Insert(key, val) => answer == None && after == if key in before then before else before[key := val]
      case Update(key, val) => answer == None && after == before[key := val]
      case Erase(key) => answer == None && after == before - {key}
      case Lookup(key) => after == before && answer == if key in before then Some(before[key]) else None
    ensures AfterAll(m, []) == m && AfterAll(m, ops[..|ops|]) == AfterAll(m, ops)
    decreases |ops|
  {
    hide AfterAll, Answers;
    var front, last := ops[..|ops| - 1], ops[|ops| - 1];
    assert ops == front + [last];
    OneMoreOp(m, front, last);
    if i < |front| {
      RunAt(m, front, i);
      assert front[..i] == ops[..i] && front[..i + 1] == ops[..i + 1];
    } else {
      LengthOfAnswers(m, front);
      assert ops[..i] == front && ops[..i + 1] == ops;
    }
    NothingDone(m);
    assert ops[..|ops|] == ops;
  }

  /** How many buckets there are after an operation, and after a run. */
  ghost function Buckets(size: nat, m: map<Key, Val>, op: Op): nat {
    if op.Erase? || op.Lookup? then size else if size == 0 then 4 else if |m| == size then 2 * size else size
  }

  ghost function BucketsAfter(size: nat, m: map<Key, Val>, ops: seq<Op>): nat
    decreases |ops|
  {
    if ops == [] then size else BucketsAfter(Buckets(size, m, ops[0]), After(m, ops[0]), ops[1..])
  }

  /** The map never holds more than `most` keys during a run. */
  ghost predicate AtMost(most: nat, m: map<Key, Val>, ops: seq<Op>)
    decreases |ops|
  {
    |m| <= most && (ops != [] ==> AtMost(most, After(m, ops[0]), ops[1..]))
  }

  /** Buckets are never given back, and a run makes at most twice as many as the largest number of keys, or four. */
  lemma {:induction false} BucketsInProportion(size: nat, m: map<Key, Val>, ops: seq<Op>, most: nat)
    requires AtMost(most, m, ops)
    ensures var n := BucketsAfter(size, m, ops); n == size || (size < n && (n == 4 || n <= 2 * most))
    decreases |ops|
  {
    hide After;
    if ops == [] {
    } else {
      BucketsInProportion(Buckets(size, m, ops[0]), After(m, ops[0]), ops[1..], most);
    }
  }

  /** The map stays below the bucket limit: the size after each operation counts, not their number. */
  ghost predicate Small(m: map<Key, Val>, ops: seq<Op>)
    decreases |ops|
  {
    |m| < MAX_BUCKETS && (ops != [] ==> Small(After(m, ops[0]), ops[1..]))
  }

  lemma Counted(t: Table)
    requires t.Valid()
    ensures t.used == |t.m| <= t.size
  {
    hide Pow2, AllLinked, WellPlaced, Models, Entries;
  }

  method Perform(t: Table, op: Op) returns (answer: Option<Val>)
    requires t.Valid() && t.Room() && t.size <= MAX_BUCKETS
    modifies t, t.table, Entries(t.chains)
    ensures t.Valid() && t.size <= MAX_BUCKETS
    ensures t.m == After(old(t.m), op) && answer == Answer(old(t.m), op)
    ensures t.size == Buckets(old(t.size), old(t.m), op)
    ensures t.table == old(t.table) || fresh(t.table)
    ensures forall e :: e in Entries(t.chains) ==> e in old(Entries(t.chains)) || fresh(e)
  {
    hide Table.Valid, Entries;
    assert allocated(Entries(t.chains));
    Counted(t);
    answer := None;
    match op
    case Insert(key, val) =>
      var ok := t.Add(key, val);
    case Update(key, val) =>
      var added := t.Replace(key, val);
    case Erase(key) =>
      var ok; ghost var h; ghost var i;
      ok, h, i := t.Delete(key);
    case Lookup(key) =>
      var he := t.Find(key);
      answer := if he == null then None else Some(he.val);
  }

  lemma BucketLimit()
    ensures Pow2(31) == MAX_BUCKETS
  {
    assert Pow2(8) == 0x100 && Pow2(16) == 0x1_0000 && Pow2(24) == 0x100_0000;
  }

  /** A full table of fewer entries than the limit can double: its size is a power of two below the limit. */
  lemma Roomy(t: Table)
    requires t.Valid() && t.size <= MAX_BUCKETS && |t.m| < MAX_BUCKETS
    ensures t.Room()
  {
    hide Pow2, AllLinked, WellPlaced, Models, Total, Entries;
    BucketLimit();
    t.PowersApart(31, t.bits);
    t.PowersApart(t.bits, 31);
  }

  /** Any sequence of operations: the table answers and ends like the finite map. */
  method RunOps(t: Table, ops: seq<Op>) returns (answers: seq<Option<Val>>)
    requires t.Valid() && t.size <= MAX_BUCKETS && Small(t.m, ops)
    modifies t, t.table, Entries(t.chains)
    ensures t.Valid() && t.m == AfterAll(old(t.m), ops) && answers == Answers(old(t.m), ops)
    ensures t.size <= MAX_BUCKETS && t.size == BucketsAfter(old(t.size), old(t.m), ops)
    ensures t.table == old(t.table) || fresh(t.table)
    ensures forall e :: e in Entries(t.chains) ==> e in old(Entries(t.chains)) || fresh(e)
    decreases |ops|
  {
    hide Table.Valid, Entries, After, Answer, Buckets;
    answers := [];
    if ops != [] {
      Roomy(t);
      var answer := Perform(t, ops[0]);
      var rest := RunOps(t, ops[1..]);
      answers := [answer] + rest;
    }
  }

  // ---------------------------------------------------------------- iteration

  ghost predicate Suffix(rest: Chain, c: Chain) {
    |rest| <= |c| && rest == c[|c| - |rest|..]
  }

  class Cursor {
    const ht: Table
    var index: int
    var entry: Entry?
    var nextEntry: Entry?
    /** What is still to come of the current bucket, and in all. */
    ghost var rest: Chain
    ghost var todo: Chain

    ghost predicate Valid()
      reads this, ht
    {
      && -1 <= index
      && (entry == null ==> rest == [])
      && (entry != null ==>
            && 0 <= index < |ht.chains|
            && Suffix(rest, ht.chains[index])
            && nextEntry == if rest == [] then null else rest[0])
      && todo == rest + Flat(if index < |ht.chains| then ht.chains[index + 1..] else [])
    }

    /** The entry returned last is still in the table, right before what is to come. */
    ghost predicate Standing()
      requires Valid()
      reads this, ht
    {
      && entry != null
      && var c := ht.chains[index];
      |rest| < |c| && c[|c| - |rest| - 1] == entry
    }

    /** dictInitIterator */
    constructor (ht: Table)
      ensures Valid() && this.ht == ht && index == -1 && entry == null && todo == Flat(ht.chains)
    {
      this.ht := ht;
      index, entry, nextEntry := -1, null, null;
      rest := [];
      todo := Flat(ht.chains);
      new;
      assert ht.chains[0..] == ht.chains;
      assert [] + Flat(ht.chains) == Flat(ht.chains);
    }

    /** `entry` is the first of what is still to come of the current bucket, or null. */
    ghost predicate AtRest()
      reads this, ht
    {
      && 0 <= index < |ht.chains|
      && Suffix(rest, ht.chains[index])
      && entry == (if rest == [] then null else rest[0])
      && todo == rest + Flat(ht.chains[index + 1..])
    }

    method LoadBucket()
      requires ht.Valid() && 0 <= index < ht.size && todo == Flat(ht.chains[index..])
      modifies `entry, `rest
      ensures AtRest() && ht.Valid()
    {
      hide And, WellPlaced, Models, Entries, Total, Pow2;
      entry := ht.table[index];
      rest := ht.chains[index];
      assert Linked(ht.table[..][index], rest);
      NextBucket(ht.chains, index);
    }

    method Take()
      requires AtRest() && ht.Valid() && entry != null
      modifies `nextEntry, `rest, `todo
      ensures ht.Valid() && Valid() && Standing()
      ensures old(todo) != [] && entry == old(todo)[0] && todo == old(todo)[1..]
    {
      hide And, WellPlaced, Models, Entries, Total, Pow2, Flat;
      StepBack(ht.chains[index], rest);
      assert Linked(ht.table[..][index], ht.chains[index]);
      assert allocated(Entries(ht.chains));
      nextEntry := entry.next;
      rest, todo := rest[1..], todo[1..];
    }

    lemma BetweenBuckets()
      requires Valid() && entry == null
      ensures todo == Flat(if index + 1 < |ht.chains| then ht.chains[index + 1..] else [])
      ensures Flat([]) == [] && rest == [] && index >= -1
    {
      var later := if index < |ht.chains| then ht.chains[index + 1..] else [];
      assert [] + Flat(later) == Flat(later);
      assert index + 1 >= |ht.chains| ==> later == [];
    }

    lemma Sizes()
      requires ht.Valid()
      ensures ht.size == |ht.chains|
    {
    }

    /** The first half of one turn of dictNext's loop. */
    method Move() returns (past: bool)
      requires Valid() && ht.Valid()
      modifies this
      ensures ht.Valid() && todo == old(todo)
      ensures past ==> Valid() && todo == [] && index >= ht.size && index == old(index) + 1
      ensures !past ==> AtRest() && index == old(index) + if old(entry) == null then 1 else 0
    {
      hide Table.Valid, Flat, Suffix, Valid, AtRest, Entries;
      Sizes();
      past := false;
      assert allocated(Entries(ht.chains));
      if entry == null {
        BetweenBuckets();
        index := index + 1;
        if index >= ht.size {
          PastTheEnd();
          return true;
        }
        LoadBucket();
      } else {
        Follow();
      }
    }

    /** The rest of the current bucket. */
    method Follow()
      requires Valid() && entry != null
      modifies `entry
      ensures AtRest()
    {
      hide Flat, Suffix;
      entry := nextEntry;
    }

    lemma PastTheEnd()
      requires index >= |ht.chains| && entry == null && rest == [] && todo == []
      ensures Valid()
    {
    }

    /** dictNext */
    method Next() returns (e: Entry?)
      requires Valid() && ht.Valid() && ht.size <= INT_MAX && index < INT_MAX
      modifies this
      ensures ht.Valid() && Valid() && index <= if old(index) < ht.size then ht.size else old(index) + 1
      ensures e != null ==> index < ht.size
      ensures old(todo) == [] ==> e == null && todo == []
      ensures old(todo) != [] ==> e == old(todo)[0] == entry && todo == old(todo)[1..] && Standing()
    {
      hide Table.Valid, Flat, Suffix, Valid, AtRest, Standing;
      Sizes();
      while true
        invariant Valid() && ht.Valid() && todo == old(todo)
        invariant old(index) <= index && (index < ht.size || index == old(index))
        decreases ht.size - index, entry != null
      {
        var past := Move();
        if past {
          break;
        }
        AtRestValid();
        if entry != null {
          Take();
          return entry;
        }
      }
      return null;
    }

    lemma AtRestValid()
      requires AtRest()
      ensures 0 <= index < |ht.chains| && (entry == null ==> Valid())
    {
      hide Flat, Suffix;
    }
  }

  lemma {:induction false} NothingMoved(hash: Key -> nat, mask: nat, r: seq<Chain>, cs: seq<Chain>)
    requires forall b :: 0 <= b < |cs| ==> cs[b] == []
    ensures Moved(hash, mask, r, Flat(cs)) == r
  {
    if cs == [] {
    } else {
      NothingMoved(hash, mask, r, cs[1..]);
      assert cs[0] + Flat(cs[1..]) == Flat(cs[1..]);
    }
  }

  lemma NextBucket(chains: seq<Chain>, b: nat)
    requires b < |chains|
    ensures Flat(chains[b..]) == chains[b] + Flat(chains[b + 1..])
  {
    assert chains[b..][1..] == chains[b + 1..];
  }

  lemma StepBack(c: Chain, rest: Chain)
    requires Suffix(rest, c) && rest != []
    ensures Suffix(rest[1..], c) && c[|c| - |rest|] == rest[0]
    ensures |rest| > 1 ==> c[|c| - |rest| + 1] == rest[1]
  {
  }

  lemma DropBehind(chains: seq<Chain>, b: nat, i: nat, rest: Chain)
    requires b < |chains| && i < |chains[b]| && Suffix(rest, chains[b]) && i == |chains[b]| - |rest| - 1
    ensures Suffix(rest, Drop(chains, b, i)[b]) && Drop(chains, b, i)[b + 1..] == chains[b + 1..]
  {
    var c := chains[b];
    assert Without(c, i)[i..] == c[i + 1..];
  }

  /** Deleting the entry just returned leaves the iterator valid and what it has still to return unchanged. */
  method DeleteReturned(it: Cursor)
    requires it.ht.Valid() && it.Valid() && it.Standing()
    modifies it.ht, it.ht.table, Entries(it.ht.chains)`next
    ensures it.ht.Valid() && it.Valid() && it.todo == old(it.todo)
    ensures it.ht.m == old(it.ht.m) - {it.entry.key} && Entries(it.ht.chains) <= old(Entries(it.ht.chains))
    ensures it.ht.table == old(it.ht.table) && it.ht.size == old(it.ht.size)
  {
    hide And, WellPlaced, Models, Total, Pow2, AllLinked, Linked, Flat, Entries, Without;
    ghost var cs, b := it.ht.chains, it.index;
    ghost var i := |cs[b]| - |it.rest| - 1;
    it.ht.Present(b, i);
    var ok; ghost var h; ghost var j;
    ok, h, j := it.ht.Delete(it.entry.key);
    OnePosition(it.ht.hash, old(it.ht.sizemask), cs, b, i, h, j);
    DropBehind(cs, b, i, it.rest);
    DropEntries(it.ht.hash, old(it.ht.sizemask), cs, b, i);
  }

  ghost function Keys(c: Chain): set<Key> {
    set e | e in c :: e.key
  }

  lemma OneMore(m: map<Key, Val>, seen: Chain, e: Entry, doomed: set<Key>)
    ensures m - doomed * Keys(seen + [e])
         == m - doomed * Keys(seen) - if e.key in doomed then {e.key} else {}
  {
    assert Keys(seen + [e]) == Keys(seen) + {e.key};
  }

  lemma Covered(t: Table)
    requires t.Valid()
    ensures t.m.Keys == Keys(Flat(t.chains)) && Keys([]) == {}
  {
    hide And, Flat, AllLinked, WellPlaced, Total, Entries, Pow2;
    var f, s := Flat(t.chains), Entries(t.chains);
    EveryEntryOnce(t.hash, t.sizemask, t.chains);
    assert forall e :: e in f <==> e in multiset(f);
    assert forall e :: e in s <==> e in multiset(s);
    assert t.m.Keys <= Keys(f) by {
      forall k | k in t.m
        ensures k in Keys(f)
      {
        var e :| e in s && e.key == k;
        assert e in multiset(f);
      }
    }
  }

  /** One turn of a walk over the table: perhaps delete the entry just met, then ask for the next one. */
  method VisitOne(it: Cursor, e: Entry, doomed: set<Key>) returns (next: Entry?)
    requires it.ht.Valid() && it.Valid() && it.Standing() && it.entry == e && it.index < it.ht.size < INT_MAX
    modifies it, it.ht, it.ht.table, Entries(it.ht.chains)`next
    ensures it.ht.Valid() && it.Valid()
    ensures it.ht.table == old(it.ht.table) && Entries(it.ht.chains) <= old(Entries(it.ht.chains))
    ensures it.ht.m == old(it.ht.m) - if e.key in doomed then {e.key} else {}
    ensures it.ht.size == old(it.ht.size) && it.index <= it.ht.size
    ensures old(it.todo) == [] ==> next == null && it.todo == []
    ensures old(it.todo) != [] ==> next == old(it.todo)[0] && it.todo == old(it.todo)[1..]
    ensures next != null ==> it.Standing() && it.entry == next && it.index < it.ht.size
  {
    hide Table.Valid, Cursor.Valid, Cursor.Standing, Entries, Flat, Keys;
    if e.key in doomed {
      DeleteReturned(it);
    }
    next := it.Next();
  }

  lemma Onwards(seen: Chain, todo: Chain)
    ensures todo == [] ==> seen + todo == seen
    ensures todo != [] ==> seen + todo == seen + [todo[0]] + todo[1..]
  {
  }

  /** A walk over the table that deletes, as it goes, the entries whose keys are doomed. */
  method VisitAll(t: Table, doomed: set<Key>) returns (seen: Chain)
    requires t.Valid() && t.size < INT_MAX
    modifies t, t.table, Entries(t.chains)`next
    ensures t.Valid() && seen == old(Flat(t.chains)) && t.m == old(t.m) - doomed
  {
    hide Table.Valid, Cursor.Valid, Cursor.Standing, Entries, Flat, Keys;
    Covered(t);
    assert allocated(Entries(t.chains));
    var it := new Cursor(t);
    seen := [];
    ghost var all := Flat(t.chains);
    var e := it.Next();
    while e != null
      invariant it.ht == t && t.Valid() && it.Valid() && t.size == old(t.size)
      invariant e != null ==> it.Standing() && it.entry == e && it.index < t.size
      invariant e == null ==> it.todo == []
      invariant if e == null then seen == all else seen + [e] + it.todo == all
      invariant t.m == old(t.m) - doomed * Keys(seen)
      invariant t.table == old(t.table) && Entries(t.chains) <= old(Entries(t.chains))
      decreases |it.todo|, e != null
    {
      OneMore(old(t.m), seen, e, doomed);
      seen := seen + [e];
      Onwards(seen, it.todo);
      e := VisitOne(it, e, doomed);
    }
  }

  /** The iterator meets every entry of the table exactly once. */
  lemma EveryEntryOnce(hash: Key -> nat, mask: nat, chains: seq<Chain>)
    requires WellPlaced(hash, mask, chains)
    ensures multiset(Flat(chains)) == multiset(Entries(chains))
  {
    OnceFrom(hash, mask, chains, 0);
    assert chains[0..] == chains;
  }

  lemma {:induction false} OnceFrom(hash: Key -> nat, mask: nat, chains: seq<Chain>, b: nat)
    requires WellPlaced(hash, mask, chains) && b <= |chains|
    ensures multiset(Flat(chains[b..])) == multiset(Entries(chains[b..]))
    decreases |chains| - b
  {
    if b == |chains| {
      assert Entries(chains[b..]) == {};
    } else {
      var t := chains[b..];
      assert t[1..] == chains[b + 1..];
      OnceFrom(hash, mask, chains, b + 1);
      FirstBucket(t);
      BucketApart(hash, mask, chains, b);
      OnceInChain(chains[b]);
    }
  }

  lemma {:induction false} OnceInChain(c: Chain)
    requires KeysApart(c)
    ensures multiset(c) == multiset(Members(c))
  {
    if c == [] {
      assert Members(c) == {};
    } else {
      OnceInChain(c[1..]);
      assert c == [c[0]] + c[1..];
      assert Members(c) == {c[0]} + Members(c[1..]);
    }
  }
}
