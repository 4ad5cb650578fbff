/** Knuth-Morris-Pratt search as in kmp.c: the failure table and the scan that uses it. */
module Kmp {
  import opened Bytes

  /** The size of the table that the search keeps on its stack. */
  const TABLE_SIZE: nat := 20

  /** The first k characters of p[..n] are also its last k, and k is shorter than n. */
  ghost predicate Border(p: CString, n: nat, k: nat)
    requires n <= |p|
  {
    k < n && p[..k] == p[n - k..n]
  }

  ghost predicate LongestBorder(p: CString, n: nat, k: nat)
    requires n <= |p|
  {
    Border(p, n, k) && forall j: nat :: Border(p, n, j) ==> j <= k
  }

  ghost predicate Table(p: CString, next: seq<nat>, n: nat)
    requires n <= |p| && n <= |next|
  {
    forall i :: 0 <= i < n ==> LongestBorder(p, i + 1, next[i])
  }

  ghost predicate OccursAt(text: CString, p: CString, i: nat) {
    i + |p| <= |text| && text[i..i + |p|] == p
  }

  /** The borders of a border are the shorter borders of the whole. */
  lemma BorderOfBorder(p: CString, n: nat, k: nat, j: nat)
    requires n <= |p| && Border(p, n, k) && j < k
    ensures Border(p, n, j) <==> Border(p, k, j)
  {
    assert p[k - j..k] == p[..k][k - j..];
    assert p[n - j..n] == p[n - k..n][k - j..];
  }

  lemma BorderGrows(p: CString, n: nat, k: nat)
    requires n < |p| && k < n
    ensures Border(p, n + 1, k + 1) <==> Border(p, n, k) && p[k] == p[n]
  {
    assert p[..k + 1] == p[..k] + [p[k]];
    assert p[n - k..n + 1] == p[n - k..n] + [p[n]];
  }

  /** No border longer than k can be extended by p[n]. */
  ghost predicate Blocked(p: CString, n: nat, k: nat)
    requires n < |p|
  {
    forall j: nat :: Border(p, n, j) && p[j] == p[n] ==> j <= k
  }

  /** make_next. The ghost result counts loop turns. */
  method MakeNext(pattern: CString, next: array<nat>) returns (ghost steps: nat)
    requires next.Length > 0 && next.Length >= |pattern|
    modifies next
    ensures Table(pattern, next[..], |pattern|)
    ensures steps <= 2 * |pattern|
  {
    hide Border, LongestBorder, Blocked, Table;
    var patLen := |pattern|;
    var prefixTail: nat := 0;
    steps := 0;
    next[0] := 0;
    FirstEntry(pattern, next[..]);
    var subfixTail: nat := 1;
    while subfixTail < patLen
      invariant 1 <= subfixTail <= if patLen > 0 then patLen else 1
      invariant patLen > 0 ==> Table(pattern, next[..], subfixTail) && prefixTail == next[subfixTail - 1]
      invariant patLen == 0 ==> Table(pattern, next[..], 0)
      invariant steps + prefixTail <= 2 * (subfixTail - 1)
    {
      ghost var table := next[..];
      Entry(pattern, table, subfixTail, subfixTail - 1);
      while prefixTail > 0 && pattern[subfixTail] != pattern[prefixTail]
        invariant next[..] == table && prefixTail < subfixTail
        invariant Border(pattern, subfixTail, prefixTail) && Blocked(pattern, subfixTail, prefixTail)
        invariant steps + prefixTail <= 2 * (subfixTail - 1)
      {
        ghost var k := prefixTail;
        prefixTail := next[prefixTail - 1];
        Entry(pattern, table, subfixTail, k - 1);
        Retreat(pattern, subfixTail, k, prefixTail);
        steps := steps + 1;
      }
      Extend(pattern, subfixTail, prefixTail);
      if pattern[subfixTail] == pattern[prefixTail] {
        prefixTail := prefixTail + 1;
      }
      next[subfixTail] := prefixTail;
      assert next[..] == table[subfixTail := prefixTail];
      TableGrows(pattern, table, subfixTail, prefixTail);
      steps := steps + 1;
      subfixTail := subfixTail + 1;
    }
  }

  lemma FirstEntry(p: CString, table: seq<nat>)
    requires |table| > 0 && table[0] == 0
    ensures Table(p, table, if p == [] then 0 else 1)
  {
  }

  lemma Entry(p: CString, table: seq<nat>, n: nat, i: nat)
    requires n <= |table| && n <= |p| && Table(p, table, n) && i < n
    ensures LongestBorder(p, i + 1, table[i]) && table[i] <= i
    ensures i + 1 < |p| ==> Border(p, i + 1, table[i]) && Blocked(p, i + 1, table[i])
  {
  }

  lemma TableGrows(p: CString, table: seq<nat>, n: nat, v: nat)
    requires n < |table| && n < |p| && Table(p, table, n) && LongestBorder(p, n + 1, v)
    ensures Table(p, table[n := v], n + 1)
  {
  }

  /** Falling back from a border to its own longest border skips no border that could be extended. */
  lemma Retreat(p: CString, n: nat, k: nat, k': nat)
    requires n < |p| && k < n && Border(p, n, k) && LongestBorder(p, k, k') && p[k] != p[n] && Blocked(p, n, k)
    ensures k' < k && Border(p, n, k') && Blocked(p, n, k')
  {
    BorderOfBorder(p, n, k, k');
    forall j: nat | Border(p, n, j) && p[j] == p[n]
      ensures j <= k'
    {
      BorderOfBorder(p, n, k, j);
    }
  }

  lemma Extend(p: CString, n: nat, k: nat)
    requires 0 < n < |p| && k < n && Border(p, n, k) && Blocked(p, n, k) && (k == 0 || p[k] == p[n])
    ensures LongestBorder(p, n + 1, if p[n] == p[k] then k + 1 else k)
  {
    BorderGrows(p, n, k);
    var m, top := n + 1, if p[n] == p[k] then k + 1 else k;
    forall j: nat
      ensures Border(p, m, j) ==> j <= top
    {
      if 0 < j <= n {
        BorderGrows(p, n, j - 1);
      }
    }
  }

  /** The n characters before t match, and no occurrence starts before them. */
  ghost predicate Scanned(text: CString, p: CString, t: nat, n: nat)
    requires t <= |text|
  {
    && n <= t && n <= |p|
    && text[t - n..t] == p[..n]
    && forall i: nat :: i < t - n ==> !OccursAt(text, p, i)
  }

  /** kmp: the place of the first occurrence, or -1. The ghost result counts loop turns. */
  method Search(text: CString, pattern: CString) returns (at: int, ghost steps: nat)
    requires |pattern| <= TABLE_SIZE
    ensures at >= 0 ==> pattern != [] && OccursAt(text, pattern, at)
    ensures forall i :: 0 <= i < at ==> !OccursAt(text, pattern, i)
    ensures at < 0 ==> at == -1 && (pattern == [] || forall i: nat :: !OccursAt(text, pattern, i))
    ensures steps <= 2 * |text|
  {
    hide Border, LongestBorder, Blocked, Table;
    var next := new nat[TABLE_SIZE](_ => 0);
    var t: nat, p: nat := 0, 0;
    steps := 0;
    var patLen := |pattern|;
    ghost var work := MakeNext(pattern, next);
    ghost var table := next[..];
    while At(text, t) != 0
      invariant p <= t <= |text| && (if pattern == [] then p == 0 else p < |pattern|)
      invariant next[..] == table && (pattern == [] || Scanned(text, pattern, t, p))
      invariant steps + p <= 2 * t
      decreases 2 * |text| - 2 * t + p
    {
      steps := steps + 1;
      if At(text, t) != At(pattern, p) {
        if p == 0 {
          t := t + 1;
        } else {
          Entry(pattern, table, |pattern|, p - 1);
          Shift(text, pattern, t, p, next[p - 1]);
          p := next[p - 1];
        }
      } else {
        assert text[t - p..t + 1] == text[t - p..t] + [text[t]];
        assert pattern[..p + 1] == pattern[..p] + [pattern[p]];
        p, t := p + 1, t + 1;
        if p == patLen {
          return t - patLen, steps;
        }
      }
    }
    return -1, steps;
  }

  /** After a mismatch no occurrence starts before the one that the longest border allows. */
  lemma Shift(text: CString, p: CString, t: nat, n: nat, k: nat)
    requires 0 < n <= t < |text| && n < |p| && k < n && text[t] != p[n] && LongestBorder(p, n, k)
    requires Scanned(text, p, t, n)
    ensures Scanned(text, p, t, k)
  {
    assert text[t - k..t] == text[t - n..t][n - k..];
    assert p[n - k..n] == p[..n][n - k..];
    forall i: nat | t - n <= i < t - k
      ensures !OccursAt(text, p, i)
    {
      Misses(text, p, t, n, k, i);
    }
  }

  lemma Misses(text: CString, p: CString, t: nat, n: nat, k: nat, i: nat)
    requires k < n <= t < |text| && n < |p| && text[t] != p[n] && LongestBorder(p, n, k)
    requires text[t - n..t] == p[..n] && t - n <= i < t - k
    ensures !OccursAt(text, p, i)
  {
    var m := t - i;
    if i == t - n {
      assert i + |p| <= |text| ==> text[i..i + |p|][n] == text[t];
    } else {
      assert !Border(p, n, m);
      assert p[n - m..n] == p[..n][n - m..] == text[t - n..t][n - m..] == text[i..t];
      assert i + |p| <= |text| ==> text[i..i + |p|][..m] == text[i..t];
    }
  }
}
