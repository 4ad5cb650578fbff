/** Reversal of sequences, and powers of two. */
module Sequences {
  function Reversed<T>(q: seq<T>): (r: seq<T>)
    ensures |r| == |q|
  {
    if q == [] then [] else Reversed(q[1..]) + [q[0]]
  }

  /** Reversal mirrors positions. */
  lemma {:induction false} ReversedAt<T>(q: seq<T>, k: nat)
    ensures k < |q| ==> Reversed(q)[k] == q[|q| - 1 - k]
  {
    if q == [] {
    } else {
      ReversedAt(q[1..], k);
    }
  }

  lemma ReversedIs<T>(q: seq<T>, r: seq<T>)
    requires |r| == |q| && forall k :: 0 <= k < |q| ==> r[k] == q[|q| - 1 - k]
    ensures r == Reversed(q)
  {
    forall k | 0 <= k < |q|
      ensures r[k] == Reversed(q)[k]
    {
      ReversedAt(q, k);
    }
  }

  /** Reversing twice restores the sequence. */
  lemma ReversedTwice<T>(q: seq<T>)
    ensures Reversed(Reversed(q)) == q
  {
    forall k: nat | k < |q|
      ensures q[k] == Reversed(q)[|q| - 1 - k]
    {
      ReversedAt(q, |q| - 1 - k);
    }
    ReversedIs(Reversed(q), q);
  }

  lemma {:induction false} ReversedSplit<T>(p: seq<T>, q: seq<T>)
    ensures Reversed(p + q) == Reversed(q) + Reversed(p)
  {
    if p == [] {
      assert p + q == q;
    } else {
      ReversedSplit(p[1..], q);
      assert (p + q)[1..] == p[1..] + q;
    }
  }

  ghost function Pow2(n: nat): (p: nat)
    ensures p > 0
  {
    if n == 0 then 1 else 2 * Pow2(n - 1)
  }
}
