/** Integers and their decimal text: string2ll (read.c), sdsll2str and sdsull2str (sds.c),
    countDigits (hiredis.c). The methods are proved against one definition of decimal text. */
module IntText {
  import opened Bytes
  import opened Sequences

  const MINUS: Byte := 45
  const ZERO: Byte := 48

  predicate InI64(v: int) {
    LLONG_MIN <= v <= LLONG_MAX
  }

  predicate IsDigit(b: Byte) {
    48 <= b <= 57
  }

  /** The decimal digits of a natural number, most significant first. */
  function Digits(v: nat): (s: seq<Byte>)
    ensures |s| >= 1
    ensures forall i :: 0 <= i < |s| ==> IsDigit(s[i])
  {
    if v < 10 then [48 + v] else Digits(v / 10) + [48 + v % 10]
  }

  /** The canonical decimal text of an integer. */
  function Decimal(v: int): (s: seq<Byte>)
    ensures |s| >= 1
    ensures forall i :: 0 <= i < |s| ==> IsDigit(s[i]) || s[i] == MINUS
  {
    if v < 0 then [MINUS] + Digits(-v) else Digits(v)
  }

  /** The signed 64-bit integer whose canonical text is `s`, if there is one. */
  ghost function ParseInt(s: seq<Byte>): (r: Option<int>)
    ensures r.Some? ==> InI64(r.value) && Decimal(r.value) == s
    ensures r.None? ==> forall v :: InI64(v) ==> Decimal(v) != s
  {
    if v :| InI64(v) && Decimal(v) == s then Some(v) else None
  }

  lemma DigitsAppend(v: nat, d: nat)
    requires v > 0 && d < 10
    ensures Digits(v * 10 + d) == Digits(v) + [48 + d]
  {
    assert (v * 10 + d) / 10 == v;
  }

  lemma {:induction false} LeadingZero(v: nat)
    ensures Digits(v)[0] == ZERO <==> v == 0
  {
    if v < 10 {
    } else {
      LeadingZero(v / 10);
    }
  }

  lemma {:induction false} DigitsInjective(v: nat, w: nat)
    requires Digits(v) == Digits(w)
    ensures v == w
  {
    if v < 10 || w < 10 {
    } else {
      assert Digits(v)[..|Digits(v)| - 1] == Digits(v / 10);
      assert Digits(w)[..|Digits(w)| - 1] == Digits(w / 10);
      assert Digits(v)[|Digits(v)| - 1] == 48 + v % 10;
      assert Digits(w)[|Digits(w)| - 1] == 48 + w % 10;
      DigitsInjective(v / 10, w / 10);
    }
  }

  lemma DecimalInjective(v: int, w: int)
    requires Decimal(v) == Decimal(w)
    ensures v == w
  {
    assert v < 0 <==> Decimal(v)[0] == MINUS;
    assert w < 0 <==> Decimal(w)[0] == MINUS;
    if v < 0 {
      assert Decimal(v)[1..] == Digits(-v) && Decimal(w)[1..] == Digits(-w);
      DigitsInjective(-v, -w);
    } else {
      DigitsInjective(v, w);
    }
  }

  /** Printing and reading back is the identity on the whole signed 64-bit range. */
  lemma PrintThenParse(v: int)
    requires InI64(v)
    ensures ParseInt(Decimal(v)) == Some(v)
  {
    DecimalInjective(ParseInt(Decimal(v)).value, v);
  }

  /** A number whose digits start with those of `v` is at least `v`, and ten times it if longer. */
  lemma {:induction false} PrefixGrows(v: nat, tail: seq<Byte>, w: nat)
    requires v > 0 && Digits(w) == Digits(v) + tail
    ensures w >= v
    ensures |tail| > 0 ==> w >= 10 * v
    decreases |tail|
  {
    if tail == [] {
      assert Digits(v) + tail == Digits(v);
      DigitsInjective(v, w);
    } else {
      var n := |tail| - 1;
      assert w >= 10;
      assert Digits(w / 10) == Digits(w)[..|Digits(w)| - 1] == Digits(v) + tail[..n];
      PrefixGrows(v, tail[..n], w / 10);
    }
  }

  ghost function Pow10(n: nat): nat {
    if n == 0 then 1 else 10 * Pow10(n - 1)
  }

  lemma {:induction false} DigitsLength(v: nat, k: nat)
    requires k > 0
    ensures |Digits(v)| <= k <==> v < Pow10(k)
  {
    if k == 1 {
      assert Pow10(1) == 10 * Pow10(0) == 10;
    } else if v < 10 {
      assert Pow10(k) == 10 * Pow10(k - 1);
      PowPositive(k - 1);
    } else {
      DigitsLength(v / 10, k - 1);
    }
  }

  lemma {:induction false} PowPositive(k: nat)
    ensures Pow10(k) >= 1
  {
    if k == 0 {
    } else {
      PowPositive(k - 1);
    }
  }

  lemma SixtyFourBitDigits(v: nat)
    requires v <= ULLONG_MAX
    ensures |Digits(v)| <= 20
    ensures v <= LLONG_MAX + 1 ==> |Digits(v)| <= 19
  {
    assert Pow10(5) == 100000 by {
      assert Pow10(1) == 10 && Pow10(2) == 100 && Pow10(3) == 1000 && Pow10(4) == 10000;
    }
    assert Pow10(10) == 10000000000 by {
      assert Pow10(6) == 1000000 && Pow10(7) == 10000000 && Pow10(8) == 100000000 && Pow10(9) == 1000000000;
    }
    assert Pow10(15) == 1000000000000000 by {
      assert Pow10(11) == 100000000000 && Pow10(12) == 1000000000000
          && Pow10(13) == 10000000000000 && Pow10(14) == 100000000000000;
    }
    assert Pow10(19) == 10000000000000000000 && Pow10(20) == 100000000000000000000 by {
      assert Pow10(16) == 10000000000000000 && Pow10(17) == 100000000000000000 && Pow10(18) == 1000000000000000000;
    }
    DigitsLength(v, 20);
    DigitsLength(v, 19);
  }

  /** What every canonical decimal looks like. */
  lemma DecimalShape(v: int)
    ensures var s, neg := Decimal(v), (if v < 0 then 1 else 0);
            && neg < |s| && (neg == 1 <==> s[0] == MINUS)
            && (s[neg] == ZERO ==> |s| == 1)
            && forall i :: neg <= i < |s| ==> IsDigit(s[i])
  {
    LeadingZero(if v < 0 then -v else v);
  }

  lemma NotDecimal(s: seq<Byte>, neg: nat)
    requires neg <= 1 && (neg == 1 <==> s != [] && s[0] == MINUS)
    requires neg < |s| ==> (s[neg] == ZERO && |s| > 1) || exists i :: neg <= i < |s| && !IsDigit(s[i])
    ensures ParseInt(s) == None
  {
    forall v | InI64(v)
      ensures Decimal(v) != s
    {
      DecimalShape(v);
    }
  }

  /** s[neg..k] is the canonical text of the accumulator value v > 0. */
  ghost predicate Scanned(s: seq<Byte>, neg: nat, k: nat, v: nat) {
    neg <= 1 && neg < k <= |s| && (neg == 1 <==> s[0] == MINUS) && v > 0 && Digits(v) == s[neg..k]
  }

  /** A digit prefix that already exceeds the range rules the whole text out. */
  lemma TooLarge(s: seq<Byte>, neg: nat, k: nat, v: nat)
    requires Scanned(s, neg, k, v)
    requires v > LLONG_MAX + neg || (k < |s| && 10 * v > ULLONG_MAX)
    ensures ParseInt(s) == None
  {
    if ParseInt(s).Some? {
      var w := ParseInt(s).value;
      var m: nat := if w < 0 then -w else w;
      assert s[neg..] == Digits(m);
      assert Digits(m) == Digits(v) + s[k..];
      PrefixGrows(v, s[k..], m);
    }
  }

  lemma ZeroText()
    ensures Decimal(0) == [ZERO]
  {
  }

  lemma ScanStart(s: seq<Byte>, neg: nat, v: nat)
    requires neg <= 1 && neg < |s| && (neg == 1 <==> s[0] == MINUS)
    requires 0 < v < 10 && s[neg] == 48 + v
    ensures Scanned(s, neg, neg + 1, v)
  {
    assert s[neg..neg + 1] == [48 + v];
  }

  lemma ScanStep(s: seq<Byte>, neg: nat, k: nat, v: nat)
    requires Scanned(s, neg, k, v) && k < |s| && IsDigit(s[k])
    ensures Scanned(s, neg, k + 1, v * 10 + (s[k] - 48))
  {
    DigitsAppend(v, s[k] - 48);
    assert s[neg..k + 1] == s[neg..k] + [s[k]];
  }

  lemma ScanDone(s: seq<Byte>, neg: nat, v: nat)
    requires Scanned(s, neg, |s|, v) && v <= LLONG_MAX + neg
    ensures ParseInt(s) == Some(if neg == 1 then -(v as int) else v)
  {
    var w: int := if neg == 1 then -(v as int) else v;
    assert s == Decimal(w);
    PrintThenParse(w);
  }

  lemma NegateU64(v: nat)
    requires 0 < v <= LLONG_MAX + 1
    ensures WrapI64(WrapU64(-(v as int))) == -(v as int)
  {
  }

  /** string2ll: accepts exactly the canonical decimals of the signed 64-bit range. The accumulator
      is unsigned 64-bit; every operation on it is written with its wrap-around. */
  method String2ll(s: seq<Byte>) returns (ok: bool, value: int)
    ensures ok <==> ParseInt(s).Some?
    ensures ok ==> ParseInt(s) == Some(value)
  {
    hide WrapU64, WrapI64, Scanned, ParseInt, Digits, Decimal;
    value := 0;
    var plen := 0;
    var negative := false;
    if plen == |s| {
      NotDecimal(s, 0);
      return false, 0;
    }
    if |s| == 1 && s[0] == ZERO {
      PrintThenParse(0);
      ZeroText();
      return true, 0;
    }
    if s[0] == MINUS {
      negative := true;
      plen := plen + 1;
      if plen == |s| {
        NotDecimal(s, 1);
        return false, 0;
      }
    }
    ghost var neg := plen;
    var v: int;
    if 49 <= s[plen] <= 57 {
      v := s[plen] - 48;
      plen := plen + 1;
    } else {
      // The source's third test for "0" cannot succeed here: that text was accepted above.
      NotDecimal(s, neg);
      return false, 0;
    }
    ScanStart(s, neg, v);
    while plen < |s| && IsDigit(s[plen])
      invariant v <= ULLONG_MAX && neg < plen <= |s|
      invariant v > 0 && Scanned(s, neg, plen, v)
    {
      if v > ULLONG_MAX / 10 {
        TooLarge(s, neg, plen, v);
        return false, 0;
      }
      ScanStep(s, neg, plen, v);
      ghost var next := v * 10 + (s[plen] - 48);
      v := WrapU64(v * 10);
      if v > ULLONG_MAX - (s[plen] - 48) {
        TooLarge(s, neg, plen + 1, next);
        return false, 0;
      }
      v := WrapU64(v + (s[plen] - 48));
      plen := plen + 1;
    }
    if plen < |s| {
      NotDecimal(s, neg);
      return false, 0;
    }
    if negative {
      if v > LLONG_MAX + 1 {
        TooLarge(s, neg, plen, v);
        return false, 0;
      }
      NegateU64(v);
      value := WrapI64(WrapU64(-v));
    } else {
      if v > LLONG_MAX {
        TooLarge(s, neg, plen, v);
        return false, 0;
      }
      value := v;
    }
    ScanDone(s, neg, v);
    ok := true;
  }

  lemma ReversedDigits(v: nat)
    requires v >= 10
    ensures Reversed(Digits(v)) == [48 + v % 10] + Reversed(Digits(v / 10))
  {
    var d: seq<Byte> := [48 + v % 10];
    ReversedSplit(Digits(v / 10), d);
    assert Reversed(d) == d;
  }

  /** The digits still to be written, least significant first. */
  ghost function Pending(v: nat): seq<Byte> {
    if v == 0 then [] else [48 + v % 10] + Pending(v / 10)
  }

  lemma {:induction false} PendingIsReversed(v: nat)
    ensures [48 + v % 10] + Pending(v / 10) == Reversed(Digits(v))
  {
    if v >= 10 {
      ReversedDigits(v);
      PendingIsReversed(v / 10);
    } else {
      assert Digits(v) == [48 + v];
    }
  }

  /** Writes the digits of `v` least significant first, as the do-while loops of sds.c do. */
  method WriteReversed(s: array<Byte>, v0: nat, ghost text: seq<Byte>) returns (p: nat)
    requires text == [48 + v0 % 10] + Pending(v0 / 10)
    requires s.Length >= |text|
    modifies s
    ensures p == |text| && s[..p] == text
    ensures forall k :: p <= k < s.Length ==> s[k] == old(s[k])
  {
    var v := v0;
    s[0] := 48 + v % 10;
    p := 1;
    v := v / 10;
    assert Pending(v) == text[1..];
    while v != 0
      invariant 1 <= p <= |text| && Pending(v) == text[p..]
      invariant forall k :: 0 <= k < p ==> s[k] == text[k]
      invariant forall k :: p <= k < s.Length ==> s[k] == old(s[k])
      decreases v
    {
      assert text[p..] == [48 + v % 10] + Pending(v / 10);
      assert text[p] == text[p..][0];
      assert text[p + 1..] == text[p..][1..];
      s[p] := 48 + v % 10;
      p := p + 1;
      v := v / 10;
    }
  }

  /** Reverses s[..l] in place with two cursors moving towards each other. */
  method ReverseInPlace(s: array<Byte>, l: nat)
    requires 0 < l <= s.Length
    modifies s
    ensures s[..l] == Reversed(old(s[..l]))
    ensures forall k :: l <= k < s.Length ==> s[k] == old(s[k])
  {
    var a, p := 0, l - 1;
    while a < p
      invariant 0 <= a <= p + 1 <= l
      invariant a + p == l - 1
      invariant forall k :: 0 <= k < a ==> s[k] == old(s[l - 1 - k]) && s[l - 1 - k] == old(s[k])
      invariant forall k :: a <= k <= p ==> s[k] == old(s[k])
      invariant forall k :: l <= k < s.Length ==> s[k] == old(s[k])
    {
      var aux := s[a];
      s[a] := s[p];
      s[p] := aux;
      a := a + 1;
      p := p - 1;
    }
    forall k | 0 <= k < l
      ensures s[..l][k] == old(s[..l])[l - 1 - k]
    {
      if k >= a && k > p {
        assert s[l - 1 - (l - 1 - k)] == old(s[l - 1 - k]);
      }
    }
    ReversedIs(old(s[..l]), s[..l]);
  }

  /** The common tail of the two printers: terminating NUL, then the reversal. */
  method Terminate(s: array<Byte>, l: nat, ghost text: seq<Byte>)
    requires 0 < l < s.Length && s[..l] == Reversed(text)
    modifies s
    ensures l == |text| && s[..l] == text && s[l] == 0
    ensures forall k :: l < k < s.Length ==> s[k] == old(s[k])
  {
    s[l] := 0;
    assert s[..l] == Reversed(text);
    ReverseInPlace(s, l);
    ReversedTwice(text);
  }

  lemma Magnitude(value: int)
    requires InI64(value)
    ensures var v := WrapU64(if value < 0 then WrapI64(-value) else value);
            && v == (if value < 0 then -value else value)
            && |Digits(v)| <= 19
            && Reversed(Decimal(value)) == Reversed(Digits(v)) + (if value < 0 then [MINUS] else [])
            && Reversed(Digits(v)) == [48 + v % 10] + Pending(v / 10)
  {
    var v: nat := if value < 0 then -value else value;
    SixtyFourBitDigits(v);
    PendingIsReversed(v);
  }

  /** sdsll2str: writes exactly the canonical text and a terminating NUL. The negation is the
      two's complement one, so LLONG_MIN keeps its magnitude in the unsigned accumulator. */
  method Sdsll2str(s: array<Byte>, value: int) returns (l: nat)
    requires InI64(value) && s.Length >= 21
    modifies s
    ensures l == |Decimal(value)| < 21
    ensures s[..l] == Decimal(value) && s[l] == 0
    ensures forall k :: l < k < s.Length ==> s[k] == old(s[k])
  {
    hide Reversed, Digits, Decimal, Pending, WrapU64, WrapI64;
    var v := WrapU64(if value < 0 then WrapI64(-value) else value);
    Magnitude(value);
    ghost var digits := Reversed(Digits(v));
    var p := WriteReversed(s, v, digits);
    if value < 0 {
      s[p] := MINUS;
      p := p + 1;
      assert s[..p] == digits + [MINUS];
    }
    l := p;
    Terminate(s, l, Decimal(value));
  }

  /** sdsull2str: the same for the unsigned range. */
  method Sdsull2str(s: array<Byte>, v: nat) returns (l: nat)
    requires v <= ULLONG_MAX && s.Length >= 21
    modifies s
    ensures l == |Digits(v)| < 21
    ensures s[..l] == Digits(v) && s[l] == 0
    ensures forall k :: l < k < s.Length ==> s[k] == old(s[k])
  {
    SixtyFourBitDigits(v);
    PendingIsReversed(v);
    l := WriteReversed(s, v, Reversed(Digits(v)));
    Terminate(s, l, Digits(v));
  }

  /** countDigits: the number of decimal digits, four at a time. */
  method CountDigits(v0: nat) returns (result: nat)
    ensures result == |Digits(v0)|
  {
    result := 1;
    var v := v0;
    while true
      invariant result - 1 + |Digits(v)| == |Digits(v0)|
      decreases v
    {
      DigitsLength(v, 1);
      DigitsLength(v, 2);
      DigitsLength(v, 3);
      DigitsLength(v, 4);
      assert Pow10(1) == 10 && Pow10(2) == 100 && Pow10(3) == 1000 && Pow10(4) == 10000;
      if v < 10 { return; }
      if v < 100 { return result + 1; }
      if v < 1000 { return result + 2; }
      if v < 10000 { return result + 3; }
      assert |Digits(v)| == |Digits(v / 10000)| + 4 by {
        assert v / 10 / 10 / 10 / 10 == v / 10000;
        assert |Digits(v)| == |Digits(v / 10)| + 1;
        assert |Digits(v / 10)| == |Digits(v / 10 / 10)| + 1;
        assert |Digits(v / 10 / 10)| == |Digits(v / 10 / 10 / 10)| + 1;
        assert |Digits(v / 10 / 10 / 10)| == |Digits(v / 10 / 10 / 10 / 10)| + 1;
      }
      v := v / 10000;
      result := result + 4;
    }
  }
}
