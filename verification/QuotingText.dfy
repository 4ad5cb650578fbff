/** Argument lines in plain bytes: how each kind of argument is spelled, and what it splits into. */
module QuotingText {
  import opened Bytes
  import opened Quoting

  // ---------------------------------------------------------------- without quotes

  /** A blank or nothing. */
  predicate Ended(t: CString) {
    t == [] || t[0] in {32, 9, 10, 11, 12, 13}
  }

  /** Characters that neither end a bare word nor open a quotation. */
  predicate Bare(w: CString) {
    forall i :: 0 <= i < |w| ==> w[i] !in {32, 9, 10, 13, 34, 39}
  }

  lemma {:induction false} BareMeans(w: CString, t: CString)
    requires Bare(w)
    ensures Token(w + t, Plain) == Prefixed(w, Token(t, Plain))
  {
    hide Prefixed;
    PrefixedTwice([], [], Token(t, Plain));
    if w == [] {
      assert w + t == t;
    } else {
      BareMeans(w[1..], t);
      PrefixedTwice([w[0]], w[1..], Token(t, Plain));
      assert (w + t)[0] == w[0] && (w + t)[1..] == w[1..] + t;
      assert [w[0]] + w[1..] == w;
    }
  }

  /** A bare word ends at a blank; vertical tabs and form feeds are part of it, but do not begin it. */
  lemma BareWord(w: CString, t: CString)
    requires w != [] && Bare(w) && w[0] !in {11, 12} && (t == [] || t[0] in {32, 9, 10, 13})
    ensures Split(w + t) == Prepend([w], Split(t))
  {
    BareMeans(w, t);
    PrefixedDone(w, if t == [] then [] else t[1..]);
  }

  /** Blanks between arguments are skipped, and an empty line has no arguments. */
  lemma Blanks(c: Byte, t: CString)
    requires c in {32, 9, 10, 11, 12, 13}
    ensures Split([c] + t) == Split(t) && Split([]) == Some([])
  {
    assert ([c] + t)[1..] == t;
  }

  // ---------------------------------------------------------------- between double quotes

  /** A character as it is, one behind a backslash, or two hexadecimal digits behind a backslash and an x. */
  datatype Piece = Raw(c: Byte) | Backslash(c: Byte) | Hex(high: nat, upper: bool, low: nat, upper': bool)

  predicate Proper(p: Piece) {
    match p
    case Raw(c) => c !in {0, 34, 92}
    case Backslash(c) => c !in {0, 120}
    case Hex(high, _, low, _) => high < 16 && low < 16
  }

  /** A hexadecimal digit, in upper or lower case. */
  function Digit(n: nat, upper: bool): Byte
    requires n < 16
  {
    if n < 10 then 48 + n else if upper then 55 + n else 87 + n
  }

  function Spelling(p: Piece): (s: seq<Byte>)
    requires Proper(p)
  {
    match p
    case Raw(c) => [c]
    case Backslash(c) => [92, c]
    case Hex(high, upper, low, upper') => [92, 120, Digit(high, upper), Digit(low, upper')]
  }

  function Value(p: Piece): Byte
    requires Proper(p)
  {
    match p
    case Raw(c) => c
    case Backslash(c) =>
      if c == 110 then 10 else if c == 114 then 13 else if c == 116 then 9
      else if c == 98 then 8 else if c == 97 then 7 else c
    case Hex(high, _, low, _) => 16 * high + low
  }

  function Spelled(ps: seq<Piece>): (s: CString)
    requires forall i :: 0 <= i < |ps| ==> Proper(ps[i])
  {
    if ps == [] then [] else Spelling(ps[0]) + Spelled(ps[1..])
  }

  function Values(ps: seq<Piece>): (v: seq<Byte>)
    requires forall i :: 0 <= i < |ps| ==> Proper(ps[i])
    ensures |v| == |ps| && forall i :: 0 <= i < |ps| ==> v[i] == Value(ps[i])
  {
    if ps == [] then [] else [Value(ps[0])] + Values(ps[1..])
  }

  lemma PieceMeans(p: Piece, t: CString)
    requires Proper(p)
    ensures Token(Spelling(p) + t, Double) == Prefixed([Value(p)], Token(t, Double))
  {
    var s := Spelling(p) + t;
    match p
    case Raw(c) => assert !HexEscape(s) && s[1..] == t;
    case Backslash(c) => assert !HexEscape(s) && s[2..] == t;
    case Hex(high, upper, low, upper') => assert HexEscape(s) && s[4..] == t;
  }

  lemma Regrouped(a: seq<Byte>, b: seq<Byte>, t: seq<Byte>)
    ensures a + b + t == a + (b + t) && (b != [] ==> (b + t)[0] == b[0]) && (b == [] ==> b + t == t)
  {
  }

  lemma SpelledUnrolled(ps: seq<Piece>)
    requires forall i :: 0 <= i < |ps| ==> Proper(ps[i])
    ensures Spelled(ps) == if ps == [] then [] else Spelling(ps[0]) + Spelled(ps[1..])
    ensures Values(ps) == if ps == [] then [] else [Value(ps[0])] + Values(ps[1..])
  {
  }

  lemma {:induction false} PiecesMean(ps: seq<Piece>, t: CString)
    requires forall i :: 0 <= i < |ps| ==> Proper(ps[i])
    ensures Token(Spelled(ps) + t, Double) == Prefixed(Values(ps), Token(t, Double))
  {
    hide Token, Prefixed, Spelling, Value, Spelled, Values;
    PrefixedTwice([], [], Token(t, Double));
    SpelledUnrolled(ps);
    if ps == [] {
      Regrouped([], [], t);
    } else {
      PiecesMean(ps[1..], t);
      Regrouped(Spelling(ps[0]), Spelled(ps[1..]), t);
      PieceMeans(ps[0], Spelled(ps[1..]) + t);
      PrefixedTwice([Value(ps[0])], Values(ps[1..]), Token(t, Double));
    }
  }

  /**
   * An argument in double quotes is read as the bytes its pieces stand for, whatever the case of its digits. What
   * stands bare before the quotation belongs to the same argument; what stands behind it must be a blank.
   */
  lemma DoubleQuoted(w: CString, ps: seq<Piece>, t: CString)
    requires Bare(w) && (w == [] || w[0] !in {11, 12}) && forall i :: 0 <= i < |ps| ==> Proper(ps[i])
    ensures Split(w + ([34] + (Spelled(ps) + ([34] + t)))) ==
            if Ended(t) then Prepend([w + Values(ps)], Split(t)) else None
    ensures Split(w + ([34] + Spelled(ps))) == None
  {
    hide Spelled, Values;
    var s := [34] + (Spelled(ps) + ([34] + t));
    assert s[1..] == Spelled(ps) + ([34] + t);
    PiecesMean(ps, [34] + t);
    assert ([34] + t)[1..] == t;
    PrefixedDone(Values(ps), t);
    OpenQuote(s);
    Opened(w, s);
    var u := [34] + Spelled(ps);
    assert u[1..] == Spelled(ps) + [];
    PiecesMean(ps, []);
    OpenQuote(u);
    Opened(w, u);
  }

  /** A quotation behind a bare part is the rest of the same token. */
  lemma Opened(w: CString, s: CString)
    requires Bare(w) && (w == [] || w[0] !in {11, 12}) && s != [] && s[0] in {34, 39}
    ensures Split(w + s) == match Token(s, Plain)
                            case None => None
                            case Some(cut) => Prepend([w + cut.token], Split(cut.rest))
  {
    hide Token;
    BareMeans(w, s);
  }

  /** The whole line is one argument in double quotes. */
  lemma DoubleQuotedAlone(ps: seq<Piece>)
    requires forall i :: 0 <= i < |ps| ==> Proper(ps[i])
    ensures Split([34] + (Spelled(ps) + [34])) == Some([Values(ps)])
  {
    hide Spelled, Values, Token, Split;
    DoubleQuoted([], ps, []);
    assert [] + ([34] + (Spelled(ps) + ([34] + []))) == [34] + (Spelled(ps) + [34]);
    Blanks(32, []);
    assert [] + Values(ps) == Values(ps);
    assert [Values(ps)] + [] == [Values(ps)];
  }

  // ---------------------------------------------------------------- between single quotes

  /** Only the single quote itself needs a backslash. */
  function Shielded(c: Byte): (s: CString)
    requires c != 0
    ensures s != [] && s[0] != 39
  {
    if c == 39 then [92, 39] else [c]
  }

  function Singly(x: CString): (s: CString)
    ensures (s == [] <==> x == []) && (s != [] ==> s[0] != 39)
  {
    if x == [] then [] else Shielded(x[0]) + Singly(x[1..])
  }

  lemma ShieldedMeans(c: Byte, t: CString)
    requires c != 0 && (c == 92 ==> t == [] || t[0] != 39)
    ensures Token(Shielded(c) + t, Single) == Prefixed([c], Token(t, Single))
  {
    hide Prefixed;
    var s := Shielded(c) + t;
    if c == 39 {
      assert s[0] == 92 && s[1] == 39 && s[2..] == t;
    } else {
      assert s[0] == c && s[1..] == t;
    }
  }

  lemma SinglyUnrolled(x: CString)
    ensures Singly(x) == if x == [] then [] else Shielded(x[0]) + Singly(x[1..])
  {
  }

  lemma {:induction false} SinglyMeans(x: CString, t: CString)
    requires x != [] && x[|x| - 1] == 92 ==> t == [] || t[0] != 39
    ensures Token(Singly(x) + t, Single) == Prefixed(x, Token(t, Single))
  {
    hide Token, Prefixed, Shielded, Singly;
    PrefixedTwice([], [], Token(t, Single));
    SinglyUnrolled(x);
    if x == [] {
      Regrouped([], [], t);
    } else {
      SinglyMeans(x[1..], t);
      Regrouped(Shielded(x[0]), Singly(x[1..]), t);
      ShieldedMeans(x[0], Singly(x[1..]) + t);
      PrefixedTwice([x[0]], x[1..], Token(t, Single));
      assert x == [x[0]] + x[1..];
    }
  }

  lemma OpenSingle(s: CString)
    requires s != [] && s[0] == 39
    ensures Token(s, Plain) == Token(s[1..], Single)
  {
  }

  lemma CloseSingle(t: CString)
    ensures Token([39] + t, Single) == if Ended(t) then Some(Cut([], t)) else None
    ensures Token([], Single) == None
  {
    assert ([39] + t)[1..] == t;
  }

  /** An argument in single quotes is read as it stands; an open quotation fails. */
  lemma SingleQuoted(w: CString, x: CString, t: CString)
    requires Bare(w) && (w == [] || w[0] !in {11, 12}) && (x == [] || x[|x| - 1] != 92)
    ensures Split(w + ([39] + (Singly(x) + ([39] + t)))) ==
            if Ended(t) then Prepend([w + x], Split(t)) else None
    ensures Split(w + ([39] + Singly(x))) == None
  {
    hide Singly, Token, Split;
    var s := [39] + (Singly(x) + ([39] + t));
    assert s[1..] == Singly(x) + ([39] + t);
    SinglyMeans(x, [39] + t);
    CloseSingle(t);
    PrefixedDone(x, t);
    OpenSingle(s);
    Opened(w, s);
    var u := [39] + Singly(x);
    assert u[1..] == Singly(x) + [];
    SinglyMeans(x, []);
    CloseSingle([]);
    OpenSingle(u);
    Opened(w, u);
  }

  // ---------------------------------------------------------------- what is written

  /** The bytes that a character is written as. */
  lemma EscapeBytes(c: Byte)
    ensures Escape(c) ==
            if c == 34 || c == 92 then [92, c]
            else if c == 10 then [92, 110] else if c == 13 then [92, 114] else if c == 9 then [92, 116]
            else if c == 7 then [92, 97] else if c == 8 then [92, 98]
            else if 32 <= c <= 126 then [c]
            else [92, 120, Digit(c / 16, false), Digit(c % 16, false)]
  {
  }

  /** Characters are written one after the other between double quotes. */
  lemma ReprBytes(c: Byte, s: seq<Byte>)
    ensures Repr([]) == [34, 34] && Repr(s) == [34] + Escaped(s) + [34]
    ensures Escaped([c] + s) == Escape(c) + Escaped(s)
  {
    assert ([c] + s)[1..] == s;
  }
}
