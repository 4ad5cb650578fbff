/** Quoted argument strings of sds.c: writing them and splitting a line into them. */
module Quoting {
  import opened Bytes

  const QUOTE: Byte := 34
  const APOSTROPHE: Byte := 39
  const BACKSLASH: Byte := 92
  const SPACE: Byte := 32
  const LOWER_X: Byte := 120

  /** isspace in the C locale. */
  predicate IsSpace(c: Byte) {
    c == SPACE || 9 <= c <= 13
  }

  /** isprint in the C locale. */
  predicate IsPrint(c: Byte) {
    32 <= c <= 126
  }

  /** is_hex_digit */
  predicate IsHexDigit(c: Byte) {
    48 <= c <= 57 || 97 <= c <= 102 || 65 <= c <= 70
  }

  /** hex_digit_to_int */
  function HexDigitToInt(c: Byte): (n: nat)
    ensures n < 16
  {
    if 48 <= c <= 57 then c - 48
    else if 97 <= c <= 102 then c - 87
    else if 65 <= c <= 70 then c - 55
    else 0
  }

  function HexValue(high: Byte, low: Byte): Byte {
    HexDigitToInt(high) * 16 + HexDigitToInt(low)
  }

  /** One digit of printf's %x. */
  function HexChar(n: nat): (c: Byte)
    requires n < 16
    ensures IsHexDigit(c) && HexDigitToInt(c) == n
  {
    if n < 10 then 48 + n else 87 + n
  }

  // ---------------------------------------------------------------- writing

  /** The letter that stands for a control character after a backslash, if there is one. */
  function Letter(c: Byte): Option<Byte> {
    if c == 10 then Some(110)
    else if c == 13 then Some(114)
    else if c == 9 then Some(116)
    else if c == 7 then Some(97)
    else if c == 8 then Some(98)
    else None
  }

  ghost function Escape(c: Byte): seq<Byte> {
    if c == BACKSLASH || c == QUOTE then [BACKSLASH, c]
    else if Letter(c) != None then [BACKSLASH, Letter(c).value]
    else if IsPrint(c) then [c]
    else [BACKSLASH, LOWER_X, HexChar(c / 16), HexChar(c % 16)]
  }

  ghost function Escaped(s: seq<Byte>): seq<Byte> {
    if s == [] then [] else Escape(s[0]) + Escaped(s[1..])
  }

  ghost function Repr(s: seq<Byte>): seq<Byte> {
    [QUOTE] + Escaped(s) + [QUOTE]
  }

  lemma {:induction false} EscapedAppend(s: seq<Byte>, c: Byte)
    ensures Escaped(s + [c]) == Escaped(s) + Escape(c)
  {
    hide Escape;
    if s == [] {
      assert [] + [c] == [c] && [c][1..] == [];
    } else {
      EscapedAppend(s[1..], c);
      assert (s + [c])[1..] == s[1..] + [c];
      assert Escape(s[0]) + (Escaped(s[1..]) + Escape(c)) == Escape(s[0]) + Escaped(s[1..]) + Escape(c);
    }
  }

  /** The switch in sdscatrepr. */
  method CatEscape(s: seq<Byte>, c: Byte) returns (r: seq<Byte>)
    ensures r == s + Escape(c)
  {
    if c == BACKSLASH || c == QUOTE {
      r := s + [BACKSLASH, c];
    } else if c == 10 {
      r := s + [BACKSLASH, 110];
    } else if c == 13 {
      r := s + [BACKSLASH, 114];
    } else if c == 9 {
      r := s + [BACKSLASH, 116];
    } else if c == 7 {
      r := s + [BACKSLASH, 97];
    } else if c == 8 {
      r := s + [BACKSLASH, 98];
    } else if IsPrint(c) {
      r := s + [c];
    } else {
      r := s + [BACKSLASH, LOWER_X, HexChar(c / 16), HexChar(c % 16)];
    }
  }

  /** sdscatrepr */
  method CatRepr(s: seq<Byte>, p: seq<Byte>) returns (r: seq<Byte>)
    ensures r == s + Repr(p)
  {
    hide Escape;
    r := s + [QUOTE];
    for i := 0 to |p|
      invariant r == s + [QUOTE] + Escaped(p[..i])
    {
      EscapedAppend(p[..i], p[i]);
      assert p[..i + 1] == p[..i] + [p[i]];
      r := CatEscape(r, p[i]);
    }
    assert p[..|p|] == p;
    r := r + [QUOTE];
  }

  // ---------------------------------------------------------------- splitting

  datatype Mode = Plain | Double | Single

  /** A token and what follows it. */
  datatype Cut = Cut(token: seq<Byte>, rest: CString)

  /** What a backslash and a character mean between double quotes. */
  function Meaning(c: Byte): Byte {
    if c == 110 then 10
    else if c == 114 then 13
    else if c == 116 then 9
    else if c == 98 then 8
    else if c == 97 then 7
    else c
  }

  predicate HexEscape(s: CString) {
    |s| >= 4 && s[0] == BACKSLASH && s[1] == LOWER_X && IsHexDigit(s[2]) && IsHexDigit(s[3])
  }

  ghost function Prefixed(c: seq<Byte>, r: Option<Cut>): (o: Option<Cut>) {
    if r == None then None else Some(Cut(c + r.value.token, r.value.rest))
  }

  /** A closing quote must be followed by a space or by nothing. */
  ghost function Close(s: CString): Option<Cut> {
    if s == [] || IsSpace(s[0]) then Some(Cut([], s)) else None
  }

  /** The rest of a token that is being read in the given mode; None for unbalanced quotes. */
  ghost function Token(s: CString, mode: Mode): (r: Option<Cut>)
    ensures r != None ==> |r.value.rest| <= |s| && (s != [] ==> |r.value.rest| < |s|)
    decreases |s|
  {
    match mode
    case Plain =>
      if s == [] then Some(Cut([], []))
      else if s[0] in {SPACE, 10, 13, 9} then Some(Cut([], s[1..]))
      else if s[0] == QUOTE then Token(s[1..], Double)
      else if s[0] == APOSTROPHE then Token(s[1..], Single)
      else Prefixed([s[0]], Token(s[1..], Plain))
    case Double =>
      if s == [] then None
      else if HexEscape(s) then
        Prefixed([HexValue(s[2], s[3])], Token(s[4..], Double))
      else if s[0] == BACKSLASH && |s| >= 2 then Prefixed([Meaning(s[1])], Token(s[2..], Double))
      else if s[0] == QUOTE then Close(s[1..])
      else Prefixed([s[0]], Token(s[1..], Double))
    case Single =>
      if s == [] then None
      else if s[0] == BACKSLASH && |s| >= 2 && s[1] == APOSTROPHE then
        Prefixed([APOSTROPHE], Token(s[2..], Single))
      else if s[0] == APOSTROPHE then Close(s[1..])
      else Prefixed([s[0]], Token(s[1..], Single))
  }

  ghost function Prepend(v: seq<seq<Byte>>, r: Option<seq<seq<Byte>>>): Option<seq<seq<Byte>>> {
    if r == None then None else Some(v + r.value)
  }

  /** The arguments of a line. */
  ghost function Split(s: CString): Option<seq<seq<Byte>>>
    decreases |s|
  {
    if s == [] then Some([])
    else if IsSpace(s[0]) then Split(s[1..])
    else
      var cut := Token(s, Plain);
      if cut == None then None else Prepend([cut.value.token], Split(cut.value.rest))
  }

  // The branches of the scanner, as steps of the definition above.

  predicate HexAt(line: CString, p: nat)
    requires p <= |line|
  {
    && At(line, p) == BACKSLASH && At(line, p + 1) == LOWER_X
    && IsHexDigit(At(line, p + 2)) && IsHexDigit(At(line, p + 3))
  }

  lemma DoubleStep(line: CString, p: nat)
    requires p <= |line|
    ensures p == |line| ==> Token(line[p..], Double) == None
    ensures HexAt(line, p) ==> p + 4 <= |line|
    ensures HexAt(line, p) ==>
      Token(line[p..], Double) == Prefixed([HexValue(line[p + 2], line[p + 3])], Token(line[p + 4..], Double))
    ensures !HexAt(line, p) && At(line, p) == BACKSLASH && At(line, p + 1) != 0 ==>
      Token(line[p..], Double) == Prefixed([Meaning(line[p + 1])], Token(line[p + 2..], Double))
    ensures At(line, p) == QUOTE ==> Token(line[p..], Double) == Close(line[p + 1..])
    ensures p < |line| && line[p] != QUOTE && !(line[p] == BACKSLASH && At(line, p + 1) != 0) ==>
      Token(line[p..], Double) == Prefixed([line[p]], Token(line[p + 1..], Double))
  {
    var s := line[p..];
    assert HexAt(line, p) <==> HexEscape(s);
    assert p + 2 <= |line| ==> s[2..] == line[p + 2..];
    assert p + 4 <= |line| ==> s[4..] == line[p + 4..];
    assert p < |line| ==> s[1..] == line[p + 1..];
  }

  lemma SingleStep(line: CString, p: nat)
    requires p <= |line|
    ensures p == |line| ==> Token(line[p..], Single) == None
    ensures At(line, p) == BACKSLASH && At(line, p + 1) == APOSTROPHE ==>
      Token(line[p..], Single) == Prefixed([APOSTROPHE], Token(line[p + 2..], Single))
    ensures At(line, p) == APOSTROPHE ==> Token(line[p..], Single) == Close(line[p + 1..])
    ensures p < |line| && line[p] != APOSTROPHE && !(line[p] == BACKSLASH && At(line, p + 1) == APOSTROPHE) ==>
      Token(line[p..], Single) == Prefixed([line[p]], Token(line[p + 1..], Single))
  {
    var s := line[p..];
    assert p + 2 <= |line| ==> s[2..] == line[p + 2..];
    assert p < |line| ==> s[1..] == line[p + 1..];
  }

  lemma PlainStep(line: CString, p: nat)
    requires p <= |line|
    ensures p == |line| ==> Token(line[p..], Plain) == Some(Cut([], line[p..]))
    ensures p < |line| && line[p] in {SPACE, 10, 13, 9} ==> Token(line[p..], Plain) == Some(Cut([], line[p + 1..]))
    ensures p < |line| && line[p] == QUOTE ==> Token(line[p..], Plain) == Token(line[p + 1..], Double)
    ensures p < |line| && line[p] == APOSTROPHE ==> Token(line[p..], Plain) == Token(line[p + 1..], Single)
    ensures p < |line| && line[p] !in {SPACE, 10, 13, 9, QUOTE, APOSTROPHE} ==>
      Token(line[p..], Plain) == Prefixed([line[p]], Token(line[p + 1..], Plain))
  {
    var s := line[p..];
    assert p < |line| ==> s[1..] == line[p + 1..];
  }

  lemma PrefixedTwice(c: seq<Byte>, d: seq<Byte>, r: Option<Cut>)
    ensures Prefixed(c, Prefixed(d, r)) == Prefixed(c + d, r)
    ensures Prefixed([], r) == r
  {
    if r != None {
      assert c + (d + r.value.token) == c + d + r.value.token;
      assert [] + r.value.token == r.value.token;
    }
  }

  lemma PrefixedDone(c: seq<Byte>, t: CString)
    ensures Prefixed(c, Some(Cut([], t))) == Some(Cut(c, t))
  {
    assert c + [] == c;
  }

  /** What one turn of the token loop does: fail, end the token, or go on in a mode. */
  ghost predicate Turn(line: CString, p: nat, mode: Mode, current: seq<Byte>,
                       ok: bool, done: bool, p': nat, mode': Mode, current': seq<Byte>)
    requires p <= |line|
  {
    var before := Prefixed(current, Token(line[p..], mode));
    && p' <= |line|
    && (!ok ==> before == None)
    && (ok && done ==> before == Some(Cut(current', line[p'..])))
    && (ok && !done ==> p < p' && before == Prefixed(current', Token(line[p'..], mode')))
  }

  /** Appending to the token read so far before or after the rest is read makes no difference. */
  lemma Appended(line: CString, p: nat, token: seq<Byte>, current: seq<Byte>, mode: Mode)
    requires p <= |line| && |token| <= |current| && current[..|token|] == token
    ensures Prefixed(current, Token(line[p..], mode))
      == Prefixed(token, Prefixed(current[|token|..], Token(line[p..], mode)))
    ensures current == token ==> Prefixed(token, Some(Cut([], line[p..]))) == Some(Cut(current, line[p..]))
    ensures current == token ==> current[|token|..] == []
  {
    PrefixedTwice(token, current[|token|..], Token(line[p..], mode));
    PrefixedDone(token, line[p..]);
    assert token + current[|token|..] == current;
  }

  method InDouble(line: CString, from: nat, token: seq<Byte>) returns (ok: bool, done: bool, p: nat, current: seq<Byte>)
    requires from <= |line|
    ensures Turn(line, from, Double, token, ok, done, p, Double, current)
  {
    hide Token;
    DoubleStep(line, from);
    ok, done, p, current := true, false, from, token;
    if HexAt(line, p) {
      var byte := HexValue(line[p + 2], line[p + 3]);
      current := current + [byte];
      p := p + 3;
    } else if At(line, p) == BACKSLASH && At(line, p + 1) != 0 {
      p := p + 1;
      current := current + [Meaning(line[p])];
    } else if At(line, p) == QUOTE {
      if At(line, p + 1) != 0 && !IsSpace(At(line, p + 1)) {
        return false, done, p, current;
      }
      done := true;
    } else if At(line, p) == 0 {
      return false, done, p, current;
    } else {
      current := current + [line[p]];
    }
    p := p + 1;
    Appended(line, p, token, current, Double);
  }

  method InSingle(line: CString, from: nat, token: seq<Byte>) returns (ok: bool, done: bool, p: nat, current: seq<Byte>)
    requires from <= |line|
    ensures Turn(line, from, Single, token, ok, done, p, Single, current)
  {
    hide Token;
    SingleStep(line, from);
    ok, done, p, current := true, false, from, token;
    if At(line, p) == BACKSLASH && At(line, p + 1) == APOSTROPHE {
      p := p + 1;
      current := current + [APOSTROPHE];
    } else if At(line, p) == APOSTROPHE {
      if At(line, p + 1) != 0 && !IsSpace(At(line, p + 1)) {
        return false, done, p, current;
      }
      done := true;
    } else if At(line, p) == 0 {
      return false, done, p, current;
    } else {
      current := current + [line[p]];
    }
    p := p + 1;
    Appended(line, p, token, current, Single);
  }

  method InPlain(line: CString, from: nat, token: seq<Byte>)
    returns (mode: Mode, done: bool, p: nat, current: seq<Byte>)
    requires from <= |line|
    ensures Turn(line, from, Plain, token, true, done, p, mode, current)
  {
    hide Token;
    PlainStep(line, from);
    mode, done, p, current := Plain, false, from, token;
    if At(line, p) in {SPACE, 10, 13, 9, 0} {
      done := true;
    } else if At(line, p) == QUOTE {
      mode := Double;
    } else if At(line, p) == APOSTROPHE {
      mode := Single;
    } else {
      current := current + [line[p]];
    }
    if At(line, p) != 0 {
      p := p + 1;
    }
    Appended(line, p, token, current, mode);
  }

  /** The token loop of sdssplitargs; None where the source jumps to its error exit. */
  method NextToken(line: CString, from: nat) returns (token: Option<seq<Byte>>, p: nat)
    requires from < |line|
    ensures p <= |line|
    ensures Token(line[from..], Plain) == if token == None then None else Some(Cut(token.value, line[p..]))
  {
    hide Token;
    p := from;
    var current: seq<Byte> := [];
    var inq, insq, done, ok := false, false, false, true;
    ghost var all := Token(line[from..], Plain);
    PrefixedTwice([], [], all);
    while !done
      invariant p <= |line| && !(inq && insq)
      invariant done ==> all == Some(Cut(current, line[p..]))
      invariant !done ==>
        all == Prefixed(current, Token(line[p..], if inq then Double else if insq then Single else Plain))
      decreases |line| - p, !done
    {
      if inq {
        ok, done, p, current := InDouble(line, p, current);
      } else if insq {
        ok, done, p, current := InSingle(line, p, current);
      } else {
        var mode;
        mode, done, p, current := InPlain(line, p, current);
        inq, insq := mode == Double, mode == Single;
      }
      if !ok {
        return None, p;
      }
    }
    return Some(current), p;
  }

  lemma PrependTwice(v: seq<seq<Byte>>, w: seq<seq<Byte>>, r: Option<seq<seq<Byte>>>)
    ensures Prepend(v, Prepend(w, r)) == Prepend(v + w, r)
    ensures Prepend([], r) == r
  {
    if r != None {
      assert v + (w + r.value) == v + w + r.value;
      assert [] + r.value == r.value;
    }
  }

  lemma PrependNone(v: seq<seq<Byte>>)
    ensures Prepend(v, None) == None
  {
  }

  lemma PrependNothing(v: seq<seq<Byte>>)
    ensures Prepend(v, Some([])) == Some(v)
  {
    assert v + [] == v;
  }

  lemma SplitStep(line: CString, p: nat)
    requires p <= |line|
    ensures p == |line| ==> Split(line[p..]) == Some([])
    ensures p < |line| && IsSpace(line[p]) ==> Split(line[p..]) == Split(line[p + 1..])
    ensures p < |line| && !IsSpace(line[p]) ==>
      Split(line[p..]) == match Token(line[p..], Plain)
                          case None => None
                          case Some(cut) => Prepend([cut.token], Split(cut.rest))
  {
    hide Token, IsSpace;
    assert p < |line| ==> line[p..][1..] == line[p + 1..];
  }

  /** sdssplitargs */
  method SplitArgs(line: CString) returns (vector: Option<seq<seq<Byte>>>)
    ensures vector == Split(line)
  {
    hide Token, Split, Prepend, IsSpace;
    var args: seq<seq<Byte>> := [];
    var p: nat := 0;
    PrependTwice([], [], Split(line));
    assert line[0..] == line;
    while true
      invariant p <= |line| && Split(line) == Prepend(args, Split(line[p..]))
      decreases |line| - p
    {
      while p < |line| && IsSpace(line[p])
        invariant p <= |line| && Split(line) == Prepend(args, Split(line[p..]))
      {
        SplitStep(line, p);
        p := p + 1;
      }
      SplitStep(line, p);
      if p < |line| {
        var token;
        token, p := NextToken(line, p);
        if token == None {
          PrependNone(args);
          return None;
        }
        PrependTwice(args, [token.value], Split(line[p..]));
        args := args + [token.value];
      } else {
        PrependNothing(args);
        return Some(args);
      }
    }
  }

  // ---------------------------------------------------------------- the round trip

  lemma EscapeMeans(c: Byte, t: CString)
    ensures forall i :: 0 <= i < |Escape(c)| ==> Escape(c)[i] != 0
    ensures Token(Escape(c) + t, Double) == Prefixed([c], Token(t, Double))
  {
    var s := Escape(c) + t;
    if |Escape(c)| == 4 {
      assert HexEscape(s) && s[4..] == t;
    } else if |Escape(c)| == 2 {
      assert !HexEscape(s) && s[2..] == t;
    } else {
      assert s[1..] == t;
    }
  }

  lemma {:induction false} EscapedMeans(x: seq<Byte>, t: CString)
    requires t == [] || IsSpace(t[0])
    ensures forall i :: 0 <= i < |Escaped(x)| ==> Escaped(x)[i] != 0
    ensures Token(Escaped(x) + [QUOTE] + t, Double) == Some(Cut(x, t))
  {
    hide Escape, Token, HexEscape;
    if x == [] {
      CloseQuote(t);
      assert Escaped(x) + [QUOTE] + t == [QUOTE] + t;
    } else {
      EscapedMeans(x[1..], t);
      var u := Escaped(x[1..]) + [QUOTE] + t;
      EscapeMeans(x[0], u);
      assert Escaped(x) + [QUOTE] + t == Escape(x[0]) + u;
      assert [x[0]] + x[1..] == x;
    }
  }

  lemma OpenQuote(s: CString)
    requires s != [] && s[0] == QUOTE
    ensures Token(s, Plain) == Token(s[1..], Double)
    ensures Split(s) == if Token(s, Plain) == None then None
                        else Prepend([Token(s, Plain).value.token], Split(Token(s, Plain).value.rest))
  {
  }

  lemma CloseQuote(t: CString)
    requires t == [] || IsSpace(t[0])
    ensures Token([QUOTE] + t, Double) == Some(Cut([], t))
  {
    assert ([QUOTE] + t)[1..] == t;
  }

  lemma ReprMeans(x: seq<Byte>, t: CString)
    requires t == [] || IsSpace(t[0])
    ensures forall i :: 0 <= i < |Repr(x)| ==> Repr(x)[i] != 0
    ensures Split(Repr(x) + t) == Prepend([x], Split(t))
  {
    hide Escape, Escaped, HexEscape, Token, Split;
    EscapedMeans(x, t);
    var s := Repr(x) + t;
    OpenQuote(s);
    assert s[1..] == Escaped(x) + [QUOTE] + t;
  }

  ghost predicate Blank(s: seq<Byte>) {
    forall i :: 0 <= i < |s| ==> IsSpace(s[i])
  }

  lemma {:induction false} SkipBlank(g: seq<Byte>, t: CString)
    requires Blank(g)
    ensures Split(g + t) == Split(t)
  {
    if g == [] {
      assert g + t == t;
    } else {
      SkipBlank(g[1..], t);
      assert (g + t)[1..] == g[1..] + t;
    }
  }

  /** Quoted arguments, each after a gap, and an end. */
  ghost function Join(args: seq<seq<Byte>>, gaps: seq<seq<Byte>>, end: seq<Byte>): seq<Byte>
    requires |gaps| == |args|
  {
    if args == [] then end else gaps[0] + Repr(args[0]) + Join(args[1..], gaps[1..], end)
  }

  ghost predicate Gaps(gaps: seq<seq<Byte>>, end: seq<Byte>) {
    Blank(end) && (forall i :: 0 <= i < |gaps| ==> Blank(gaps[i])) && forall i :: 0 < i < |gaps| ==> gaps[i] != []
  }

  /** What follows an argument begins with a blank, if there is anything. */
  lemma JoinStarts(args: seq<seq<Byte>>, gaps: seq<seq<Byte>>, end: seq<Byte>)
    requires |gaps| == |args| && Gaps(gaps, end) && (gaps != [] ==> gaps[0] != [])
    ensures var t := Join(args, gaps, end); t == [] || IsSpace(t[0])
  {
    hide IsSpace, Repr;
  }

  /** Splitting a line of quoted arguments, however spaced, gives back exactly the arguments, whatever their bytes. */
  lemma {:induction false} QuotingRoundTrip(args: seq<seq<Byte>>, gaps: seq<seq<Byte>>, end: seq<Byte>)
    requires |gaps| == |args| && Gaps(gaps, end)
    ensures forall i :: 0 <= i < |Join(args, gaps, end)| ==> Join(args, gaps, end)[i] != 0
    ensures Split(Join(args, gaps, end)) == Some(args)
  {
    hide Split, Repr;
    if args == [] {
      SkipBlank(end, []);
      assert end + [] == end;
      SplitStep([], 0);
    } else {
      QuotingRoundTrip(args[1..], gaps[1..], end);
      var t := Join(args[1..], gaps[1..], end);
      JoinStarts(args[1..], gaps[1..], end);
      ReprMeans(args[0], t);
      SkipBlank(gaps[0], Repr(args[0]) + t);
      assert Join(args, gaps, end) == gaps[0] + (Repr(args[0]) + t);
      assert [args[0]] + args[1..] == args;
    }
  }
}
