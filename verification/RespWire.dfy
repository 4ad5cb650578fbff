/** The protocol in plain bytes: what replies, numbers and commands look like on the wire, byte by byte. */
module RespWire {
  import opened Bytes
  import opened IntText
  import opened Resp
  import opened Command

  // ---------------------------------------------------------------- numbers

  /** Decimal digits without a superfluous leading zero. */
  predicate Numeral(x: seq<Byte>) {
    x != [] && (forall i :: 0 <= i < |x| ==> 48 <= x[i] <= 57) && (|x| > 1 ==> x[0] != 48)
  }

  /** The number that digits stand for, by place value. */
  function Number(x: seq<Byte>): (v: int)
    requires forall i :: 0 <= i < |x| ==> 48 <= x[i] <= 57
    ensures v >= 0
  {
    if x == [] then 0 else 10 * Number(x[..|x| - 1]) + (x[|x| - 1] - 48)
  }

  lemma {:induction false} DigitsAreNumeral(v: nat)
    ensures Numeral(Digits(v)) && Number(Digits(v)) == v
    ensures v > 0 ==> Digits(v)[0] != 48
  {
    if v < 10 {
      assert Digits(v)[..0] == [];
    } else {
      DigitsAreNumeral(v / 10);
      assert Digits(v)[..|Digits(v)| - 1] == Digits(v / 10);
    }
  }

  lemma {:induction false} NumeralIsDigits(x: seq<Byte>)
    requires Numeral(x)
    ensures Digits(Number(x)) == x
  {
    if |x| == 1 {
      assert x[..0] == [] && x == [x[0]];
    } else {
      var y := x[..|x| - 1];
      NumeralIsDigits(y);
      NumeralPositive(y);
      assert Number(x) / 10 == Number(y) && Number(x) % 10 == x[|x| - 1] - 48;
      assert x == y + [x[|x| - 1]];
    }
  }

  lemma {:induction false} NumeralPositive(x: seq<Byte>)
    requires Numeral(x)
    ensures x[0] != 48 ==> Number(x) > 0
  {
    if |x| == 1 {
    } else {
      NumeralPositive(x[..|x| - 1]);
    }
  }

  /** The signed 64-bit number that a text stands for, if it is written as the protocol wants it. */
  function Signed(x: seq<Byte>): Option<int> {
    if Numeral(x) && Number(x) <= 9223372036854775807 then Some(Number(x))
    else if x != [] && x[0] == 45 && Numeral(x[1..]) && 0 < Number(x[1..]) <= 9223372036854775808 then
      Some(-Number(x[1..]))
    else None
  }

  lemma SignedOfDecimal(v: int)
    requires InI64(v)
    ensures Signed(Decimal(v)) == Some(v)
  {
    hide Number, Digits;
    DigitsAreNumeral(if v < 0 then -v else v);
    if v < 0 {
      assert Decimal(v)[0] == 45 && Decimal(v)[1..] == Digits(-v);
    }
  }

  lemma DecimalOfSigned(x: seq<Byte>)
    requires Signed(x).Some?
    ensures Decimal(Signed(x).value) == x && InI64(Signed(x).value)
  {
    hide Number, Digits;
    if Numeral(x) {
      NumeralIsDigits(x);
    }
    if |x| > 1 && Numeral(x[1..]) {
      NumeralIsDigits(x[1..]);
      assert x == [x[0]] + x[1..];
    }
  }

  /** Exactly these texts are read as numbers. */
  lemma IntegerText(x: seq<Byte>)
    ensures ParseInt(x) == Signed(x)
  {
    hide Signed, Decimal, InI64;
    if ParseInt(x).Some? {
      SignedOfDecimal(ParseInt(x).value);
    } else if Signed(x).Some? {
      DecimalOfSigned(x);
    }
  }

  // ---------------------------------------------------------------- replies

  /** A text without a carriage return followed by a line feed. */
  predicate OneLine(x: seq<Byte>) {
    forall i :: 0 <= i < |x| - 1 ==> !(x[i] == 13 && x[i + 1] == 10)
  }

  lemma OneLineIs(x: seq<Byte>)
    requires OneLine(x)
    ensures NoCRLF(x) && LineEnd(x) == -1
  {
    assert forall i :: !IsCRLF(x, i);
  }

  /** What a reply whose first line is x ends in, by its first byte: + - : $ or *. */
  lemma WireReply(b: Byte, x: seq<Byte>, t: seq<Byte>, lvl: nat)
    requires OneLine(x) && lvl <= 8
    ensures var p := ParseReply([b] + (x + [13, 10]) + t, lvl);
            if b == 43 then p == Done(Status(x), t)
            else if b == 45 then p == Done(Error(x), t)
            else if b == 58 then
              match Signed(x)
              case None => p == Bad(BadInteger)
              case Some(n) => p == Done(Integer(n), t)
            else if b == 36 then
              match Signed(x)
              case None => p == Bad(BadBulkLength)
              case Some(n) =>
                if n < -1 then p == Bad(BulkLengthRange)
                else if n == -1 then p == Done(Nil, t)
                else if n + 2 <= |t| then p == Done(Bulk(t[..n]), t[n + 2..])
                else p == More
            else if b == 42 then
              if lvl == 8 then p == Bad(TooDeep)
              else
                match Signed(x)
                case None => p == Bad(BadMultiBulkLength)
                case Some(n) =>
                  if n < -1 || n > 2147483647 then p == Bad(MultiBulkLengthRange)
                  else if n == -1 then p == Done(Nil, t)
                  else
                    match ParseItems(t, n, lvl + 1)
                    case More => p == More
                    case Bad(e) => p == Bad(e)
                    case Done(items, rest) => p == Done(Array(items), rest)
            else p == Bad(BadTypeByte(b))
  {
    hide ParseInt, LineEnd, ParseItems;
    var s := [b] + (x + [13, 10]) + t;
    assert s[0] == b && s[1..] == x + CRLF + t;
    OneLineIs(x);
    LineEndOfText(x, t);
    IntegerText(x);
    if b == 42 && lvl < 8 && Signed(x).Some? && 0 <= Signed(x).value <= 2147483647 {
      var r := ParseItems(t, Signed(x).value, lvl + 1);
      assert r.Done? ==> [] + r.value == r.value;
    }
  }

  /** Without the end of its first line a reply is incomplete, unless its first byte already rules it out. */
  lemma WireUnfinished(b: Byte, x: seq<Byte>, lvl: nat)
    requires OneLine(x) && lvl <= 8
    ensures ParseReply([b] + x, lvl) ==
            if b !in {43, 45, 58, 36, 42} then Bad(BadTypeByte(b))
            else if b == 42 && lvl == 8 then Bad(TooDeep)
            else More
    ensures ParseReply([], lvl) == More
  {
    hide LineEnd, ParseItems, ParseInt;
    assert ([b] + x)[1..] == x;
    OneLineIs(x);
  }

  // ---------------------------------------------------------------- what is written

  lemma WireNumbers(x: seq<Byte>)
    requires Numeral(x)
    ensures Encode(Integer(Number(x))) == [58] + (x + [13, 10])
    ensures Number(x) > 0 ==> Encode(Integer(-Number(x))) == [58] + ([45] + x + [13, 10])
  {
    NumeralIsDigits(x);
  }

  lemma WireTexts(x: seq<Byte>)
    ensures Encode(Status(x)) == [43] + (x + [13, 10])
    ensures Encode(Error(x)) == [45] + (x + [13, 10])
    ensures Encode(Nil) == [36, 45, 49, 13, 10]
    ensures forall n :: Numeral(n) && Number(n) == |x| ==> Encode(Bulk(x)) == [36] + (n + [13, 10]) + (x + [13, 10])
  {
    assert Decimal(-1) == [45, 49];
    forall n | Numeral(n) && Number(n) == |x|
      ensures Digits(|x|) == n
    {
      NumeralIsDigits(n);
    }
  }

  /** The arguments of a command with the numerals of their lengths. */
  ghost function Arguments(argv: seq<seq<Byte>>, lengths: seq<seq<Byte>>): seq<Byte>
    requires |lengths| == |argv|
  {
    if argv == [] then []
    else
      [36] + (lengths[0] + [13, 10]) + (argv[0] + [13, 10]) + Arguments(argv[1..], lengths[1..])
  }

  lemma {:induction false} ArgumentBytes(argv: seq<seq<Byte>>, lengths: seq<seq<Byte>>)
    requires |lengths| == |argv|
    requires forall i :: 0 <= i < |argv| ==> Numeral(lengths[i]) && Number(lengths[i]) == |argv[i]|
    ensures EncodeItems(Bulks(argv)) == Arguments(argv, lengths)
  {
    if argv == [] {
    } else {
      ArgumentBytes(argv[1..], lengths[1..]);
      assert Bulks(argv)[1..] == Bulks(argv[1..]);
      WireTexts(argv[0]);
    }
  }

  /** The bytes of a command: its number of arguments, then each argument behind its length. */
  lemma CommandBytes(argv: seq<seq<Byte>>, count: seq<Byte>, lengths: seq<seq<Byte>>)
    requires Numeral(count) && Number(count) == |argv| == |lengths|
    requires forall i :: 0 <= i < |argv| ==> Numeral(lengths[i]) && Number(lengths[i]) == |argv[i]|
    ensures Wire(argv) == [42] + (count + [13, 10]) + Arguments(argv, lengths)
  {
    NumeralIsDigits(count);
    ArgumentBytes(argv, lengths);
  }
}
