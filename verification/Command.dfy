/** The two command formatters of hiredis.c: a predicted length, a buffer filled to exactly that
    length, and the bytes the reader turns back into the arguments. */
module Command {
  import opened Bytes
  import opened IntText
  import opened Resp

  ghost function Bulks(argv: seq<seq<Byte>>): (items: seq<Reply>)
    ensures |items| == |argv|
  {
    seq(|argv|, i requires 0 <= i < |argv| => Bulk(argv[i]))
  }

  /** The wire form of a command: an array of bulk strings. */
  ghost function Wire(argv: seq<seq<Byte>>): seq<Byte> {
    Line(ArrayK, Digits(|argv|)) + EncodeItems(Bulks(argv))
  }

  lemma WireIsEncoding(argv: seq<seq<Byte>>)
    ensures Wire(argv) == Encode(Array(Bulks(argv)))
  {
  }

  ghost function Header(k: Kind, n: nat): seq<Byte> {
    Line(k, Digits(n))
  }

  lemma {:induction false} ItemsAppend(a: seq<Reply>, r: Reply)
    ensures EncodeItems(a + [r]) == EncodeItems(a) + Encode(r)
    decreases |a|
  {
    if a == [] {
      assert a + [r] == [r] && [r][1..] == [];
    } else {
      assert (a + [r])[1..] == a[1..] + [r];
      ItemsAppend(a[1..], r);
    }
  }

  /** The bytes of the first j arguments and of the next one. */
  lemma NextArgument(argv: seq<seq<Byte>>, j: nat)
    requires j < |argv|
    ensures EncodeItems(Bulks(argv[..j + 1])) ==
            EncodeItems(Bulks(argv[..j])) + (Header(BulkK, |argv[j]|) + (argv[j] + CRLF))
  {
    assert Bulks(argv[..j + 1]) == Bulks(argv[..j]) + [Bulk(argv[j])];
    ItemsAppend(Bulks(argv[..j]), Bulk(argv[j]));
  }

  lemma {:induction false} PrefixShorter(argv: seq<seq<Byte>>, j: nat)
    requires j <= |argv|
    ensures |EncodeItems(Bulks(argv[..j]))| <= |EncodeItems(Bulks(argv))|
    decreases |argv| - j
  {
    if j < |argv| {
      NextArgument(argv, j);
      PrefixShorter(argv, j + 1);
    } else {
      assert argv[..j] == argv;
    }
  }

  /** bulklen: the predicted wire length of one argument. */
  method Bulklen(len: nat) returns (n: nat)
    ensures n == |Header(BulkK, len)| + len + 2
  {
    var digits := CountDigits(len);
    n := 1 + digits + 2 + len + 2;
  }

  /** The length prediction both formatters start with. */
  method PredictLength(argv: seq<seq<Byte>>) returns (totlen: nat)
    ensures totlen == |Wire(argv)|
  {
    var digits := CountDigits(|argv|);
    totlen := 1 + digits + 2;
    var j := 0;
    assert argv[..0] == [] && argv[..|argv|] == argv;
    while j < |argv|
      invariant 0 <= j <= |argv|
      invariant totlen == |Header(ArrayK, |argv|)| + |EncodeItems(Bulks(argv[..j]))|
    {
      NextArgument(argv, j);
      var n := Bulklen(|argv[j]|);
      totlen := totlen + n;
      j := j + 1;
    }
  }

  /** memcpy into the command buffer. */
  method Write(cmd: array<Byte>, pos: nat, bytes: seq<Byte>)
    requires pos + |bytes| <= cmd.Length
    modifies cmd
    ensures cmd[..pos + |bytes|] == old(cmd[..pos]) + bytes
  {
    forall k | 0 <= k < |bytes| {
      cmd[pos + k] := bytes[k];
    }
    assert cmd[..pos] == old(cmd[..pos]);
    assert cmd[pos..pos + |bytes|] == bytes;
    assert cmd[..pos + |bytes|] == cmd[..pos] + cmd[pos..pos + |bytes|];
  }

  /** sprintf of a type byte, a decimal and CRLF, with the terminating NUL it writes behind them. */
  method WriteHeader(cmd: array<Byte>, pos: nat, k: Kind, n: nat) returns (written: nat)
    requires pos + |Header(k, n)| < cmd.Length
    modifies cmd
    ensures written == |Header(k, n)|
    ensures cmd[..pos + written] == old(cmd[..pos]) + Header(k, n)
  {
    var text := [TypeByte(k)] + (Digits(n) + CRLF);
    written := |text|;
    Write(cmd, pos, text);
    ghost var before := cmd[..pos + written];
    cmd[pos + written] := 0;
    assert cmd[..pos + written] == before;
  }

  /** One turn of the fill loop: length line, bytes, CRLF. */
  method WriteArgument(cmd: array<Byte>, pos0: nat, arg: seq<Byte>) returns (pos: nat)
    requires pos0 + |Header(BulkK, |arg|)| + |arg| + 2 < cmd.Length
    modifies cmd
    ensures pos == pos0 + |Header(BulkK, |arg|)| + |arg| + 2
    ensures cmd[..pos] == old(cmd[..pos0]) + (Header(BulkK, |arg|) + (arg + CRLF))
  {
    hide Header;
    pos := WriteHeader(cmd, pos0, BulkK, |arg|);
    pos := pos0 + pos;
    Write(cmd, pos, arg);
    pos := pos + |arg|;
    Write(cmd, pos, CRLF);
    pos := pos + 2;
  }

  /** redisFormatCommandArgv: fills a buffer of the predicted size; the final assert is proved. */
  method FormatCommandArgv(argv: seq<seq<Byte>>) returns (totlen: nat, cmd: array<Byte>)
    requires |Wire(argv)| < INT_MAX
    ensures fresh(cmd) && cmd.Length == totlen + 1
    ensures totlen == |Wire(argv)| && cmd[..totlen] == Wire(argv) && cmd[totlen] == 0
  {
    hide Header, EncodeItems, Digits, Bulks, Line;
    totlen := PredictLength(argv);
    assert Wire(argv) == Header(ArrayK, |argv|) + EncodeItems(Bulks(argv)) by {
      WireSplit(argv);
    }
    cmd := new Byte[totlen + 1](_ => 0);
    var pos := WriteHeader(cmd, 0, ArrayK, |argv|);
    var j := 0;
    EmptyPrefix(argv);
    while j < |argv|
      invariant 0 <= j <= |argv| && cmd.Length == totlen + 1 && fresh(cmd)
      invariant pos == |Header(ArrayK, |argv|)| + |EncodeItems(Bulks(argv[..j]))| <= totlen
      invariant cmd[..pos] == Header(ArrayK, |argv|) + EncodeItems(Bulks(argv[..j]))
    {
      NextArgument(argv, j);
      PrefixShorter(argv, j + 1);
      pos := WriteArgument(cmd, pos, argv[j]);
      j := j + 1;
    }
    assert argv[..j] == argv;
    assert pos == totlen;
    ghost var text := cmd[..pos];
    cmd[pos] := 0;
    assert cmd[..totlen] == text;
  }

  lemma WireSplit(argv: seq<seq<Byte>>)
    ensures Wire(argv) == Header(ArrayK, |argv|) + EncodeItems(Bulks(argv))
  {
  }

  lemma EmptyPrefix(argv: seq<seq<Byte>>)
    ensures argv[..0] == [] && EncodeItems(Bulks(argv[..0])) == []
  {
  }

  /** sdscatfmt of "*%i\r\n" and "$%u\r\n": the number goes through the printers of sds.c. */
  method CatHeader(cmd0: seq<Byte>, k: Kind, n: nat) returns (cmd: seq<Byte>)
    requires n <= INT_MAX
    ensures cmd == cmd0 + Header(k, n)
  {
    var text := new Byte[21](_ => 0);
    var l;
    if k == ArrayK {
      l := Sdsll2str(text, n);
    } else {
      l := Sdsull2str(text, n % 0x1_0000_0000);
    }
    cmd := cmd0 + [TypeByte(k)] + text[..l] + CRLF;
    assert text[..l] == Digits(n);
  }

  /** redisFormatSdsCommandArgv: appends the same bytes to a growing string. */
  method FormatSdsCommandArgv(argv: seq<seq<Byte>>) returns (totlen: nat, cmd: seq<Byte>)
    requires |Wire(argv)| < INT_MAX
    ensures cmd == Wire(argv) && totlen == |cmd|
  {
    hide Header, EncodeItems, Digits, Bulks, Line;
    totlen := PredictLength(argv);
    WireSplit(argv);
    ArgumentsFit(argv);
    EmptyPrefix(argv);
    cmd := CatHeader([], ArrayK, |argv|);
    var j := 0;
    while j < |argv|
      invariant 0 <= j <= |argv|
      invariant cmd == Header(ArrayK, |argv|) + EncodeItems(Bulks(argv[..j]))
    {
      NextArgument(argv, j);
      ghost var before := cmd;
      cmd := CatHeader(cmd, BulkK, |argv[j]|);
      cmd := cmd + argv[j];
      cmd := cmd + CRLF;
      assert cmd == before + (Header(BulkK, |argv[j]|) + (argv[j] + CRLF));
      j := j + 1;
    }
    assert argv[..j] == argv;
    assert |cmd| == totlen;
  }

  /** Nothing in a command of bounded total size exceeds the bound. */
  lemma ArgumentsFit(argv: seq<seq<Byte>>)
    requires |Wire(argv)| < INT_MAX
    ensures |argv| <= INT_MAX && forall j :: 0 <= j < |argv| ==> |argv[j]| <= INT_MAX
  {
    CountFits(argv, |argv|);
    assert argv[..|argv|] == argv;
    forall j | 0 <= j < |argv|
      ensures |argv[j]| <= INT_MAX
    {
      NextArgument(argv, j);
      PrefixShorter(argv, j + 1);
    }
  }

  lemma {:induction false} CountFits(argv: seq<seq<Byte>>, j: nat)
    requires j <= |argv|
    ensures j <= |EncodeItems(Bulks(argv[..j]))|
  {
    if j == 0 {
    } else {
      NextArgument(argv, j - 1);
      CountFits(argv, j - 1);
    }
  }

  /** The reader turns the bytes of a command back into exactly its arguments, and leaves exactly
      the bytes behind them. */
  lemma CommandRoundTrip(argv: seq<seq<Byte>>, t: seq<Byte>)
    requires |Wire(argv)| < INT_MAX
    ensures ParseReply(Wire(argv) + t, 0) == Done(Array(Bulks(argv)), t)
  {
    ArgumentsFit(argv);
    WireIsEncoding(argv);
    FlatDepth(Bulks(argv));
    RoundTrip(Array(Bulks(argv)), t, 0);
  }

  lemma {:induction false} FlatDepth(items: seq<Reply>)
    requires forall i :: 0 <= i < |items| ==> !items[i].Array?
    ensures DepthOf(items) == 0
  {
    if items == [] {
    } else {
      FlatDepth(items[1..]);
    }
  }
}
