/** Bytes, machine integer widths and the Option type shared by all modules. */
module Bytes {
  type Byte = b: int | 0 <= b < 256

  /** A C string without its terminator. */
  type CString = s: seq<Byte> | forall i :: 0 <= i < |s| ==> s[i] != 0

  /** Reading a C string: the terminator follows the last character. */
  function At(s: CString, i: nat): (b: Byte)
    requires i <= |s|
    ensures b == 0 <==> i == |s|
  {
    if i < |s| then s[i] else 0
  }

  datatype Option<+T> = None | Some(value: T)

  const INT_MAX := 0x7FFF_FFFF
  const LLONG_MAX := 0x7FFF_FFFF_FFFF_FFFF
  const LLONG_MIN := -0x8000_0000_0000_0000
  const ULLONG_MAX := 0xFFFF_FFFF_FFFF_FFFF

  const CR: Byte := 13
  const LF: Byte := 10
  const CRLF: seq<Byte> := [CR, LF]

  /** The unsigned 64-bit value an integer wraps to. */
  function WrapU64(v: int): (u: int)
    ensures 0 <= u <= ULLONG_MAX
    ensures 0 <= v <= ULLONG_MAX ==> u == v
    ensures -ULLONG_MAX - 1 <= v < 0 ==> u == v + ULLONG_MAX + 1
  {
    v % (ULLONG_MAX + 1)
  }

  /** The two's complement signed value an integer wraps to. */
  function WrapI64(v: int): (i: int)
    ensures LLONG_MIN <= i <= LLONG_MAX
    ensures LLONG_MIN <= v <= LLONG_MAX ==> i == v
    ensures v == LLONG_MAX + 1 ==> i == LLONG_MIN
  {
    var u := WrapU64(v);
    if u <= LLONG_MAX then u else u - ULLONG_MAX - 1
  }
}
