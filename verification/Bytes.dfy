/** Bytes, the character codes the client compares against, and C strings. */
module Bytes {

  type Byte = b: int | 0 <= b < 256

  type ByteString = seq<Byte>

  /** Lengths and offsets that the code casts to int are below this. */
  const INT_LIMIT: nat := 0x8000_0000

  datatype Option<+T> = None | Some(value: T)

  function Map<A, B>(f: A -> B, s: seq<A>): (r: seq<B>)
    ensures |r| == |s| && forall i :: 0 <= i < |r| ==> r[i] == f(s[i])
  {
    seq(|s|, i requires 0 <= i < |s| => f(s[i]))
  }

  const NUL: Byte := 0
  const BEL: Byte := 7
  const BACKSPACE: Byte := 8
  const TAB: Byte := 9
  const LF: Byte := 10
  const CR: Byte := 13
  const SPACE: Byte := 32
  const QUOTE: Byte := 34
  const HASH: Byte := 35
  const DOLLAR: Byte := 36
  const PERCENT: Byte := 37
  const APOSTROPHE: Byte := 39
  const STAR: Byte := 42
  const PLUS: Byte := 43
  const MINUS: Byte := 45
  const DOT: Byte := 46
  const ZERO: Byte := 48
  const NINE: Byte := 57
  const COLON: Byte := 58
  const BACKSLASH: Byte := 92
  const LOWER_A: Byte := 97
  const LOWER_B: Byte := 98
  const LOWER_H: Byte := 104
  const LOWER_L: Byte := 108
  const LOWER_N: Byte := 110
  const LOWER_P: Byte := 112
  const LOWER_R: Byte := 114
  const LOWER_S: Byte := 115
  const LOWER_T: Byte := 116
  const LOWER_X: Byte := 120

  const CRLF: ByteString := [CR, LF]

  predicate IsDigit(b: Byte) {
    ZERO <= b <= NINE
  }

  /** isspace() in the C locale. */
  predicate IsSpace(b: Byte) {
    b == SPACE || TAB <= b <= CR
  }

  /** isprint() in the C locale. */
  predicate IsPrint(b: Byte) {
    32 <= b < 127
  }

  /** The bytes of a C string: those before the first NUL. */
  function CString(s: ByteString): (r: ByteString)
    ensures NUL !in r && r <= s
    ensures |r| < |s| ==> s[|r|] == NUL
  {
    if s == [] || s[0] == NUL then [] else [s[0]] + CString(s[1..])
  }

  /** Reading the i-th character of a NUL-terminated string. */
  function At(s: ByteString, i: nat): Byte {
    if i < |s| then s[i] else NUL
  }
}
