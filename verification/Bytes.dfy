/** Bytes and the few helpers every module shares. */
module Bytes {

  type byte = b: int | 0 <= b < 256
  type bytes = seq<byte>

  const QUOTE: byte := 0x22
  const PLUS: byte := 0x2B
  const COMMA: byte := 0x2C
  const MINUS: byte := 0x2D
  const DOT: byte := 0x2E
  const SLASH: byte := 0x2F
  const ZERO: byte := 0x30
  const NINE: byte := 0x39
  const COLON: byte := 0x3A
  const UPPER_E: byte := 0x45
  const LOWER_E: byte := 0x65
  const BACKSLASH: byte := 0x5C
  const LEFT_BRACKET: byte := 0x5B
  const RIGHT_BRACKET: byte := 0x5D
  const LEFT_BRACE: byte := 0x7B
  const RIGHT_BRACE: byte := 0x7D
  const LOWER_U: byte := 0x75
  const SPACE: byte := 0x20
  const NEWLINE: byte := 0x0A

  predicate IsDigit(b: byte) {
    ZERO <= b <= NINE
  }

  predicate AllDigits(s: bytes) {
    forall i :: 0 <= i < |s| ==> IsDigit(s[i])
  }

  /** The byte a C string yields at position i: past the end there is the terminating NUL. */
  function At(s: bytes, i: nat): byte {
    if i < |s| then s[i] else 0
  }

  /** The bytes of a text of ASCII characters. */
  function Ascii(s: string): (r: bytes)
    requires forall i :: 0 <= i < |s| ==> s[i] as int < 128
    ensures |r| == |s| && forall i :: 0 <= i < |s| ==> r[i] == s[i] as int
  {
    seq(|s|, i requires 0 <= i < |s| => s[i] as int)
  }

  predicate IsChar(b: byte, c: char) {
    b == c as int
  }

  datatype Option<+T> = None | Some(value: T)

  datatype Result<+T, +E> = Ok(value: T) | Err(error: E)

  lemma SliceOfSlice<T>(s: seq<T>, a: nat, b: nat, c: nat, d: nat)
    requires a <= b <= |s| && c <= d <= b - a
    ensures s[a..b][c..d] == s[a + c..a + d]
  {
    var t := s[a..b];
    assert forall i :: 0 <= i < d - c ==> t[c..d][i] == t[c + i] == s[a + c + i];
  }
}
