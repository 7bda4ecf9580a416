/** Bytes of the input buffer and the ASCII character classes the scanner
    tests them against (Rust `u8`, `is_ascii_whitespace`, `is_ascii_alphabetic`,
    `is_ascii_digit`). */
module Ascii {

  /** One byte of the input (Rust `u8`). */
  type byte = b: int | 0 <= b < 0x100

  /** The byte under cursor index `i`, or the sentinel 0 once `i` is past the
      end of the input. */
  function At(input: seq<byte>, i: nat): byte {
    if i < |input| then input[i] else 0
  }

  /** Rust's `u8::is_ascii_whitespace`: space, tab, line feed, form feed and
      carriage return (vertical tab is not included). */
  predicate IsWhitespace(b: byte) {
    b == 0x20 || b == 0x09 || b == 0x0A || b == 0x0C || b == 0x0D
  }

  /** An ASCII letter or `_`: the identifier class, both for the first byte
      and for the rest of the run. */
  predicate IsIdentByte(b: byte) {
    || ('a' as int <= b <= 'z' as int)
    || ('A' as int <= b <= 'Z' as int)
    || b == '_' as int
  }

  /** Rust's `u8::is_ascii_digit`. */
  predicate IsDigit(b: byte) {
    '0' as int <= b <= '9' as int
  }

  /** The three byte classes the scanner consumes in runs. */
  datatype Class = Space | Letter | Digit

  predicate InClass(cls: Class, b: byte) {
    match cls
    case Space => IsWhitespace(b)
    case Letter => IsIdentByte(b)
    case Digit => IsDigit(b)
  }

  predicate IsAscii(bs: seq<byte>) {
    forall i :: 0 <= i < |bs| ==> bs[i] < 0x80
  }

  /** The sentinel 0 and every byte at or above 0x80 belong to no class. */
  lemma ClassesAreAsciiAndNonZero(cls: Class, b: byte)
    requires InClass(cls, b)
    ensures 0 < b < 0x80
  {
  }

  /** Decoding of an ASCII byte run into text.  The two `ensures` clauses are
      the ASCII reading of `String::from_utf8_lossy`: nothing is replaced or
      merged, so the text has one character per byte, with the byte's code. */
  function Text(bs: seq<byte>): (s: string)
    requires IsAscii(bs)
    ensures |s| == |bs|
    ensures forall i :: 0 <= i < |bs| ==> s[i] as int == bs[i]
  {
    seq(|bs|, i requires 0 <= i < |bs| => bs[i] as char)
  }
}
