/** The 16-bit units of UTF-16 text (`QChar`). */
module Utf16 {
  type Unit = u: int | 0 <= u < 0x1_0000

  /** The unit of an ASCII character. */
  function Ascii(c: char): (u: Unit)
    requires c as int < 0x80
    ensures u == c as int
  {
    c as int
  }
}
