/**
 * Go strings are byte sequences; `len` counts bytes and a `[]rune`
 * conversion decodes them as UTF-8, turning every byte that does not start
 * a valid encoding into U+FFFD.  The delimiter check in main.go depends on
 * exactly this, so the model works on bytes and code points explicitly.
 */
module Bytes {
  type Byte = b: int | 0 <= b < 0x100
  type CodePoint = c: int | 0 <= c < 0x11_0000

  /** utf8.RuneError, the code point a `[]rune` conversion yields for an invalid byte. */
  const RuneError: CodePoint := 0xFFFD

  /** A code point UTF-8 can encode: anything but a surrogate. */
  predicate IsScalarValue(c: CodePoint)
  {
    !(0xD800 <= c < 0xE000)
  }

  /** The UTF-8 bytes a Go string literal holding the one character `c` consists of. */
  function Utf8Encode(c: CodePoint): (r: seq<Byte>)
    requires IsScalarValue(c)
    ensures 1 <= |r| <= 4
    ensures |r| == 1 <==> c < 0x80
    ensures c >= 0x80 ==> forall i :: 0 <= i < |r| ==> r[i] >= 0x80
  {
    if c < 0x80 then [c]
    else if c < 0x800 then [0xC0 + c / 0x40, 0x80 + c % 0x40]
    else if c < 0x1_0000 then [0xE0 + c / 0x1000, 0x80 + (c / 0x40) % 0x40, 0x80 + c % 0x40]
    else [0xF0 + c / 0x4_0000, 0x80 + (c / 0x1000) % 0x40, 0x80 + (c / 0x40) % 0x40, 0x80 + c % 0x40]
  }

  /**
   * The first element of `[]rune(s)` when `s` is the single byte `b`:
   * an ASCII byte is its own code point, any other lone byte is not valid
   * UTF-8 and decodes to RuneError.
   */
  function DecodeSingleByte(b: Byte): (c: CodePoint)
    ensures b < 0x80 ==> c == b && Utf8Encode(c) == [b]
    ensures b >= 0x80 ==> c == RuneError
  {
    if b < 0x80 then b else RuneError
  }
}
