/** Go's `byte` and `rune` and the three byte constants the engine compares against. */
module Bytes {

  /** Go `byte`: an unsigned 8-bit value. */
  type Byte = b: int | 0 <= b < 256

  /** Go `rune`: a signed 32-bit code point, as returned by a key read. */
  type Rune = r: int | -0x8000_0000 <= r < 0x8000_0000

  /** The word separator `' '`. */
  const Space: Byte := 32

  /** The glyph `'_'` that stands in for an unverified space on screen. */
  const Placeholder: Byte := 95

  /** The key code the driver treats as backspace. */
  const Backspace: Rune := 127

  /** The conversion `byte(r)`: keeps the low 8 bits of the two's-complement rune. */
  function ByteOf(r: Rune): (b: Byte)
    ensures (r - b) % 256 == 0
    ensures 0 <= r < 256 ==> b == r
  {
    r % 256
  }
}
