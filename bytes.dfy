/** Machine integer widths that appear in dhash.go. */
module Bytes {

  /** Go's uint8 / byte. */
  newtype byte = x: int | 0 <= x < 0x100

  /** Go's uint32: the type of the channel values returned by color.RGBA(). */
  newtype uint32 = x: int | 0 <= x < 0x1_0000_0000

  /** The Go conversion byte(r): keeps the low eight bits of r and drops the rest. */
  function Low8(r: uint32): (b: byte)
    ensures r < 0x100 ==> b as int == r as int
    ensures (r as int - b as int) % 0x100 == 0
  {
    (r % 0x100) as byte
  }
}
