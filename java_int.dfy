/**
 * Java's fixed-width integer arithmetic, written out over Dafny's unbounded
 * integers: an `int` is 32-bit two's complement, a `byte` 8-bit, a `short`
 * 16-bit, and the casts between them truncate.
 */
module JavaInt {

  const INT_MIN: int := -0x8000_0000
  const INT_MAX: int := 0x7fff_ffff
  const TWO32: int := 0x1_0000_0000

  /** The values of a Java `int`. */
  type int32 = x: int | -0x8000_0000 <= x < 0x8000_0000

  /** The values of a Java `short`. */
  type int16 = x: int | -0x8000 <= x < 0x8000

  /** The values of a Java `byte`. */
  type int8 = x: int | -128 <= x < 128

  /**
   * Two's-complement truncation of a mathematical integer to a Java `int`:
   * what every `int` addition, subtraction, multiplication and shift does.
   * Inside the range nothing changes; one step outside, the result wraps by 2^32.
   */
  function Wrap32(x: int): (r: int32)
    ensures INT_MIN <= x <= INT_MAX ==> r == x
    ensures INT_MAX < x <= INT_MAX + TWO32 ==> r == x - TWO32
    ensures INT_MIN - TWO32 <= x < INT_MIN ==> r == x + TWO32
  {
    (x + 0x8000_0000) % 0x1_0000_0000 - 0x8000_0000
  }

  /** The Java cast `(byte) x`: keeps the low eight bits, read as signed. */
  function ToByte(x: int): (r: int8)
    ensures -128 <= x < 128 ==> r == x
    ensures (x - r) % 256 == 0
  {
    (x + 128) % 256 - 128
  }

  /** The Java cast `(short) x`: keeps the low sixteen bits, read as signed. */
  function ToShort(x: int): (r: int16)
    ensures -0x8000 <= x < 0x8000 ==> r == x
    ensures 0x8000 <= x < 0x1_0000 ==> r == x - 0x1_0000
    ensures (x - r) % 0x1_0000 == 0
  {
    (x + 0x8000) % 0x1_0000 - 0x8000
  }
}
