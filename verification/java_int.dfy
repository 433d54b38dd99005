/**
  Java's primitive `int` and `byte` and the handful of operators the key codec
  uses on them. Dafny integers are unbounded, so every place where Java
  silently truncates to 32 or 8 bits is written out here.
 */
module JavaInt {

  const TWO_7: int := 0x80
  const TWO_8: int := 0x100
  const TWO_31: int := 0x8000_0000
  const TWO_32: int := 0x1_0000_0000

  /** Java `int`: a 32-bit two's-complement integer. */
  newtype Int32 = x: int | -0x8000_0000 <= x < 0x8000_0000

  /** Java `byte`: an 8-bit two's-complement integer. */
  newtype Int8 = x: int | -0x80 <= x < 0x80

  const INT_MIN: Int32 := -0x8000_0000
  const INT_MAX: Int32 := 0x7FFF_FFFF

  /** Truncation of a mathematical integer to its low 32 bits, read as a signed
      `int`: what Java's `int` arithmetic does on overflow. */
  function Wrap(x: int): (r: Int32)
    ensures -TWO_31 <= x < TWO_31 ==> r as int == x
  {
    ((x + TWO_31) % TWO_32 - TWO_31) as Int32
  }

  /** Documents `Wrap`: it changes its argument by a multiple of 2^32 only,
      so it is truncation to 32 bits, not saturation. */
  lemma WrapIsTruncation(x: int)
    ensures (Wrap(x) as int - x) % TWO_32 == 0
  {
  }

  /** The 32 bits of `v` read as an unsigned number, the operand of `>>>`. */
  function Unsigned(v: Int32): (r: int)
    ensures 0 <= r < TWO_32
  {
    if v < 0 then v as int + TWO_32 else v as int
  }

  /** Distinct `int`s have distinct bit patterns. */
  lemma UnsignedInjective(v: Int32, w: Int32)
    requires Unsigned(v) == Unsigned(w)
    ensures v == w
  {
  }

  /** `x & 0xFF` on an `int` operand: its low eight bits, as a value 0..255. */
  function LowOctet(x: int): (r: int)
    ensures 0 <= r < TWO_8
  {
    x % TWO_8
  }

  /** The narrowing cast `(byte) x`: keeps the low eight bits and reads them as
      a signed byte. */
  function ToByte(x: int): (r: Int8)
    ensures LowOctet(r as int) == LowOctet(x)
  {
    var low := x % TWO_8;
    if low < TWO_7 then low as Int8 else (low - TWO_8) as Int8
  }
}
