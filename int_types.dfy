/**
 * The fixed-width integer aliases of common/include/Pcsx2Types.h (s8 .. s64,
 * u8 .. u64) as bounded integers, and the C conversions between them that the
 * 128-bit types use.  Every alias is a range of the unbounded `int`; a
 * conversion that can change the value is written out as the reduction modulo
 * 2^N that C performs on a two's-complement host.
 */
module IntTypes {

  const TWO_7: int := 0x80
  const TWO_8: int := 0x100
  const TWO_15: int := 0x8000
  const TWO_16: int := 0x1_0000
  const TWO_31: int := 0x8000_0000
  const TWO_32: int := 0x1_0000_0000
  const TWO_48: int := 0x1_0000_0000_0000
  const TWO_56: int := 0x100_0000_0000_0000
  const TWO_63: int := 0x8000_0000_0000_0000
  const TWO_64: int := 0x1_0000_0000_0000_0000
  const TWO_127: int := 0x8000_0000_0000_0000_0000_0000_0000_0000
  const TWO_128: int := 0x1_0000_0000_0000_0000_0000_0000_0000_0000

  type u8 = x: int | 0 <= x < 0x100
  type u16 = x: int | 0 <= x < 0x1_0000
  type u32 = x: int | 0 <= x < 0x1_0000_0000
  type u64 = x: int | 0 <= x < 0x1_0000_0000_0000_0000

  /** `s8` is plain `char` in the source; it is taken to be signed, as on x86 hosts. */
  type s8 = x: int | -0x80 <= x < 0x80
  type s16 = x: int | -0x8000 <= x < 0x8000
  type s32 = x: int | -0x8000_0000 <= x < 0x8000_0000
  type s64 = x: int | -0x8000_0000_0000_0000 <= x < 0x8000_0000_0000_0000

  /** C conversion of an integer to `s32`: keeps the low 32 bits, read as two's complement. */
  function AsS32(x: int): (r: s32)
    ensures r % TWO_32 == x % TWO_32
    ensures -TWO_31 <= x < TWO_31 ==> r == x
  {
    var low := x % TWO_32;
    if low < TWO_31 then low else low - TWO_32
  }

  /** C conversion of an integer to `s16`: keeps the low 16 bits, read as two's complement. */
  function AsS16(x: int): (r: s16)
    ensures r % TWO_16 == x % TWO_16
    ensures -TWO_15 <= x < TWO_15 ==> r == x
  {
    var low := x % TWO_16;
    if low < TWO_15 then low else low - TWO_16
  }

  /** C conversion of an integer to a signed `s8`: keeps the low 8 bits, read as two's complement. */
  function AsS8(x: int): (r: s8)
    ensures r % TWO_8 == x % TWO_8
    ensures -TWO_7 <= x < TWO_7 ==> r == x
  {
    var low := x % TWO_8;
    if low < TWO_7 then low else low - TWO_8
  }
}
