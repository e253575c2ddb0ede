/**
 * The `s128` struct of common/include/Pcsx2Types.h: a signed 128-bit number
 * kept as two signed 64-bit words.  Read as one two's-complement number, `hi`
 * carries the sign and the upper 64 bits and `lo` the lower 64 bits as an
 * unsigned pattern.
 */
module S128Struct {
  import opened IntTypes
  import opened ByteLayout

  datatype S128 = S128(lo: s64, hi: s64) {

    /** The signed 128-bit two's-complement number the two words make up. */
    function Value(): int {
      hi * TWO_64 + lo % TWO_64
    }

    /**
     * `s128::From64(s64)`: `lo` is `src` and `hi` repeats its sign bit (all
     * ones or all zeros), so the 128-bit number is `src` sign-extended.
     */
    static function From64(src: s64): (r: S128)
      ensures r.Value() == src
      ensures r.lo == src
      ensures r.hi == -1 <==> src < 0
    {
      S128(src, if src < 0 then -1 else 0)
    }

    /**
     * The `s128::From64(s32)` overload: the `s32` is widened to `lo` with its
     * value kept, and `hi` repeats its sign, so the 128-bit number is `src`.
     */
    static function From64S32(src: s32): (r: S128)
      ensures r.Value() == src
      ensures r == From64(src)
    {
      S128(src, if src < 0 then -1 else 0)
    }

    /**
     * `operator u32`, written `(s32)lo` and returned as `u32`: the low 32 bits
     * of `lo`, which are the low 32 bits of the whole number.
     */
    function ToU32(): (r: u32)
      ensures r == lo % TWO_32
      ensures r == Value() % TWO_32
    {
      LowBitsOfValue(this);
      AsS32(lo) % TWO_32
    }

    /** `operator u16`, written `(s16)lo`: the low 16 bits of the number. */
    function ToU16(): (r: u16)
      ensures r == lo % TWO_16
      ensures r == Value() % TWO_16
    {
      LowBitsOfValue(this);
      AsS16(lo) % TWO_16
    }

    /** `operator u8`, written `(s8)lo`: the low 8 bits of the number. */
    function ToU8(): (r: u8)
      ensures r == lo % TWO_8
      ensures r == Value() % TWO_8
    {
      LowBitsOfValue(this);
      AsS8(lo) % TWO_8
    }

    /** `operator==`: both words match, which is the case exactly when the 128-bit numbers do. */
    function Equals(right: S128): (r: bool)
      ensures r <==> this == right
      ensures r <==> Value() == right.Value()
    {
      ValueInjective(this, right);
      lo == right.lo && hi == right.hi
    }

    /** `operator!=`: some word differs, which is exactly the negation of `==`. */
    function NotEquals(right: S128): (r: bool)
      ensures r <==> !Equals(right)
      ensures r <==> this != right
    {
      lo != right.lo || hi != right.hi
    }
  }

  /** Every pair of words stands for a number in the signed 128-bit range. */
  lemma ValueRange(x: S128)
    ensures -TWO_127 <= x.Value() < TWO_127
  {
    assert 0 <= x.lo % TWO_64 < TWO_64;
    assert -TWO_63 * TWO_64 <= x.hi * TWO_64 < TWO_63 * TWO_64 by {
      MulBounds(x.hi, TWO_64, TWO_63);
    }
  }

  lemma MulBounds(h: int, m: int, b: int)
    requires m > 0 && -b <= h < b
    ensures -b * m <= h * m < b * m
  {
    MulDistributes(m, h, b);
    MulDistributes(m, h, -b);
    assert (h + b) * m >= 0;
    assert (b - h) * m > 0 by {
      MulAtLeast(b - h, m);
    }
  }

  /** The number determines both words: no two distinct pairs stand for one number. */
  lemma ValueInjective(a: S128, b: S128)
    ensures a.Value() == b.Value() <==> a == b
  {
    if a.Value() == b.Value() {
      DivModUnique(a.Value(), TWO_64, a.hi, a.lo % TWO_64);
      DivModUnique(b.Value(), TWO_64, b.hi, b.lo % TWO_64);
      assert a.lo % TWO_64 == b.lo % TWO_64;
    }
  }

  /** The low bits of the number are the low bits of `lo`: `hi` only adds multiples of 2^64. */
  lemma LowBitsOfValue(x: S128)
    ensures x.Value() % TWO_32 == x.lo % TWO_32
    ensures x.Value() % TWO_16 == x.lo % TWO_16
    ensures x.Value() % TWO_8 == x.lo % TWO_8
  {
    var low := x.lo % TWO_64;
    var q := x.lo / TWO_64;
    assert x.lo == TWO_64 * q + low;
    assert x.Value() == TWO_64 * x.hi + low;
    LowBitsUnchanged(x.hi, low, TWO_32, TWO_32);
    LowBitsUnchanged(q, low, TWO_32, TWO_32);
    LowBitsUnchanged(x.hi, low, TWO_16, TWO_48);
    LowBitsUnchanged(q, low, TWO_16, TWO_48);
    LowBitsUnchanged(x.hi, low, TWO_8, TWO_56);
    LowBitsUnchanged(q, low, TWO_8, TWO_56);
  }

  /** Adding a multiple of m * c leaves the remainder modulo m alone. */
  lemma LowBitsUnchanged(k: int, x: int, m: int, c: int)
    requires m > 0
    ensures (m * c * k + x) % m == x % m
  {
    MulAssociates(m, c, k);
    MulDistributes(m, c * k, x / m);
    DivModUnique(m * c * k + x, m, c * k + x / m, x % m);
  }
}
