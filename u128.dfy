/**
 * The `u128` union of common/include/Pcsx2Types.h: sixteen bytes seen at once
 * as `lo`/`hi`, `_u64[2]`, `_u32[4]`, `_u16[8]` and `_u8[16]`.  The model
 * keeps the bytes themselves and gives every view as a little-endian load of
 * its own byte range (`_u64[i]` is bytes 8i..8i+7, `_u32[i]` bytes 4i..4i+3,
 * and so on), so that two views agree only where the lemmas below prove it.
 */
module U128Union {
  import opened IntTypes
  import opened ByteLayout

  /** The storage of one `u128`: exactly sixteen bytes. */
  type Bytes16 = s: seq<u8> | |s| == 16 witness seq(16, i => 0)

  datatype U128 = U128(bytes: Bytes16) {

    /** The anonymous struct member `lo`: bytes 0..7, least significant first. */
    function Lo(): (r: u64)
      ensures var b: seq<int> := bytes;
        r == b[0] + 0x100 * b[1] + 0x1_0000 * b[2] + 0x100_0000 * b[3]
        + 0x1_0000_0000 * b[4] + 0x100_0000_0000 * b[5] + 0x1_0000_0000_0000 * b[6]
        + 0x100_0000_0000_0000 * b[7]
    {
      Pow256Widths();
      DecodeEight(bytes[0..8]);
      Read(bytes, 0, 8)
    }

    /** The anonymous struct member `hi`: bytes 8..15, least significant first. */
    function Hi(): (r: u64)
      ensures var b: seq<int> := bytes;
        r == b[8] + 0x100 * b[9] + 0x1_0000 * b[10] + 0x100_0000 * b[11]
        + 0x1_0000_0000 * b[12] + 0x100_0000_0000 * b[13] + 0x1_0000_0000_0000 * b[14]
        + 0x100_0000_0000_0000 * b[15]
    {
      Pow256Widths();
      DecodeEight(bytes[8..16]);
      Read(bytes, 8, 8)
    }

    /** The element `_u64[i]`: bytes 8i..8i+7, least significant first. */
    function U64(i: nat): (r: u64)
      requires i < 2
      ensures var b: seq<int>, k := bytes, 8 * i;
        r == b[k] + 0x100 * b[k + 1] + 0x1_0000 * b[k + 2] + 0x100_0000 * b[k + 3]
        + 0x1_0000_0000 * b[k + 4] + 0x100_0000_0000 * b[k + 5]
        + 0x1_0000_0000_0000 * b[k + 6] + 0x100_0000_0000_0000 * b[k + 7]
    {
      Pow256Widths();
      DecodeEight(bytes[8 * i..8 * i + 8]);
      Read(bytes, 8 * i, 8)
    }

    /** The element `_u32[i]`: bytes 4i..4i+3, least significant first. */
    function U32(i: nat): (r: u32)
      requires i < 4
      ensures var b: seq<int>, k := bytes, 4 * i;
        r == b[k] + 0x100 * b[k + 1] + 0x1_0000 * b[k + 2] + 0x100_0000 * b[k + 3]
    {
      Pow256Widths();
      DecodeFour(bytes[4 * i..4 * i + 4]);
      Read(bytes, 4 * i, 4)
    }

    /** The element `_u16[i]`: bytes 2i and 2i+1, the first one low. */
    function U16(i: nat): (r: u16)
      requires i < 8
      ensures var b: seq<int> := bytes;
        r == b[2 * i] + 0x100 * b[2 * i + 1]
    {
      Pow256Widths();
      DecodeTwo(bytes[2 * i..2 * i + 2]);
      Read(bytes, 2 * i, 2)
    }

    /** The element `_u8[i]`: byte i itself. */
    function U8(i: nat): (r: u8)
      requires i < 16
      ensures r == bytes[i]
    {
      Pow256Widths();
      assert bytes[i..i + 1][1..] == [];
      Read(bytes, i, 1)
    }

    /** The unsigned 128-bit number the sixteen bytes hold. */
    function Value(): (r: nat)
      ensures r < TWO_128
    {
      Pow256Widths();
      Decode(bytes)
    }

    /** The two halves make up the whole number: `hi` is its upper 64 bits. */
    lemma ValueOfHalves()
      ensures Value() == Lo() + TWO_64 * Hi()
    {
      Pow256Widths();
      ReadSplit(bytes, 0, 8, 16);
      assert bytes[0..16] == bytes;
    }

    /**
     * The views alias one another: `lo` and `hi` are `_u64[0]` and `_u64[1]`,
     * and every element of a view is the element of the next narrower view
     * at twice its index plus the one after it shifted up by that view's width.
     */
    lemma ViewsAlias()
      ensures Lo() == U64(0) && Hi() == U64(1)
      ensures forall i :: 0 <= i < 2 ==> U64(i) == U32(2 * i) + TWO_32 * U32(2 * i + 1)
      ensures forall i :: 0 <= i < 4 ==> U32(i) == U16(2 * i) + TWO_16 * U16(2 * i + 1)
      ensures forall i :: 0 <= i < 8 ==> U16(i) == U8(2 * i) + TWO_8 * U8(2 * i + 1)
    {
      Pow256Widths();
      forall i | 0 <= i < 2
        ensures U64(i) == U32(2 * i) + TWO_32 * U32(2 * i + 1)
      {
        ReadSplit(bytes, 8 * i, 4, 8);
      }
      forall i | 0 <= i < 4
        ensures U32(i) == U16(2 * i) + TWO_16 * U16(2 * i + 1)
      {
        ReadSplit(bytes, 4 * i, 2, 4);
      }
      forall i | 0 <= i < 8
        ensures U16(i) == U8(2 * i) + TWO_8 * U8(2 * i + 1)
      {
        ReadSplit(bytes, 2 * i, 1, 2);
      }
    }

    /** `operator u32`: the element `_u32[0]`, which is the value truncated to 32 bits. */
    function ToU32(): (r: u32)
      ensures r == Value() % TWO_32
      ensures r == Lo() % TWO_32
    {
      Pow256Widths();
      ReadPrefix(bytes, 0, 4, 16);
      ReadPrefix(bytes, 0, 4, 8);
      assert bytes[0..16] == bytes;
      U32(0)
    }

    /** `operator u16`: the element `_u16[0]`, which is the value truncated to 16 bits. */
    function ToU16(): (r: u16)
      ensures r == Value() % TWO_16
      ensures r == Lo() % TWO_16
    {
      Pow256Widths();
      ReadPrefix(bytes, 0, 2, 16);
      ReadPrefix(bytes, 0, 2, 8);
      assert bytes[0..16] == bytes;
      U16(0)
    }

    /** `operator u8`: the element `_u8[0]`, which is the value truncated to 8 bits. */
    function ToU8(): (r: u8)
      ensures r == Value() % TWO_8
      ensures r == Lo() % TWO_8
    {
      Pow256Widths();
      ReadPrefix(bytes, 0, 1, 16);
      ReadPrefix(bytes, 0, 1, 8);
      assert bytes[0..16] == bytes;
      U8(0)
    }

    /** `operator==`: both halves match, which is the case exactly when all sixteen bytes do. */
    function Equals(right: U128): (r: bool)
      ensures r <==> this == right
      ensures r <==> Value() == right.Value()
    {
      SameHalvesSameBytes(this, right);
      SameValueSameBytes(this, right);
      Lo() == right.Lo() && Hi() == right.Hi()
    }

    /** `operator!=`: some half differs, which is exactly the negation of `==`. */
    function NotEquals(right: U128): (r: bool)
      ensures r <==> !Equals(right)
      ensures r <==> this != right
    {
      Lo() != right.Lo() || Hi() != right.Hi()
    }

    /**
     * `u128::From64`: stores `src` through `lo` and zero through `hi` into a
     * fresh union.  The union starts out uninitialised; `garbage` stands for
     * whatever its sixteen bytes held, and the result does not depend on it.
     */
    static method From64(src: u64, garbage: Bytes16) returns (r: U128)
      ensures r.Lo() == src && r.Hi() == 0
      ensures r.Value() == src
      ensures r.bytes == ZeroExt(src)
    {
      Pow256Widths();
      var retval := new u8[16](i requires 0 <= i < 16 => garbage[i]);
      StoreView(retval, 0, 8, src);  // retval.lo = src
      StoreView(retval, 8, 8, 0);    // retval.hi = 0
      r := U128(retval[..]);
      From64Stores(garbage, src);
      ZeroExtensionViews(src);
    }

    /**
     * `u128::From32`: stores `src` through `_u32[0]`, zero through `_u32[1]`
     * and zero through `hi`.  The three stores go through three different
     * views, and together they cover all sixteen bytes.
     */
    static method From32(src: u32, garbage: Bytes16) returns (r: U128)
      ensures r.U32(0) == src && r.U32(1) == 0 && r.Hi() == 0
      ensures r.Lo() == src
      ensures r.Value() == src
      ensures r.bytes == ZeroExt(src)
      ensures r.ToU32() == src
    {
      Pow256Widths();
      var retval := new u8[16](i requires 0 <= i < 16 => garbage[i]);
      StoreView(retval, 0, 4, src);  // retval._u32[0] = src
      StoreView(retval, 4, 4, 0);    // retval._u32[1] = 0
      StoreView(retval, 8, 8, 0);    // retval.hi = 0
      r := U128(retval[..]);
      From32Stores(garbage, src);
      ZeroExtensionViews(src);
    }
  }

  /** The sixteen bytes of `src` zero-extended: its little-endian encoding. */
  function ZeroExt(src: u64): (r: Bytes16)
    ensures Decode(r) == src
  {
    Pow256Widths();
    DecodeEncode(src, 16);
    Encode(src, 16)
  }

  /** The storage after the assignment `_u64[i] = v` (`lo` is `_u64[0]`, `hi` is `_u64[1]`). */
  function StoreU64(s: Bytes16, i: nat, v: u64): Bytes16
    requires i < 2
  {
    Pow256Widths();
    Write(s, 8 * i, 8, v)
  }

  /** The storage after the assignment `_u32[i] = v`. */
  function StoreU32(s: Bytes16, i: nat, v: u32): Bytes16
    requires i < 4
  {
    Pow256Widths();
    Write(s, 4 * i, 4, v)
  }

  /**
   * The stores of `u128::From64`, `lo = src` and then `hi = 0`, leave the
   * sixteen-byte little-endian encoding of `src`, whatever the bytes held before.
   */
  lemma From64Stores(garbage: Bytes16, src: u64)
    ensures StoreU64(StoreU64(garbage, 0, src), 1, 0) == ZeroExt(src)
  {
    Pow256Widths();
    var s1 := Write(garbage, 0, 8, src);
    var s2 := Write(s1, 8, 8, 0);
    ReadAfterDisjointWrite(s1, 8, 8, 0, 0, 8);
    ZeroExtended(U128(s2), src);
  }

  /**
   * The stores of `u128::From32`, `_u32[0] = src`, `_u32[1] = 0` and then
   * `hi = 0`, go through views of two widths; together they leave the
   * sixteen-byte little-endian encoding of `src`, whatever the bytes held before.
   */
  lemma From32Stores(garbage: Bytes16, src: u32)
    ensures StoreU64(StoreU32(StoreU32(garbage, 0, src), 1, 0), 1, 0) == ZeroExt(src)
  {
    Pow256Widths();
    var s1 := Write(garbage, 0, 4, src);
    var s2 := Write(s1, 4, 4, 0);
    var s3 := Write(s2, 8, 8, 0);
    ReadAfterDisjointWrite(s1, 4, 4, 0, 0, 4);
    ReadAfterDisjointWrite(s2, 8, 8, 0, 0, 4);
    ReadAfterDisjointWrite(s2, 8, 8, 0, 4, 4);
    ReadSplit(s3, 0, 4, 8);
    ZeroExtended(U128(s3), src);
  }

  /**
   * Read back through the views, the zero-extension of `src` has `lo == src`
   * and `hi == 0`, and, when `src` fits in 32 bits, `_u32[0] == src` and
   * `_u32[1] == 0`.
   */
  lemma ZeroExtensionViews(src: u64)
    ensures U128(ZeroExt(src)).Value() == src
    ensures U128(ZeroExt(src)).Lo() == src && U128(ZeroExt(src)).Hi() == 0
    ensures src < TWO_32 ==> U128(ZeroExt(src)).U32(0) == src && U128(ZeroExt(src)).U32(1) == 0
  {
    Pow256Widths();
    var r := U128(ZeroExt(src));
    r.ValueOfHalves();
    DivModUnique(src, TWO_64, r.Hi(), r.Lo());
    ReadSplit(r.bytes, 0, 4, 8);
    if src < TWO_32 {
      DivModUnique(src, TWO_32, r.U32(1), r.U32(0));
    }
  }

  /** Halves that match mean bytes that match: `lo` and `hi` together cover the union. */
  lemma SameHalvesSameBytes(a: U128, b: U128)
    ensures a.Lo() == b.Lo() && a.Hi() == b.Hi() <==> a == b
  {
    if a.Lo() == b.Lo() && a.Hi() == b.Hi() {
      DecodeInjective(a.bytes[0..8], b.bytes[0..8]);
      DecodeInjective(a.bytes[8..16], b.bytes[8..16]);
      assert a.bytes == a.bytes[0..8] + a.bytes[8..16];
      assert b.bytes == b.bytes[0..8] + b.bytes[8..16];
    }
  }

  /** Two unions hold the same 128-bit number exactly when they hold the same bytes. */
  lemma SameValueSameBytes(a: U128, b: U128)
    ensures a.Value() == b.Value() <==> a == b
  {
    if a.Value() == b.Value() {
      DecodeInjective(a.bytes, b.bytes);
    }
  }

  /** A union whose `lo` is `src` and whose `hi` is zero holds `src` zero-extended. */
  lemma ZeroExtended(r: U128, src: u64)
    requires r.Lo() == src && r.Hi() == 0
    ensures r.Value() == src && r.bytes == ZeroExt(src)
  {
    Pow256Widths();
    r.ValueOfHalves();
    EncodeDecode(r.bytes);
  }

  /**
   * Storing `v` through `_u32[i]` and loading the two `_u16` elements it
   * overlaps: on a little-endian host `_u16[2i]` holds the low 16 bits of `v`
   * and `_u16[2i + 1]` the high 16 bits.
   */
  lemma StoreU32LoadU16(u: U128, i: nat, v: u32)
    requires i < 4
    ensures U128(StoreU32(u.bytes, i, v)).U16(2 * i) == v % TWO_16
    ensures U128(StoreU32(u.bytes, i, v)).U16(2 * i + 1) == v / TWO_16
  {
    Pow256Widths();
    WriteThenReadHalves(u.bytes, 4 * i, 2, v);
  }

  /**
   * A store of the n-byte value v through the view element at byte offset
   * off, as in `retval._u32[1] = 0`: the other bytes of the union keep their
   * contents.
   */
  method StoreView(a: array<u8>, off: nat, n: nat, v: nat)
    requires off + n <= a.Length && v < Pow256(n)
    modifies a
    ensures a[..] == Write(old(a[..]), off, n, v)
  {
    var encoded := Encode(v, n);
    forall k | off <= k < off + n {
      a[k] := encoded[k - off];
    }
    assert a[..] == old(a[..])[..off] + encoded + old(a[..])[off + n..];
  }
}
