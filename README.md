# PCSX2 128-bit integer types in Dafny

This project models the two 128-bit integer types that `common/include/Pcsx2Types.h`
of the PCSX2 emulator defines, and proves what their conversions and comparisons do.

- `u128` is a union. The same sixteen bytes are readable and writable as
  `lo`/`hi`, `_u64[2]`, `_u32[4]`, `_u16[8]` and `_u8[16]`. It has two
  zero-extending constructors (`From64`, `From32`), three truncating
  conversions (`operator u32/u16/u8`) and `==`/`!=`.
- `s128` is a struct of two `s64` words `lo` and `hi`. It has the two
  sign-extending `From64` overloads (from `s64` and from `s32`), the three
  conversions `(s32)lo`, `(s16)lo`, `(s8)lo` returned as unsigned, and `==`/`!=`.

Files:

- `int_types.dfy` (module `IntTypes`) holds the fixed-width aliases as bounded
  integers. It also holds C's conversions to `s32`, `s16` and `s8`, written out
  as reduction modulo 2^N.
- `byte_layout.dfy` (module `ByteLayout`) is little-endian byte memory.
  `Read` loads an n-byte unsigned value at an offset and `Write` stores one.
  The lemmas there are the laws of the union: read-after-write, disjoint stores,
  splitting a wide view into two narrow ones, and truncation by a narrow load.
- `u128.dfy` (module `U128Union`) models the `u128` union. It is a datatype over
  its sixteen bytes, with every view a load of its own byte range. Byte 0 is the
  least significant, as on the little-endian hosts the union assumes.
  `From64` and `From32` are methods. Each fills a local sixteen-byte array
  through the same view stores the source performs, in the same order.
- `s128.dfy` (module `S128Struct`) models `s128` as a datatype of two `s64`
  words. Its meaning is the 128-bit two's-complement number `hi * 2^64 + (lo mod 2^64)`.

Every integer in the model is unbounded. Widths are subset types, and each
truncation the C code performs is written as an explicit `%`.

## Model

| member | source | states |
|---|---|---|
| `IntTypes.AsS32` | common/include/Pcsx2Types.h:143 | the `(s32)` cast keeps its operand modulo 2^32 and leaves an operand already in `s32` range unchanged |
| `IntTypes.AsS16` | common/include/Pcsx2Types.h:144 | the `(s16)` cast keeps its operand modulo 2^16 and leaves an in-range operand unchanged |
| `IntTypes.AsS8` | common/include/Pcsx2Types.h:145 | the `(s8)` cast keeps its operand modulo 2^8 and leaves an in-range operand unchanged |
| `ByteLayout.Decode` | common/include/Pcsx2Types.h:66-77 | an n-byte little-endian view element always holds a value below 256^n |
| `ByteLayout.Encode` | common/include/Pcsx2Types.h:66-77 | the little-endian encoding of a value in n bytes is n bytes long |
| `ByteLayout.DecodeEncode` | common/include/Pcsx2Types.h:66-77 | storing a value that fits in n bytes and reading the n bytes back gives the value |
| `ByteLayout.EncodeDecode` | common/include/Pcsx2Types.h:66-77 | re-encoding the value of any byte string gives back the same bytes |
| `ByteLayout.DecodeInjective` | common/include/Pcsx2Types.h:66-77 | two byte strings of one length with the same value are equal |
| `ByteLayout.DecodeAppend` | common/include/Pcsx2Types.h:66-77 | the value of s followed by t is value(s) plus 256 to the power of the length of s, times value(t): later bytes are more significant |
| `ByteLayout.Read` | common/include/Pcsx2Types.h:66-77 | a load of n bytes yields a value below 256^n |
| `ByteLayout.Write` | common/include/Pcsx2Types.h:66-77 | a store through a view is read back exactly by the same view and changes no byte outside its range |
| `ByteLayout.ReadAfterDisjointWrite` | common/include/Pcsx2Types.h:66-77 | a load whose bytes a store does not overlap sees the same value as before the store |
| `ByteLayout.ReadSplit` | common/include/Pcsx2Types.h:66-77 | an n-byte element is its first k bytes plus 256^k times its remaining bytes |
| `ByteLayout.ReadPrefix` | common/include/Pcsx2Types.h:66-77 | loading only the first k bytes of an element gives the element modulo 256^k |
| `ByteLayout.WriteThenReadHalves` | common/include/Pcsx2Types.h:66-77 | after a 2n-byte store of v, the low n-byte half reads v mod 256^n and the high half v div 256^n |
| `U128Union.U128.Lo` | common/include/Pcsx2Types.h:70 | `lo` is bytes 0..7 read least significant first, a `u64` |
| `U128Union.U128.Hi` | common/include/Pcsx2Types.h:71 | `hi` is bytes 8..15 read least significant first, a `u64` |
| `U128Union.U128.U64` | common/include/Pcsx2Types.h:74 | `_u64[i]` (i < 2) is bytes 8i..8i+7 read least significant first, a `u64` |
| `U128Union.U128.U32` | common/include/Pcsx2Types.h:75 | `_u32[i]` (i < 4) is bytes 4i..4i+3 read least significant first, a `u32` |
| `U128Union.U128.U16` | common/include/Pcsx2Types.h:76 | `_u16[i]` (i < 8) is byte 2i plus 256 times byte 2i+1, a `u16` |
| `U128Union.U128.U8` | common/include/Pcsx2Types.h:77 | `_u8[i]` (i < 16) is byte i |
| `ByteLayout.DecodeTwo` | common/include/Pcsx2Types.h:76 | two bytes read little-endian are the first plus 256 times the second |
| `ByteLayout.DecodeFour` | common/include/Pcsx2Types.h:75 | four bytes read little-endian weigh 1, 2^8, 2^16 and 2^24 in order |
| `ByteLayout.DecodeEight` | common/include/Pcsx2Types.h:70-74 | eight bytes read little-endian weigh 1, 2^8, ..., 2^56 in order |
| `U128Union.ZeroExt` | common/include/Pcsx2Types.h:80-96 | the sixteen-byte zero-extension of `src` has value `src` |
| `U128Union.U128.Value` | common/include/Pcsx2Types.h:66-77 | the sixteen bytes hold an unsigned number below 2^128 |
| `U128Union.U128.ValueOfHalves` | common/include/Pcsx2Types.h:68-72 | the 128-bit value is `lo + 2^64 * hi` |
| `U128Union.U128.ViewsAlias` | common/include/Pcsx2Types.h:66-77 | `lo == _u64[0]`, `hi == _u64[1]`, and each `_u64`, `_u32`, `_u16` element is built from the two narrower elements below it, low one first |
| `U128Union.U128.ToU32` | common/include/Pcsx2Types.h:98 | `operator u32` gives the 128-bit value modulo 2^32, which is also `lo` modulo 2^32 |
| `U128Union.U128.ToU16` | common/include/Pcsx2Types.h:99 | `operator u16` gives the value modulo 2^16, which is also `lo` modulo 2^16 |
| `U128Union.U128.ToU8` | common/include/Pcsx2Types.h:100 | `operator u8` gives the value modulo 2^8, which is also `lo` modulo 2^8 |
| `U128Union.U128.Equals` | common/include/Pcsx2Types.h:102-105 | `==` holds exactly when the two unions are the same sixteen bytes, and exactly when their 128-bit values are equal |
| `U128Union.U128.NotEquals` | common/include/Pcsx2Types.h:107-110 | `!=` is the negation of `==`, and holds exactly when the unions differ |
| `U128Union.U128.From64` | common/include/Pcsx2Types.h:80-86 | whatever the uninitialised bytes held, the result has `lo == src`, `hi == 0`, value `src`, and bytes equal to `ZeroExt(src)`, the 16-byte little-endian encoding of `src` |
| `U128Union.U128.From32` | common/include/Pcsx2Types.h:89-96 | whatever the uninitialised bytes held, the result has `_u32[0] == src`, `_u32[1] == 0`, `hi == 0`, `lo == src`, value `src`, zero-extended bytes, and converts back to `src` through `operator u32` |
| `U128Union.From64Stores` | common/include/Pcsx2Types.h:80-86 | the stores `lo = src` then `hi = 0` turn any sixteen bytes into the zero-extension of `src` |
| `U128Union.From32Stores` | common/include/Pcsx2Types.h:89-96 | the stores `_u32[0] = src`, `_u32[1] = 0`, `hi = 0` through views of two widths turn any sixteen bytes into the zero-extension of `src` |
| `U128Union.ZeroExtensionViews` | common/include/Pcsx2Types.h:80-96 | the zero-extension of `src` reads `lo == src`, `hi == 0`, value `src`, and, for a 32-bit `src`, `_u32[0] == src` and `_u32[1] == 0` |
| `U128Union.ZeroExtended` | common/include/Pcsx2Types.h:80-96 | a union with `lo == src` and `hi == 0` has value `src` and is exactly the little-endian encoding of `src` |
| `U128Union.SameHalvesSameBytes` | common/include/Pcsx2Types.h:102-105 | comparing `lo` and `hi` is exact: equal halves hold exactly when all sixteen bytes are equal |
| `U128Union.SameValueSameBytes` | common/include/Pcsx2Types.h:102-105 | two unions hold the same 128-bit value exactly when they hold the same bytes |
| `U128Union.StoreU32LoadU16` | common/include/Pcsx2Types.h:66-77 | after storing `v` through `_u32[i]`, `_u16[2i]` reads the low 16 bits of `v` and `_u16[2i+1]` the high 16 bits |
| `U128Union.StoreView` | common/include/Pcsx2Types.h:89-96 | an assignment through a view element changes the storage exactly as `Write` describes |
| `S128Struct.S128.From64` | common/include/Pcsx2Types.h:130-134 | the result's 128-bit value is `src`, its `lo` is `src`, and its `hi` is -1 exactly when `src` is negative |
| `S128Struct.S128.From64S32` | common/include/Pcsx2Types.h:137-141 | the `s32` overload gives 128-bit value `src` and agrees with the `s64` overload on the widened source |
| `S128Struct.S128.ToU32` | common/include/Pcsx2Types.h:143 | `(s32)lo` returned as `u32` is `lo` modulo 2^32, which is the 128-bit value modulo 2^32 |
| `S128Struct.S128.ToU16` | common/include/Pcsx2Types.h:144 | `(s16)lo` returned as `u16` is `lo` and the 128-bit value modulo 2^16 |
| `S128Struct.S128.ToU8` | common/include/Pcsx2Types.h:145 | `(s8)lo` returned as `u8` is `lo` and the 128-bit value modulo 2^8 |
| `S128Struct.S128.Equals` | common/include/Pcsx2Types.h:147-150 | `==` holds exactly when both words match, and exactly when the 128-bit values are equal |
| `S128Struct.S128.NotEquals` | common/include/Pcsx2Types.h:152-155 | `!=` is the negation of `==`, and holds exactly when some word differs |
| `S128Struct.ValueRange` | common/include/Pcsx2Types.h:124-128 | two `s64` words always stand for a number in the signed 128-bit range |
| `S128Struct.ValueInjective` | common/include/Pcsx2Types.h:124-128 | distinct word pairs stand for distinct 128-bit numbers |
| `S128Struct.LowBitsOfValue` | common/include/Pcsx2Types.h:143-145 | the low 32, 16 and 8 bits of the 128-bit number are those of `lo` |

## Left out

- `ToString`, `ToString64`, `ToString8`, `WriteTo`, `WriteTo8`, `WriteTo64` of `u128` (common/include/Pcsx2Types.h:115-121). They are only declared here, and their bodies belong to a string-formatting library that is not part of this model.
- The C-language definitions of `u128` and `s128` (common/include/Pcsx2Types.h:158-178). They have no operations. The C `s128` overlaps `lo` and `hi` in a union, which is a layout quirk and has no behaviour.
- The plain typedefs `uptr`, `sptr`, `uint` and `vol_t`. They are platform-width aliases with no logic. `s8` to `u64` appear only as the bounded ranges the 128-bit types use.
- The GUI, string, file-name, thread and event stubs, the `_T`/`TSTRING`/`wxDECLARE_*`/`wxDEFINE_EVENT` macros and the GUI constant enums (common/include/Pcsx2Types.h:197-718). They are declarations without bodies or text substitutions, with no behaviour to state.
- Union type punning: ISO C++ leaves reading a union member other than the one last written undefined, and the anonymous struct holding `lo`/`hi` is a compiler extension. The model follows GCC, Clang and MSVC, which define such a read as reinterpreting the same bytes; `From32` followed by `operator u32` relies on this.
- Byte order is fixed to little-endian. Big-endian hosts are not modelled.
- Uninitialised storage: `u128 retval;` starts with indeterminate bytes. The model passes those bytes in as a parameter, `garbage`, and proves that the result does not depend on them.
- Value semantics of the union: `u128` is modelled as an immutable value over its bytes. Stores happen only on the local array inside `From64`/`From32`, since the header has no method that changes a `u128` in place.
- `s8` is plain `char` in the source, whose signedness depends on the compiler. The model takes it as signed. Converting the result to `u8` gives the low 8 bits either way.
- Narrowing an out-of-range value to a signed type is implementation-defined before C++20. The model uses the modular conversion of two's-complement compilers.

Two facts about `s128` that the model follows:

- The C++ struct declares both `lo` and `hi` as `s64` (common/include/Pcsx2Types.h:126-127). Only the C definition makes `lo` a `u64` (common/include/Pcsx2Types.h:174-178).
- The conversions cast `lo` to `s32`, `s16` and `s8` and return it as `u32`, `u16` and `u8` (common/include/Pcsx2Types.h:143-145). So their results are unsigned low bits.
