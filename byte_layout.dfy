/**
 * Little-endian byte memory.  A run of bytes read as an unsigned number has
 * its least significant byte first; this is the layout of the host the
 * union views of `u128` assume.  `Read` and `Write` are a load and a store of
 * an n-byte unsigned value at a byte offset.
 */
module ByteLayout {
  import opened IntTypes

  /** 256^n, the number of values an n-byte unsigned integer can hold. */
  function Pow256(n: nat): (r: nat)
    ensures r > 0
  {
    if n == 0 then 1 else 256 * Pow256(n - 1)
  }

  lemma Pow256Widths()
    ensures Pow256(1) == TWO_8 && Pow256(2) == TWO_16 && Pow256(4) == TWO_32
    ensures Pow256(8) == TWO_64 && Pow256(16) == TWO_128
  {
  }

  /** The unsigned value of a little-endian byte string. */
  function Decode(s: seq<u8>): (r: nat)
    ensures r < Pow256(|s|)
  {
    if s == [] then 0 else s[0] + 256 * Decode(s[1..])
  }

  /** The n-byte little-endian encoding of v; v must fit in n bytes. */
  function Encode(v: nat, n: nat): (r: seq<u8>)
    requires v < Pow256(n)
    ensures |r| == n
  {
    if n == 0 then [] else [v % 256] + Encode(v / 256, n - 1)
  }

  lemma {:induction false} DecodeEncode(v: nat, n: nat)
    requires v < Pow256(n)
    ensures Decode(Encode(v, n)) == v
  {
    if n > 0 {
      DecodeEncode(v / 256, n - 1);
      assert Encode(v, n)[1..] == Encode(v / 256, n - 1);
    }
  }

  lemma {:induction false} EncodeDecode(s: seq<u8>)
    ensures Encode(Decode(s), |s|) == s
  {
    if s != [] {
      EncodeDecode(s[1..]);
      assert Decode(s) % 256 == s[0];
      assert Decode(s) / 256 == Decode(s[1..]);
    }
  }

  /** Two byte strings of one length with the same value are the same bytes. */
  lemma DecodeInjective(s: seq<u8>, t: seq<u8>)
    requires |s| == |t| && Decode(s) == Decode(t)
    ensures s == t
  {
    EncodeDecode(s);
    EncodeDecode(t);
  }

  lemma {:induction false} DecodeAppend(s: seq<u8>, t: seq<u8>)
    ensures Decode(s + t) == Decode(s) + Pow256(|s|) * Decode(t)
  {
    if s != [] {
      DecodeAppend(s[1..], t);
      assert (s + t)[1..] == s[1..] + t;
      var p := Pow256(|s| - 1);
      calc {
        Decode(s + t);
        s[0] + 256 * (Decode(s[1..]) + p * Decode(t));
        { MulDistributes(256, Decode(s[1..]), p * Decode(t)); }
        s[0] + 256 * Decode(s[1..]) + 256 * (p * Decode(t));
        { MulAssociates(256, p, Decode(t)); }
        Decode(s) + Pow256(|s|) * Decode(t);
      }
    } else {
      assert s + t == t;
    }
  }

  /** Two bytes in little-endian order: the first is the low byte. */
  lemma DecodeTwo(s: seq<u8>)
    requires |s| == 2
    ensures var b: seq<int> := s;
      Decode(s) == b[0] + 0x100 * b[1]
  {
    assert s[1..][1..] == [];
  }

  /** Four bytes in little-endian order, least significant first. */
  lemma DecodeFour(s: seq<u8>)
    requires |s| == 4
    ensures var b: seq<int> := s;
      Decode(s) == b[0] + 0x100 * b[1] + 0x1_0000 * b[2] + 0x100_0000 * b[3]
  {
    assert s == s[..2] + s[2..];
    DecodeAppend(s[..2], s[2..]);
    DecodeTwo(s[..2]);
    DecodeTwo(s[2..]);
  }

  /** Eight bytes in little-endian order, least significant first. */
  lemma DecodeEight(s: seq<u8>)
    requires |s| == 8
    ensures var b: seq<int> := s;
      Decode(s) == b[0] + 0x100 * b[1] + 0x1_0000 * b[2] + 0x100_0000 * b[3]
      + 0x1_0000_0000 * b[4] + 0x100_0000_0000 * b[5] + 0x1_0000_0000_0000 * b[6]
      + 0x100_0000_0000_0000 * b[7]
  {
    assert s == s[..4] + s[4..];
    DecodeAppend(s[..4], s[4..]);
    DecodeFour(s[..4]);
    DecodeFour(s[4..]);
    Pow256Widths();
  }

  /** Euclidean division is unique: the quotient and remainder are determined. */
  lemma DivModUnique(v: int, m: int, q: int, x: int)
    requires m > 0 && v == m * q + x && 0 <= x < m
    ensures v / m == q && v % m == x
  {
    var q0, x0 := v / m, v % m;
    assert q0 * m + x0 == v;
    MulDistributes(m, q, -q0);
    assert (q - q0) * m == x0 - x;
    if q > q0 {
      MulAtLeast(q - q0, m);
    } else if q < q0 {
      MulDistributes(m, q0, -q);
      MulAtLeast(q0 - q, m);
    }
  }

  lemma MulDistributes(a: int, b: int, c: int)
    ensures a * (b + c) == a * b + a * c
    ensures (b + c) * a == b * a + c * a
  {
  }

  lemma MulAssociates(a: int, b: int, c: int)
    ensures a * (b * c) == (a * b) * c
  {
  }

  lemma MulAtLeast(k: int, m: int)
    requires k >= 1 && m > 0
    ensures k * m >= m
  {
    MulDistributes(m, k - 1, 1);
    assert (k - 1) * m >= 0;
  }

  /** The n-byte unsigned value stored at byte offset off. */
  function Read(s: seq<u8>, off: nat, n: nat): (r: nat)
    requires off + n <= |s|
    ensures r < Pow256(n)
  {
    Decode(s[off..off + n])
  }

  /** Stores the n-byte value v at byte offset off, leaving every other byte alone. */
  function Write(s: seq<u8>, off: nat, n: nat, v: nat): (r: seq<u8>)
    requires off + n <= |s| && v < Pow256(n)
    ensures |r| == |s|
    ensures Read(r, off, n) == v
    ensures forall k :: 0 <= k < |s| && !(off <= k < off + n) ==> r[k] == s[k]
  {
    var r := s[..off] + Encode(v, n) + s[off + n..];
    assert r[off..off + n] == Encode(v, n);
    DecodeEncode(v, n);
    r
  }

  /** A load that does not overlap a store sees the bytes from before the store. */
  lemma ReadAfterDisjointWrite(s: seq<u8>, off: nat, n: nat, v: nat, off2: nat, n2: nat)
    requires off + n <= |s| && v < Pow256(n) && off2 + n2 <= |s|
    requires off + n <= off2 || off2 + n2 <= off
    ensures Read(Write(s, off, n, v), off2, n2) == Read(s, off2, n2)
  {
    var w := Write(s, off, n, v);
    assert w[off2..off2 + n2] == s[off2..off2 + n2];
  }

  /** An n-byte value is its first k bytes plus 256^k times the remaining n - k bytes. */
  lemma ReadSplit(s: seq<u8>, off: nat, k: nat, n: nat)
    requires k <= n && off + n <= |s|
    ensures Read(s, off, n) == Read(s, off, k) + Pow256(k) * Read(s, off + k, n - k)
  {
    SliceConcat(s, off, off + k, off + n);
    DecodeAppend(s[off..off + k], s[off + k..off + n]);
  }

  lemma SliceConcat(s: seq<u8>, a: nat, b: nat, c: nat)
    requires a <= b <= c <= |s|
    ensures s[a..c] == s[a..b] + s[b..c]
  {
  }

  /** The first k bytes of a value hold it modulo 256^k: a narrowing load truncates. */
  lemma ReadPrefix(s: seq<u8>, off: nat, k: nat, n: nat)
    requires k <= n && off + n <= |s|
    ensures Read(s, off, k) == Read(s, off, n) % Pow256(k)
  {
    ReadSplit(s, off, k, n);
    DivModUnique(Read(s, off, n), Pow256(k), Read(s, off + k, n - k), Read(s, off, k));
  }

  /**
   * Storing a 2n-byte value and loading either n-byte half: the low half
   * holds v modulo 256^n and the high half v divided by 256^n.
   */
  lemma WriteThenReadHalves(s: seq<u8>, off: nat, n: nat, v: nat)
    requires off + 2 * n <= |s| && v < Pow256(2 * n)
    ensures Read(Write(s, off, 2 * n, v), off, n) == v % Pow256(n)
    ensures Read(Write(s, off, 2 * n, v), off + n, n) == v / Pow256(n)
  {
    var w := Write(s, off, 2 * n, v);
    ReadSplit(w, off, n, 2 * n);
    assert 2 * n - n == n;
    DivModUnique(v, Pow256(n), Read(w, off + n, n), Read(w, off, n));
  }
}
