/**
 * Bytes of the disk image and the little-endian integer fields the EXT2
 * on-disk structures are made of.
 */
module Bytes {

  /** A byte of the image, 0 to 255. */
  newtype byte = x: int | 0 <= x < 256

  /** Byte `p` of the image, and 0 at any offset outside it. */
  function ByteAt(img: seq<byte>, p: int): byte
  {
    if 0 <= p < |img| then img[p] else 0
  }

  /** The `n` bytes of the image starting at offset `off`. */
  function Slice(img: seq<byte>, off: int, n: nat): (r: seq<byte>)
    ensures |r| == n
  {
    seq(n, i requires 0 <= i < n => ByteAt(img, off + i))
  }

  /** The image with `data` written at offset `off`; bytes that would fall past the end are dropped. */
  function WriteAt(img: seq<byte>, off: int, data: seq<byte>): (r: seq<byte>)
    ensures |r| == |img|
  {
    seq(|img|, p requires 0 <= p < |img| => if off <= p < off + |data| then data[p - off] else img[p])
  }

  lemma {:induction false} SliceOfWrite(img: seq<byte>, off: int, data: seq<byte>)
    requires 0 <= off && off + |data| <= |img|
    ensures Slice(WriteAt(img, off, data), off, |data|) == data
  {
    var w := WriteAt(img, off, data);
    var r := Slice(w, off, |data|);
    forall i | 0 <= i < |data| ensures r[i] == data[i] {
      assert r[i] == ByteAt(w, off + i);
      assert w[off + i] == data[i];
    }
  }

  lemma {:induction false} SliceAwayFromWrite(img: seq<byte>, off: int, data: seq<byte>, off2: int, n: nat)
    requires off2 + n <= off || off + |data| <= off2
    ensures Slice(WriteAt(img, off, data), off2, n) == Slice(img, off2, n)
  {
    var w := WriteAt(img, off, data);
    var a := Slice(w, off2, n);
    var b := Slice(img, off2, n);
    forall i | 0 <= i < n ensures a[i] == b[i] {
      assert a[i] == ByteAt(w, off2 + i) && b[i] == ByteAt(img, off2 + i);
      if 0 <= off2 + i < |img| {
        assert w[off2 + i] == img[off2 + i];
      }
    }
  }

  function U16(b: seq<byte>, off: nat): (r: nat)
    requires off + 2 <= |b|
    ensures r < 0x1_0000
  {
    b[off] as nat + 256 * (b[off + 1] as nat)
  }

  function U32(b: seq<byte>, off: nat): (r: nat)
    requires off + 4 <= |b|
    ensures r < 0x1_0000_0000
  {
    U16(b, off) + 0x1_0000 * U16(b, off + 2)
  }

  function Le16(v: nat): (r: seq<byte>)
    requires v < 0x1_0000
    ensures |r| == 2
  {
    [(v % 256) as byte, (v / 256) as byte]
  }

  function Le32(v: nat): (r: seq<byte>)
    requires v < 0x1_0000_0000
    ensures |r| == 4
  {
    Le16(v % 0x1_0000) + Le16(v / 0x1_0000)
  }

  /** Decoding what was encoded gives the value back. */
  lemma {:induction false} U16Le16(b: seq<byte>, off: nat, v: nat)
    requires v < 0x1_0000 && off + 2 <= |b| && b[off..off + 2] == Le16(v)
    ensures U16(b, off) == v
  {
    assert b[off] == b[off..off + 2][0];
    assert b[off + 1] == b[off..off + 2][1];
  }

  lemma {:induction false} U32Le32(b: seq<byte>, off: nat, v: nat)
    requires v < 0x1_0000_0000 && off + 4 <= |b| && b[off..off + 4] == Le32(v)
    ensures U32(b, off) == v
  {
    assert b[off..off + 2] == b[off..off + 4][..2];
    assert b[off + 2..off + 4] == b[off..off + 4][2..];
    U16Le16(b, off, v % 0x1_0000);
    U16Le16(b, off + 2, v / 0x1_0000);
  }

  /** The same, stated byte by byte. */
  lemma {:induction false} U32OfBytes(b: seq<byte>, off: nat, v: nat)
    requires v < 0x1_0000_0000 && off + 4 <= |b|
    requires b[off] == Le32(v)[0] && b[off + 1] == Le32(v)[1] && b[off + 2] == Le32(v)[2] && b[off + 3] == Le32(v)[3]
    ensures U32(b, off) == v
  {
    assert b[off..off + 4] == Le32(v);
    U32Le32(b, off, v);
  }

  /** A field decodes the same in two buffers that agree on its bytes. */
  lemma {:induction false} U16Frame(b: seq<byte>, c: seq<byte>, off: nat)
    requires off + 2 <= |b| && off + 2 <= |c| && b[off..off + 2] == c[off..off + 2]
    ensures U16(b, off) == U16(c, off)
  {
    assert b[off] == b[off..off + 2][0] && c[off] == c[off..off + 2][0];
    assert b[off + 1] == b[off..off + 2][1] && c[off + 1] == c[off..off + 2][1];
  }

  lemma {:induction false} U32Frame(b: seq<byte>, c: seq<byte>, off: nat)
    requires off + 4 <= |b| && off + 4 <= |c| && b[off..off + 4] == c[off..off + 4]
    ensures U32(b, off) == U32(c, off)
  {
    assert b[off..off + 2] == b[off..off + 4][..2] && c[off..off + 2] == c[off..off + 4][..2];
    assert b[off + 2..off + 4] == b[off..off + 4][2..] && c[off + 2..off + 4] == c[off..off + 4][2..];
    U16Frame(b, c, off);
    U16Frame(b, c, off + 2);
  }

  /** A slice of a slice is a slice of the whole. */
  lemma SliceOfSlice(b: seq<byte>, off: nat, n: nat, i: nat, j: nat)
    requires off + n <= |b| && i <= j <= n
    ensures b[off..off + n][i..j] == b[off + i..off + j]
  {
    var x, y := b[off..off + n][i..j], b[off + i..off + j];
    assert |x| == |y|;
    forall k | 0 <= k < |x| ensures x[k] == y[k] {
    }
  }

  /** A field read inside a copy of `c` placed at `off` is the field read from `c`. */
  lemma {:induction false} U16Shift(b: seq<byte>, off: nat, c: seq<byte>, k: nat)
    requires off + |c| <= |b| && b[off..off + |c|] == c && k + 2 <= |c|
    ensures U16(b, off + k) == U16(c, k)
  {
    assert b[off + k] == c[k] && b[off + k + 1] == c[k + 1];
  }

  lemma {:induction false} U32Shift(b: seq<byte>, off: nat, c: seq<byte>, k: nat)
    requires off + |c| <= |b| && b[off..off + |c|] == c && k + 4 <= |c|
    ensures U32(b, off + k) == U32(c, k)
  {
    U16Shift(b, off, c, k);
    U16Shift(b, off, c, k + 2);
  }
  // ---- Bits of a non-negative integer ----

  /** 2 to the power `n`. */
  function Pow2(n: nat): (p: nat)
    ensures p >= 1
  {
    if n == 0 then 1 else 2 * Pow2(n - 1)
  }

  /** Bit `j` of `x`, counted from the least significant. */
  predicate BitSet(x: nat, j: nat)
  {
    if j == 0 then x % 2 == 1 else BitSet(x / 2, j - 1)
  }

  /** `x | (1 << j)`: bit `j` turned on. */
  function SetBit(x: nat, j: nat): nat
  {
    if j == 0 then (if x % 2 == 1 then x else x + 1) else 2 * SetBit(x / 2, j - 1) + x % 2
  }

  /** `x & ~(1 << j)`: bit `j` turned off. */
  function ClearBit(x: nat, j: nat): nat
  {
    if j == 0 then (if x % 2 == 1 then x - 1 else x) else 2 * ClearBit(x / 2, j - 1) + x % 2
  }

  /** Turning bit `k` on sets exactly bit `k` and keeps every other bit: it is the OR with the mask `1 << k`. */
  lemma {:induction false} SetBitBits(x: nat, k: nat, j: nat)
    ensures BitSet(SetBit(x, k), j) == (j == k || BitSet(x, j))
  {
    Halves(x / 2, x % 2);
    if k == 0 {
      if x % 2 == 0 {
        Halves(x / 2, 1);
      }
    } else {
      Halves(SetBit(x / 2, k - 1), x % 2);
      if j > 0 {
        SetBitBits(x / 2, k - 1, j - 1);
      }
    }
  }

  /** Turning bit `k` off clears exactly bit `k` and keeps every other bit: it is the AND with every bit but `k`. */
  lemma {:induction false} ClearBitBits(x: nat, k: nat, j: nat)
    ensures BitSet(ClearBit(x, k), j) == (j != k && BitSet(x, j))
  {
    Halves(x / 2, x % 2);
    if k == 0 {
      if x % 2 == 1 {
        Halves(x / 2, 0);
      }
    } else {
      Halves(ClearBit(x / 2, k - 1), x % 2);
      if j > 0 {
        ClearBitBits(x / 2, k - 1, j - 1);
      }
    }
  }

  /** Setting a bit below `n` keeps a value below `2^n`; in particular a byte stays a byte. */
  lemma {:induction false} SetBitBelow(x: nat, j: nat, n: nat)
    requires x < Pow2(n) && j < n
    ensures SetBit(x, j) < Pow2(n)
  {
    var half := Pow2(n - 1);
    assert Pow2(n) == 2 * half;
    assert x == 2 * (x / 2) + x % 2;
    assert x / 2 < half;
    if j > 0 {
      SetBitBelow(x / 2, j - 1, n - 1);
    }
  }

  lemma {:induction false} ClearBitBelow(x: nat, j: nat)
    ensures ClearBit(x, j) <= x
  {
    if j > 0 {
      ClearBitBelow(x / 2, j - 1);
    }
  }

  /** Clearing a bit that was just turned on gives the value back. */
  lemma {:induction false} ClearBitUndoesSetBit(x: nat, k: nat)
    requires !BitSet(x, k)
    ensures ClearBit(SetBit(x, k), k) == x
  {
    Halves(x / 2, x % 2);
    if k == 0 {
      Halves(x / 2, 1);
    } else {
      Halves(SetBit(x / 2, k - 1), x % 2);
      ClearBitUndoesSetBit(x / 2, k - 1);
    }
  }

  /** Halving `2s + b` for a bit `b`: the quotient is `s` and the remainder `b`. */
  lemma Halves(s: nat, b: nat)
    requires b < 2
    ensures (2 * s + b) / 2 == s && (2 * s + b) % 2 == b
  {
  }

}
