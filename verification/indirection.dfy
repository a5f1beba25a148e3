/**
 * How a regular file's bytes are found: i_block[0..11] name data blocks
 * directly, i_block[12] names a block of 256 block numbers and i_block[13]
 * a block of 256 such blocks. cat and cp count a signed copy of i_size down
 * while they emit bytes in that order, and rm counts it down a block at a
 * time while it collects the blocks to free.
 */
module Indirection {
  import opened Bytes
  import opened Layout

  /** Logical blocks reachable without the triple-indirect pointer: 12 + 256 + 256 * 256. */
  const ReachableBlocks: nat := DirectBlocks + PointersPerBlock + PointersPerBlock * PointersPerBlock

  /** i_size as the int the read and rm loops copy it into. */
  function Signed32(size: nat): int
    requires size < 0x1_0000_0000
  {
    if size < 0x8000_0000 then size else size - 0x1_0000_0000
  }

  /** Entry `i` of the block of 32-bit block numbers at block `blk`. */
  function PointerAt(img: seq<byte>, blk: nat, i: nat): nat
    requires i < PointersPerBlock
  {
    U32(Slice(img, BlockOffset(blk), BlockSize), 4 * i)
  }

  /** The physical block holding logical block `l` of a file with pointers `ptrs`. */
  function Phys(img: seq<byte>, ptrs: seq<nat>, l: nat): nat
    requires |ptrs| == 15 && l < ReachableBlocks
  {
    if l < DirectBlocks then ptrs[l]
    else if l < DirectBlocks + PointersPerBlock then PointerAt(img, ptrs[12], l - DirectBlocks)
    else
      var d := l - DirectBlocks - PointersPerBlock;
      PointerAt(img, PointerAt(img, ptrs[13], Row(d)), Column(d))
  }

  /** The entry of the double-indirect block that leads to block `d` of the double-indirect range: d / 256. */
  function Row(d: nat): (r: nat)
    ensures 256 * r <= d
  {
    if d < PointersPerBlock then 0 else Row(d - PointersPerBlock) + 1
  }

  /** The entry of that block holding block `d`: d % 256. */
  function Column(d: nat): (r: nat)
    ensures r < PointersPerBlock
  {
    if d < PointersPerBlock then d else Column(d - PointersPerBlock)
  }

  /** The first `n` bytes of the file in block order: byte k lies at offset k % 1024 of logical block k / 1024. */
  function Stream(img: seq<byte>, ptrs: seq<nat>, n: nat): (r: seq<byte>)
    requires |ptrs| == 15 && n <= ReachableBlocks * BlockSize
    ensures |r| == n
  {
    seq(n, k requires 0 <= k < n => ByteAt(img, BlockOffset(Phys(img, ptrs, k / BlockSize)) + k % BlockSize))
  }

  /** How many bytes cat and cp emit: at least one, since each block's loop prints before it tests the count. */
  function EmittedLength(size: nat): nat
    requires size < 0x1_0000_0000
  {
    var s := Signed32(size);
    if s <= 0 then 1 else if s < ReachableBlocks * BlockSize then s else ReachableBlocks * BlockSize
  }

  /** What printaArquivo and copiaArquivo produce for an inode of size `size`. */
  function FileBytes(img: seq<byte>, ptrs: seq<nat>, size: nat): seq<byte>
    requires |ptrs| == 15 && size < 0x1_0000_0000
  {
    Stream(img, ptrs, EmittedLength(size))
  }

  /** A file of i_size at least 1 (and below 2^31) yields exactly i_size bytes, up to what the pointers reach. */
  lemma EmittedLengthMatchesSize(size: nat)
    requires 1 <= size < 0x8000_0000
    ensures EmittedLength(size) == if size < ReachableBlocks * BlockSize then size else ReachableBlocks * BlockSize
  {
  }

  /** An empty file still yields one byte, the first byte of the block i_block[0] names. */
  lemma EmptyFileEmitsOneByte(img: seq<byte>, ptrs: seq<nat>)
    requires |ptrs| == 15
    ensures FileBytes(img, ptrs, 0) == [ByteAt(img, BlockOffset(ptrs[0]))]
  {
    assert 0 / BlockSize == 0 && 0 % BlockSize == 0;
  }

  /** The bytes the loop over one block prints before the count falls to 0 or the block ends. */
  function BlockShare(sizeTemp: int): nat
  {
    if sizeTemp <= 1 then 1 else if sizeTemp < BlockSize then sizeTemp else BlockSize
  }

  /** The inner loop of the read routines: print bytes of block `blk`, counting `sizeTemp` down, until it reaches 0 or the block ends. */
  method EmitBlock(img: seq<byte>, blk: nat, out: seq<byte>, sizeTemp: int) returns (out': seq<byte>, rest: int)
    ensures out' == out + Slice(img, BlockOffset(blk), BlockShare(sizeTemp))
    ensures rest == sizeTemp - BlockShare(sizeTemp)
  {
    var buffer := Slice(img, BlockOffset(blk), BlockSize);
    out', rest := out, sizeTemp;
    var j := 0;
    while j < BlockSize
      invariant 0 <= j <= BlockSize
      invariant out' == out + buffer[..j] && rest == sizeTemp - j
      invariant j == 0 || j < sizeTemp
    {
      out' := out' + [buffer[j]];
      rest := rest - 1;
      assert buffer[..j + 1] == buffer[..j] + [buffer[j]];
      if rest <= 0 {
        assert buffer[..j + 1] == Slice(img, BlockOffset(blk), j + 1);
        return;
      }
      j := j + 1;
    }
    assert buffer[..j] == buffer;
  }

  /** Appending the bytes of logical block `l` extends the stream by them. */
  lemma {:induction false} StreamStep(img: seq<byte>, ptrs: seq<nat>, l: nat, m: nat)
    requires |ptrs| == 15 && l < ReachableBlocks && m <= BlockSize
    ensures Stream(img, ptrs, l * BlockSize) + Slice(img, BlockOffset(Phys(img, ptrs, l)), m)
            == Stream(img, ptrs, l * BlockSize + m)
  {
    var a := Stream(img, ptrs, l * BlockSize) + Slice(img, BlockOffset(Phys(img, ptrs, l)), m);
    var b := Stream(img, ptrs, l * BlockSize + m);
    forall k | 0 <= k < |a| ensures a[k] == b[k] {
      if k >= l * BlockSize {
        ModOfSum(l, BlockSize, k - l * BlockSize);
      }
    }
  }

  /** Block 256*i + k of the double-indirect range sits in row i, column k: the walk's two loop indices. */
  lemma {:induction false} DoubleSlot(i: nat, k: nat)
    requires k < PointersPerBlock
    ensures Row(PointersPerBlock * i + k) == i && Column(PointersPerBlock * i + k) == k
  {
    if i > 0 {
      DoubleSlot(i - 1, k);
      assert PointersPerBlock * i + k - PointersPerBlock == PointersPerBlock * (i - 1) + k;
    }
  }

  /** Logical block 268 + 256*j + k is entry k of the block named by entry j of i_block[13]. */
  lemma PhysDouble(img: seq<byte>, ptrs: seq<nat>, j: nat, k: nat)
    requires |ptrs| == 15 && j < PointersPerBlock && k < PointersPerBlock
    ensures Phys(img, ptrs, DirectBlocks + PointersPerBlock + PointersPerBlock * j + k)
            == PointerAt(img, PointerAt(img, ptrs[13], j), k)
  {
    DoubleSlot(j, k);
  }

  /** Where the countdown stands after `l` whole blocks, all printed with bytes still to go. */
  predicate Progress(img: seq<byte>, ptrs: seq<nat>, size: nat, l: nat, out: seq<byte>, sizeTemp: int)
    requires |ptrs| == 15 && size < 0x1_0000_0000
  {
    l <= ReachableBlocks
    && (sizeTemp > 0 ==> out == Stream(img, ptrs, l * BlockSize) && sizeTemp == Signed32(size) - l * BlockSize)
    && (sizeTemp <= 0 ==> out == FileBytes(img, ptrs, size))
  }

  /** One block of the countdown: the bytes of logical block `l` keep the progress, one block further or finished. */
  method ReadBlock(img: seq<byte>, ptrs: seq<nat>, size: nat, l: nat, blk: nat, out: seq<byte>, sizeTemp: int)
    returns (out': seq<byte>, rest: int)
    requires |ptrs| == 15 && size < 0x1_0000_0000 && l < ReachableBlocks && blk == Phys(img, ptrs, l)
    requires (sizeTemp > 0 && Progress(img, ptrs, size, l, out, sizeTemp)) || (l == 0 && out == [] && sizeTemp == Signed32(size))
    ensures Progress(img, ptrs, size, l + 1, out', rest)
  {
    out', rest := EmitBlock(img, blk, out, sizeTemp);
    StreamStep(img, ptrs, l, BlockShare(sizeTemp));
    if sizeTemp <= 0 {
      assert Stream(img, ptrs, 0) == [];
    }
  }

  /**
   * printaArquivo and copiaArquivo: the twelve direct blocks, then the blocks the
   * single-indirect block names, then those of the double-indirect block, each
   * printed while the signed count of bytes left stays positive.
   */
  method ReadFile(img: seq<byte>, ptrs: seq<nat>, size: nat) returns (out: seq<byte>)
    requires |ptrs| == 15 && size < 0x1_0000_0000
    ensures out == FileBytes(img, ptrs, size)
  {
    var sizeTemp;
    out, sizeTemp := ReadDirect(img, ptrs, size);
    if sizeTemp > 0 {
      out, sizeTemp := ReadSingle(img, ptrs, size, out, sizeTemp);
    }
    if sizeTemp > 0 {
      out, sizeTemp := ReadDouble(img, ptrs, size, out, sizeTemp);
      if sizeTemp > 0 {
        assert Signed32(size) > ReachableBlocks * BlockSize;
      }
    }
  }

  /** The loop over i_block[0..11]: the first block is printed whatever the count. */
  method ReadDirect(img: seq<byte>, ptrs: seq<nat>, size: nat) returns (out: seq<byte>, sizeTemp: int)
    requires |ptrs| == 15 && size < 0x1_0000_0000
    ensures Progress(img, ptrs, size, DirectBlocks, out, sizeTemp)
  {
    sizeTemp := Signed32(size);
    out := [];
    var i := 0;
    while i < DirectBlocks
      invariant 0 <= i <= DirectBlocks
      invariant i == 0 ==> out == [] && sizeTemp == Signed32(size)
      invariant i > 0 ==> sizeTemp > 0 && Progress(img, ptrs, size, i, out, sizeTemp)
    {
      out, sizeTemp := ReadBlock(img, ptrs, size, i, ptrs[i], out, sizeTemp);
      if sizeTemp <= 0 {
        break;
      }
      i := i + 1;
    }
  }

  /** The loop over the 256 entries of the block i_block[12] names. */
  method ReadSingle(img: seq<byte>, ptrs: seq<nat>, size: nat, out0: seq<byte>, sizeTemp0: int)
    returns (out: seq<byte>, sizeTemp: int)
    requires |ptrs| == 15 && size < 0x1_0000_0000
    requires sizeTemp0 > 0 && Progress(img, ptrs, size, DirectBlocks, out0, sizeTemp0)
    ensures Progress(img, ptrs, size, DirectBlocks + PointersPerBlock, out, sizeTemp)
  {
    out, sizeTemp := out0, sizeTemp0;
    var single := Slice(img, BlockOffset(ptrs[12]), BlockSize);
    var j := 0;
    while j < PointersPerBlock
      invariant 0 <= j <= PointersPerBlock
      invariant sizeTemp > 0 && Progress(img, ptrs, size, DirectBlocks + j, out, sizeTemp)
    {
      out, sizeTemp := ReadBlock(img, ptrs, size, DirectBlocks + j, U32(single, 4 * j), out, sizeTemp);
      if sizeTemp <= 0 {
        break;
      }
      j := j + 1;
    }
  }

  /** The loops over the blocks the block i_block[13] names, and over their 256 entries each. */
  method ReadDouble(img: seq<byte>, ptrs: seq<nat>, size: nat, out0: seq<byte>, sizeTemp0: int)
    returns (out: seq<byte>, sizeTemp: int)
    requires |ptrs| == 15 && size < 0x1_0000_0000
    requires sizeTemp0 > 0 && Progress(img, ptrs, size, DirectBlocks + PointersPerBlock, out0, sizeTemp0)
    ensures Progress(img, ptrs, size, ReachableBlocks, out, sizeTemp)
  {
    out, sizeTemp := out0, sizeTemp0;
    var double := Slice(img, BlockOffset(ptrs[13]), BlockSize);
    var j := 0;
    while j < PointersPerBlock
      invariant 0 <= j <= PointersPerBlock
      invariant Progress(img, ptrs, size, DirectBlocks + PointersPerBlock + PointersPerBlock * j, out, sizeTemp)
    {
      if sizeTemp <= 0 {
        break;
      }
      out, sizeTemp := ReadRow(img, ptrs, size, j, U32(double, 4 * j), out, sizeTemp);
      j := j + 1;
    }
  }

  /** The inner loop of the double-indirect walk over the 256 entries of the block `row` names, entry `j` of i_block[13]. */
  method ReadRow(img: seq<byte>, ptrs: seq<nat>, size: nat, j: nat, row: nat, out0: seq<byte>, sizeTemp0: int)
    returns (out: seq<byte>, sizeTemp: int)
    requires |ptrs| == 15 && size < 0x1_0000_0000 && j < PointersPerBlock && row == PointerAt(img, ptrs[13], j)
    requires Progress(img, ptrs, size, DirectBlocks + PointersPerBlock + PointersPerBlock * j, out0, sizeTemp0)
    ensures Progress(img, ptrs, size, DirectBlocks + PointersPerBlock + PointersPerBlock * (j + 1), out, sizeTemp)
  {
    out, sizeTemp := out0, sizeTemp0;
    var single := Slice(img, BlockOffset(row), BlockSize);
    var base := DirectBlocks + PointersPerBlock + PointersPerBlock * j;
    var k := 0;
    while k < PointersPerBlock
      invariant 0 <= k <= PointersPerBlock
      invariant Progress(img, ptrs, size, base + k, out, sizeTemp)
    {
      if sizeTemp <= 0 {
        break;
      }
      PhysDouble(img, ptrs, j, k);
      out, sizeTemp := ReadBlock(img, ptrs, size, base + k, U32(single, 4 * k), out, sizeTemp);
      k := k + 1;
    }
    ProgressDone(img, ptrs, size, base + k, base + PointersPerBlock, out, sizeTemp);
  }

  /** A finished count stays finished at any later block. */
  lemma ProgressDone(img: seq<byte>, ptrs: seq<nat>, size: nat, l: nat, l': nat, out: seq<byte>, sizeTemp: int)
    requires |ptrs| == 15 && size < 0x1_0000_0000 && Progress(img, ptrs, size, l, out, sizeTemp)
    requires l' <= ReachableBlocks && (l == l' || sizeTemp <= 0)
    ensures Progress(img, ptrs, size, l', out, sizeTemp)
  {
  }

  /** The bytes of a file of i_size `size` as far as the pointers reach: none for an empty file. */
  function Content(img: seq<byte>, ptrs: seq<nat>, size: nat): (r: seq<byte>)
    requires |ptrs| == 15 && size < 0x1_0000_0000
    ensures |r| == if size < ReachableBlocks * BlockSize then size else ReachableBlocks * BlockSize
  {
    Stream(img, ptrs, if size < ReachableBlocks * BlockSize then size else ReachableBlocks * BlockSize)
  }

  /** cat and cp with the empty file handled: the read loops run only for a size they count down correctly. */
  method ReadContent(img: seq<byte>, ptrs: seq<nat>, size: nat) returns (out: seq<byte>)
    requires |ptrs| == 15 && size < 0x1_0000_0000
    ensures out == Content(img, ptrs, size)
  {
    if size == 0 {
      return [];
    }
    var capped := if size < ReachableBlocks * BlockSize then size else ReachableBlocks * BlockSize;
    out := ReadFile(img, ptrs, capped);
  }

  /** The as-written read agrees with the file's content exactly when i_size is neither 0 nor 2^31 or more. */
  lemma FileBytesIsContent(img: seq<byte>, ptrs: seq<nat>, size: nat)
    requires |ptrs| == 15 && size < 0x1_0000_0000
    ensures FileBytes(img, ptrs, size) == Content(img, ptrs, size) <==> 1 <= size < 0x8000_0000
  {
  }

  /** How many data blocks rm releases: one per started 1024 bytes of the signed i_size, none when it is not positive. */
  function FreedCount(size: nat): nat
    requires size < 0x1_0000_0000
  {
    var s := Signed32(size);
    if s <= 0 then 0
    else if (s + BlockSize - 1) / BlockSize < ReachableBlocks then (s + BlockSize - 1) / BlockSize
    else ReachableBlocks
  }

  /** The data blocks rm releases, in the order it visits them. */
  function DataBlocks(img: seq<byte>, ptrs: seq<nat>, size: nat): (r: seq<nat>)
    requires |ptrs| == 15 && size < 0x1_0000_0000
    ensures |r| == FreedCount(size)
  {
    BlockList(img, ptrs, FreedCount(size))
  }

  /** The physical blocks of logical blocks 0 .. n-1. */
  function BlockList(img: seq<byte>, ptrs: seq<nat>, n: nat): (r: seq<nat>)
    requires |ptrs| == 15 && n <= ReachableBlocks
    ensures |r| == n
  {
    seq(n, l requires 0 <= l < n => Phys(img, ptrs, l))
  }

  /** rm's countdown so far: the logical blocks 0 .. |freed|-1 collected, each while bytes were left. */
  predicate Collected(img: seq<byte>, ptrs: seq<nat>, size: nat, freed: seq<nat>, fileSize: int)
    requires |ptrs| == 15 && size < 0x1_0000_0000
  {
    |freed| <= ReachableBlocks
    && freed == BlockList(img, ptrs, |freed|)
    && fileSize == Signed32(size) - |freed| * 1024
    && (|freed| > 0 ==> Signed32(size) - (|freed| - 1) * 1024 > 0)
  }

  /** Taking logical block |freed| while bytes are left keeps the countdown. */
  lemma CollectStep(img: seq<byte>, ptrs: seq<nat>, size: nat, l: nat, freed: seq<nat>, fileSize: int, blk: nat)
    requires |ptrs| == 15 && size < 0x1_0000_0000 && Collected(img, ptrs, size, freed, fileSize)
    requires fileSize > 0 && l == |freed| < ReachableBlocks && blk == Phys(img, ptrs, l)
    ensures Collected(img, ptrs, size, freed + [blk], fileSize - BlockSize)
  {
    var n := |freed|;
    var a, b := freed + [blk], BlockList(img, ptrs, n + 1);
    forall l | 0 <= l < n + 1 ensures a[l] == b[l] {
      if l < n {
        assert a[l] == freed[l] == BlockList(img, ptrs, n)[l];
      }
    }
  }

  /** Once the count runs out, or every reachable block is collected, the list is the file's data blocks. */
  lemma CollectedAll(img: seq<byte>, ptrs: seq<nat>, size: nat, freed: seq<nat>, fileSize: int)
    requires |ptrs| == 15 && size < 0x1_0000_0000 && Collected(img, ptrs, size, freed, fileSize)
    requires fileSize <= 0 || |freed| == ReachableBlocks
    ensures freed == DataBlocks(img, ptrs, size)
  {
    var n, s := |freed|, Signed32(size);
    if fileSize <= 0 && n > 0 {
      var t := s - (n - 1) * BlockSize;
      assert 0 < t <= BlockSize;
      assert s + BlockSize - 1 == n * BlockSize + (t - 1);
      ModOfSum(n, BlockSize, t - 1);
      assert (s + BlockSize - 1) / BlockSize == n;
    } else if fileSize > 0 {
      assert s > ReachableBlocks * BlockSize;
      assert (s + BlockSize - 1) / BlockSize >= ReachableBlocks;
    }
  }

  /**
   * funct_rm's block walk: the direct pointers, then the entries of the single-indirect
   * block, then those of the double-indirect block, each taken while the signed
   * i_size counted down by 1024 per block stays positive.
   */
  method FreedBlocks(img: seq<byte>, ptrs: seq<nat>, size: nat) returns (freed: seq<nat>)
    requires |ptrs| == 15 && size < 0x1_0000_0000
    ensures freed == DataBlocks(img, ptrs, size)
  {
    var fileSize := Signed32(size);
    freed := [];
    var i := 0;
    while i < DirectBlocks && fileSize > 0
      invariant 0 <= i <= DirectBlocks && |freed| == i
      invariant Collected(img, ptrs, size, freed, fileSize)
    {
      CollectStep(img, ptrs, size, i, freed, fileSize, ptrs[i]);
      freed := freed + [ptrs[i]];
      fileSize := fileSize - BlockSize;
      i := i + 1;
    }
    var single := Slice(img, BlockOffset(ptrs[12]), BlockSize);
    i := 0;
    while i < PointersPerBlock && fileSize > 0
      invariant 0 <= i <= PointersPerBlock
      invariant fileSize > 0 ==> |freed| == DirectBlocks + i
      invariant Collected(img, ptrs, size, freed, fileSize)
    {
      CollectStep(img, ptrs, size, DirectBlocks + i, freed, fileSize, U32(single, 4 * i));
      freed := freed + [U32(single, 4 * i)];
      fileSize := fileSize - BlockSize;
      i := i + 1;
    }
    var double := Slice(img, BlockOffset(ptrs[13]), BlockSize);
    i := 0;
    while i < PointersPerBlock && fileSize > 0
      invariant 0 <= i <= PointersPerBlock
      invariant fileSize > 0 ==> |freed| == DirectBlocks + PointersPerBlock + PointersPerBlock * i
      invariant Collected(img, ptrs, size, freed, fileSize)
    {
      freed, fileSize := CollectRow(img, ptrs, size, i, U32(double, 4 * i), freed, fileSize);
      i := i + 1;
    }
    CollectedAll(img, ptrs, size, freed, fileSize);
  }

  /** The inner loop of rm's double-indirect walk over the entries of the block `row` names, entry `i` of i_block[13]. */
  method CollectRow(img: seq<byte>, ptrs: seq<nat>, size: nat, i: nat, row: nat, freed0: seq<nat>, fileSize0: int)
    returns (freed: seq<nat>, fileSize: int)
    requires |ptrs| == 15 && size < 0x1_0000_0000 && i < PointersPerBlock && row == PointerAt(img, ptrs[13], i)
    requires Collected(img, ptrs, size, freed0, fileSize0)
    requires fileSize0 > 0 && |freed0| == DirectBlocks + PointersPerBlock + 256 * i
    ensures Collected(img, ptrs, size, freed, fileSize)
    ensures fileSize > 0 ==> |freed| == DirectBlocks + PointersPerBlock + 256 * (i + 1)
  {
    freed, fileSize := freed0, fileSize0;
    var single := Slice(img, BlockOffset(row), BlockSize);
    var base := DirectBlocks + PointersPerBlock + 256 * i;
    var k := 0;
    while k < PointersPerBlock && fileSize > 0
      invariant 0 <= k <= PointersPerBlock
      invariant fileSize > 0 ==> |freed| == base + k
      invariant Collected(img, ptrs, size, freed, fileSize)
    {
      PhysDouble(img, ptrs, i, k);
      CollectStep(img, ptrs, size, base + k, freed, fileSize, U32(single, 4 * k));
      freed := freed + [U32(single, 4 * k)];
      fileSize := fileSize - BlockSize;
      k := k + 1;
    }
  }

  /**
   * cat and rm agree on the blocks: for a positive size the bytes cat emits lie in
   * exactly the blocks rm frees, logical block l being Phys(l) for both.
   */
  lemma ReadAndFreeAgree(img: seq<byte>, ptrs: seq<nat>, size: nat)
    requires |ptrs| == 15 && 1 <= size < 0x8000_0000
    ensures FreedCount(size) >= 1
    ensures (FreedCount(size) - 1) * BlockSize < EmittedLength(size) <= FreedCount(size) * BlockSize
    ensures forall l :: 0 <= l < FreedCount(size) ==> DataBlocks(img, ptrs, size)[l] == Phys(img, ptrs, l)
  {
    var q := (size + BlockSize - 1) / BlockSize;
    var r := (size + BlockSize - 1) % BlockSize;
    assert size + BlockSize - 1 == q * BlockSize + r;
  }
}
