/**
 * The block and inode bitmaps: one 1024-byte block in which bit `j` of
 * byte `i` (least significant bit first) stands for slot `8*i + j`, a
 * set bit meaning "in use", together with the free counters of the owning
 * group descriptor and of the superblock.
 */
module Bitmaps {
  import opened Bytes
  import opened Errors
  import opened Layout

  /**
   * The mask unset_block_bitmap and unset_inode_bitmap build for bit `x`,
   * `(0xFE << x) | (0xFF >> (8 - x))` on a byte, is every bit but `x`.
   * WithoutBit models the AND with it by ClearBit on the byte's value.
   */
  lemma MaskClearsOneBit(x: nat)
    requires x < 8
    ensures ((0xFE as bv8) << x) | ((0xFF as bv8) >> (8 - x)) == !((1 as bv8) << x)
  {
  }

  /** Slot `k` of the bitmap is in use. */
  predicate IsSet(bm: seq<byte>, k: nat)
    requires k < 8 * |bm|
  {
    BitSet(bm[k / 8] as nat, k % 8)
  }

  lemma SlotSplit(k: nat)
    ensures k == 8 * (k / 8) + k % 8 && k % 8 < 8
  {
  }

  /** set_*_bitmap: byte `k/8` ORed with `1 << (k%8)`. */
  function WithBit(bm: seq<byte>, k: nat): (r: seq<byte>)
    requires k < 8 * |bm|
    ensures |r| == |bm|
    ensures forall i :: 0 <= i < |bm| && i != k / 8 ==> r[i] == bm[i]
  {
    SetBitBelow(bm[k / 8] as nat, k % 8, 8);
    bm[k / 8 := SetBit(bm[k / 8] as nat, k % 8) as byte]
  }

  /** unset_*_bitmap: byte `k/8` ANDed with the mask of `k%8`. */
  function WithoutBit(bm: seq<byte>, k: nat): (r: seq<byte>)
    requires k < 8 * |bm|
    ensures |r| == |bm|
    ensures forall i :: 0 <= i < |bm| && i != k / 8 ==> r[i] == bm[i]
  {
    ClearBitBelow(bm[k / 8] as nat, k % 8);
    bm[k / 8 := ClearBit(bm[k / 8] as nat, k % 8) as byte]
  }

  /** Setting slot `k` marks exactly `k` in use and leaves every other slot as it was. */
  lemma {:induction false} WithBitSlots(bm: seq<byte>, k: nat, j: nat)
    requires k < 8 * |bm| && j < 8 * |bm|
    ensures IsSet(WithBit(bm, k), j) <==> j == k || IsSet(bm, j)
  {
    SlotSplit(k);
    SlotSplit(j);
    if j / 8 == k / 8 {
      SetBitBits(bm[k / 8] as nat, k % 8, j % 8);
    }
  }

  /** Clearing slot `k` frees exactly `k` and leaves every other slot as it was. */
  lemma {:induction false} WithoutBitSlots(bm: seq<byte>, k: nat, j: nat)
    requires k < 8 * |bm| && j < 8 * |bm|
    ensures IsSet(WithoutBit(bm, k), j) <==> j != k && IsSet(bm, j)
  {
    SlotSplit(k);
    SlotSplit(j);
    if j / 8 == k / 8 {
      ClearBitBits(bm[k / 8] as nat, k % 8, j % 8);
    }
  }

  /** Clearing a slot that setting made busy restores the bitmap. */
  lemma {:induction false} ClearUndoesSet(bm: seq<byte>, k: nat)
    requires k < 8 * |bm| && !IsSet(bm, k)
    ensures WithoutBit(WithBit(bm, k), k) == bm
  {
    ClearBitUndoesSetBit(bm[k / 8] as nat, k % 8);
    assert WithoutBit(WithBit(bm, k), k) == bm;
  }

  /** The first free slot at or after `k`, scanning bytes upward and bits least-significant first. */
  function FirstClearFrom(bm: seq<byte>, k: nat): (r: Option<nat>)
    requires k <= 8 * |bm|
    ensures r.Some? ==> k <= r.value < 8 * |bm| && !IsSet(bm, r.value)
                         && forall j :: k <= j < r.value ==> IsSet(bm, j)
    ensures r.None? ==> forall j :: k <= j < 8 * |bm| ==> IsSet(bm, j)
    decreases 8 * |bm| - k
  {
    if k == 8 * |bm| then None
    else if !IsSet(bm, k) then Some(k)
    else FirstClearFrom(bm, k + 1)
  }

  /** Slot `8*i + j` is bit `j` of byte `i`, and the scan steps past it exactly when it is in use. */
  lemma SlotOfByte(bm: seq<byte>, i: nat, j: nat)
    requires i < |bm| && j < 8
    ensures IsSet(bm, 8 * i + j) == BitSet(bm[i] as nat, j)
    ensures FirstClearFrom(bm, 8 * i + j) == if BitSet(bm[i] as nat, j) then FirstClearFrom(bm, 8 * i + j + 1) else Some(8 * i + j)
  {
    assert (8 * i + j) / 8 == i && (8 * i + j) % 8 == j;
  }

  function FirstClear(bm: seq<byte>): Option<nat>
  {
    FirstClearFrom(bm, 0)
  }

  /** The value find_free_inode / find_free_block return: 0 stands both for slot 0 and for "full". */
  function ScanAsWritten(bm: seq<byte>): nat
  {
    match FirstClear(bm)
    case Some(k) => k
    case None => 0
  }

  /** On a full bitmap the scan reports slot 0, which is in use: the caller allocates it a second time. */
  lemma FullScanAliasesSlotZero(bm: seq<byte>)
    requires |bm| == BlockSize && forall i :: 0 <= i < |bm| ==> bm[i] == 0xFF
    ensures ScanAsWritten(bm) == 0 && IsSet(bm, 0)
  {
    forall k | 0 <= k < 8 * |bm| ensures IsSet(bm, k) {
      AllOnesByte(k % 8);
    }
    FirstClearExhausted(bm);
  }

  /** Every bit of the byte 0xFF is set. */
  lemma AllOnesByte(j: nat)
    requires j < 8
    ensures BitSet(0xFF, j)
  {
    assert BitSet(1, 0) && BitSet(3, 1) && BitSet(7, 2) && BitSet(15, 3);
    assert BitSet(31, 4) && BitSet(63, 5) && BitSet(127, 6) && BitSet(255, 7);
  }

  /** The corrected scan reports a full bitmap as exhausted and never names a busy slot. */
  lemma {:induction false} FirstClearExhausted(bm: seq<byte>)
    ensures FirstClear(bm).None? <==> forall j :: 0 <= j < 8 * |bm| ==> IsSet(bm, j)
    ensures FirstClear(bm).Some? ==> !IsSet(bm, FirstClear(bm).value)
  {
  }

  /** The bit that allocation marks for object number `n` (numbers count from 1). */
  function SlotOf(n: nat): nat
    requires n >= 1
  {
    n - 1
  }

  /** The bit rm and rmdir clear for object number `n`. */
  function ReleaseSlotAsWritten(n: nat): nat
  {
    n
  }

  /**
   * Freeing object `n` by the bit rm and rmdir use does not undo its
   * allocation: the object's own bit stays in use and the bit of object
   * `n + 1` is cleared instead, whether or not that object is live.
   */
  lemma {:induction false} ReleaseAsWrittenMissesSlot(bm: seq<byte>, n: nat)
    requires n >= 1 && n < 8 * |bm| && !IsSet(bm, SlotOf(n))
    ensures var after := WithoutBit(WithBit(bm, SlotOf(n)), ReleaseSlotAsWritten(n));
            IsSet(after, SlotOf(n)) && !IsSet(after, n) && after != bm
  {
    var taken := WithBit(bm, SlotOf(n));
    var after := WithoutBit(taken, n);
    WithBitSlots(bm, SlotOf(n), SlotOf(n));
    WithoutBitSlots(taken, n, SlotOf(n));
    WithoutBitSlots(taken, n, n);
    assert IsSet(after, SlotOf(n)) && !IsSet(bm, SlotOf(n));
  }

  /** The unsigned 16-bit and 32-bit counters of the descriptor and superblock, with wrap-around. */
  function Inc16(x: nat): (r: nat) ensures r < 0x1_0000 { (x + 1) % 0x1_0000 }
  function Dec16(x: nat): (r: nat) ensures r < 0x1_0000 { (x + 0xFFFF) % 0x1_0000 }
  function Inc32(x: nat): (r: nat) ensures r < 0x1_0000_0000 { (x + 1) % 0x1_0000_0000 }
  function Dec32(x: nat): (r: nat) ensures r < 0x1_0000_0000 { (x + 0xFFFF_FFFF) % 0x1_0000_0000 }

  /** Taking a slot and giving it back leaves each counter where it was. */
  lemma CounterRoundTrip(g: nat, s: nat)
    requires g < 0x1_0000 && s < 0x1_0000_0000
    ensures Inc16(Dec16(g)) == g && Inc32(Dec32(s)) == s
  {
  }

  /** A bitmap block in memory, with the free counters of its group and of the superblock. */
  class Bitmap {
    var bits: array<byte>
    var groupFree: nat
    var superFree: nat

    predicate Valid()
      reads this
    {
      bits.Length == BlockSize && groupFree < 0x1_0000 && superFree < 0x1_0000_0000
    }

    constructor (block: seq<byte>, groupFree: nat, superFree: nat)
      requires |block| == BlockSize && groupFree < 0x1_0000 && superFree < 0x1_0000_0000
      ensures Valid() && fresh(bits)
      ensures bits[..] == block && this.groupFree == groupFree && this.superFree == superFree
    {
      bits := new byte[BlockSize](i requires 0 <= i < BlockSize => block[i]);
      this.groupFree := groupFree;
      this.superFree := superFree;
    }

    /** find_free_inode / find_free_block, reporting a full bitmap instead of answering 0. */
    method FindFree() returns (r: Option<nat>)
      requires Valid()
      ensures r == FirstClear(bits[..])
    {
      ghost var bm := bits[..];
      var i := 0;
      while i < 1024
        invariant 0 <= i <= 1024
        invariant FirstClear(bm) == FirstClearFrom(bm, 8 * i)
      {
        var a := bits[i];
        var j := 0;
        while j < 8
          invariant 0 <= j <= 8
          invariant FirstClear(bm) == FirstClearFrom(bm, 8 * i + j)
        {
          SlotOfByte(bm, i, j);
          if !BitSet(a as nat, j) {
            return Some(8 * i + j);
          }
          j := j + 1;
        }
        i := i + 1;
      }
      return None;
    }

    /** set_block_bitmap / set_inode_bitmap. */
    method Set(k: nat)
      requires Valid() && k < 8 * BlockSize
      modifies bits
      ensures bits[..] == WithBit(old(bits[..]), k)
    {
      var y := k / 8;
      var x := k % 8;
      SetBitBelow(bits[y] as nat, x, 8);
      bits[y] := SetBit(bits[y] as nat, x) as byte;
    }

    /** unset_block_bitmap: the bit is cleared, the counters are left alone. */
    method Clear(k: nat)
      requires Valid() && k < 8 * BlockSize
      modifies bits
      ensures bits[..] == WithoutBit(old(bits[..]), k)
    {
      var y := k / 8;
      var x := k % 8;
      ClearBitBelow(bits[y] as nat, x);
      bits[y] := ClearBit(bits[y] as nat, x) as byte;
    }

    /** unset_inode_bitmap: the bit is cleared and both free counters grow by one. */
    method Release(k: nat)
      requires Valid() && k < 8 * BlockSize
      modifies this, bits
      ensures Valid() && bits == old(bits)
      ensures bits[..] == WithoutBit(old(bits[..]), k)
      ensures groupFree == Inc16(old(groupFree)) && superFree == Inc32(old(superFree))
    {
      Clear(k);
      groupFree := Inc16(groupFree);
      superFree := Inc32(superFree);
    }

    /** The bookkeeping of mkdir and touch: both free counters drop by one for a slot taken. */
    method Consume()
      requires Valid()
      modifies this
      ensures Valid() && bits == old(bits)
      ensures groupFree == Dec16(old(groupFree)) && superFree == Dec32(old(superFree))
    {
      groupFree := Dec16(groupFree);
      superFree := Dec32(superFree);
    }

    /** The allocator as a whole: find the first free slot, mark it, count it; nothing changes when the bitmap is full. */
    method Allocate() returns (r: Result<nat>)
      requires Valid()
      modifies this, bits
      ensures Valid() && bits == old(bits)
      ensures r.Err? ==> r.error == BitmapExhausted && bits[..] == old(bits[..])
                         && groupFree == old(groupFree) && superFree == old(superFree)
                         && forall j :: 0 <= j < 8 * BlockSize ==> IsSet(old(bits[..]), j)
      ensures r.Ok? ==> FirstClear(old(bits[..])) == Some(r.value) && r.value < 8 * BlockSize
                        && bits[..] == WithBit(old(bits[..]), r.value)
                        && groupFree == Dec16(old(groupFree)) && superFree == Dec32(old(superFree))
    {
      var k := FindFree();
      if k.None? {
        return Err(BitmapExhausted);
      }
      Set(k.value);
      Consume();
      return Ok(k.value);
    }
  }
}
