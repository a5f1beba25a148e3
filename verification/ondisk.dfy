/**
 * The fixed-size records of the image: the superblock, a block-group
 * descriptor and an inode, decoded from and encoded into their
 * little-endian on-disk bytes, and the mount-time magic check.
 */
module OnDisk {
  import opened Bytes
  import opened Layout
  import opened Errors

  const SuperRecordSize: nat := 1024
  const InodeBlockPointers: nat := 15

  /** The superblock fields the engine reads. */
  datatype Superblock = Superblock(
    inodesCount: nat, blocksCount: nat, rBlocksCount: nat,
    freeBlocksCount: nat, freeInodesCount: nat,
    logBlockSize: nat, blocksPerGroup: nat, inodesPerGroup: nat,
    magic: nat, inodeSize: nat)

  function DecodeSuper(rec: seq<byte>): Superblock
    requires |rec| == SuperRecordSize
  {
    Superblock(U32(rec, 0), U32(rec, 4), U32(rec, 8), U32(rec, 12), U32(rec, 16),
               U32(rec, 24), U32(rec, 32), U32(rec, 40), U16(rec, 56), U16(rec, 88))
  }

  /** The superblock record with its two free counters replaced (rewriteSuperAndGroup). */
  function PutSuperCounters(rec: seq<byte>, freeBlocks: nat, freeInodes: nat): seq<byte>
    requires |rec| == SuperRecordSize && freeBlocks < 0x1_0000_0000 && freeInodes < 0x1_0000_0000
  {
    rec[..12] + Le32(freeBlocks) + Le32(freeInodes) + rec[20..]
  }

  /** Rewriting the counters changes exactly the two counters a later decode sees. */
  lemma {:induction false} PutSuperCountersDecodes(rec: seq<byte>, freeBlocks: nat, freeInodes: nat)
    requires |rec| == SuperRecordSize && freeBlocks < 0x1_0000_0000 && freeInodes < 0x1_0000_0000
    ensures |PutSuperCounters(rec, freeBlocks, freeInodes)| == SuperRecordSize
    ensures DecodeSuper(PutSuperCounters(rec, freeBlocks, freeInodes))
         == DecodeSuper(rec).(freeBlocksCount := freeBlocks, freeInodesCount := freeInodes)
  {
    var r := PutSuperCounters(rec, freeBlocks, freeInodes);
    assert r[12..16] == Le32(freeBlocks);
    assert r[16..20] == Le32(freeInodes);
    U32Le32(r, 12, freeBlocks);
    U32Le32(r, 16, freeInodes);
    forall off: nat | off in {0, 4, 8} ensures U32(r, off) == U32(rec, off) {
      assert r[off..off + 4] == rec[off..off + 4];
      U32Frame(r, rec, off);
    }
    forall off: nat | off in {24, 32, 40} ensures U32(r, off) == U32(rec, off) {
      assert r[off..off + 4] == rec[off..off + 4];
      U32Frame(r, rec, off);
    }
    forall off: nat | off in {56, 88} ensures U16(r, off) == U16(rec, off) {
      assert r[off..off + 2] == rec[off..off + 2];
      U16Frame(r, rec, off);
    }
  }

  /** The superblock the image holds at byte 1024. */
  function ReadSuper(img: seq<byte>): Superblock
  {
    DecodeSuper(Slice(img, BaseOffset, SuperRecordSize))
  }

  /** init_super: an image whose magic number is not 0xEF53 is not an EXT2 file system. */
  function Mount(img: seq<byte>): (r: Result<Superblock>)
    ensures r.Ok? <==> ReadSuper(img).magic == Ext2SuperMagic
    ensures r.Ok? ==> r.value == ReadSuper(img)
    ensures r.Err? ==> r.error == NotAnExt2Image
  {
    var sb := ReadSuper(img);
    if sb.magic != Ext2SuperMagic then Err(NotAnExt2Image) else Ok(sb)
  }

  /** A block-group descriptor. */
  datatype GroupDesc = GroupDesc(
    blockBitmap: nat, inodeBitmap: nat, inodeTable: nat,
    freeBlocksCount: nat, freeInodesCount: nat, usedDirsCount: nat)

  predicate DescFits(d: GroupDesc)
  {
    d.blockBitmap < 0x1_0000_0000 && d.inodeBitmap < 0x1_0000_0000 && d.inodeTable < 0x1_0000_0000
    && d.freeBlocksCount < 0x1_0000 && d.freeInodesCount < 0x1_0000 && d.usedDirsCount < 0x1_0000
  }

  function DecodeDesc(rec: seq<byte>): (d: GroupDesc)
    requires |rec| == GroupDescSize
    ensures DescFits(d)
  {
    GroupDesc(U32(rec, 0), U32(rec, 4), U32(rec, 8), U16(rec, 12), U16(rec, 14), U16(rec, 16))
  }

  function EncodeDesc(rec: seq<byte>, d: GroupDesc): (r: seq<byte>)
    requires |rec| == GroupDescSize && DescFits(d)
    ensures |r| == GroupDescSize
  {
    Le32(d.blockBitmap) + Le32(d.inodeBitmap) + Le32(d.inodeTable)
      + Le16(d.freeBlocksCount) + Le16(d.freeInodesCount) + Le16(d.usedDirsCount) + rec[18..]
  }

  /** A descriptor written into a record is the descriptor read back from it. */
  lemma {:induction false} DescRoundTrip(rec: seq<byte>, d: GroupDesc)
    requires |rec| == GroupDescSize && DescFits(d)
    ensures DecodeDesc(EncodeDesc(rec, d)) == d
  {
    var r := EncodeDesc(rec, d);
    assert r[0..4] == Le32(d.blockBitmap);
    assert r[4..8] == Le32(d.inodeBitmap);
    assert r[8..12] == Le32(d.inodeTable);
    assert r[12..14] == Le16(d.freeBlocksCount);
    assert r[14..16] == Le16(d.freeInodesCount);
    assert r[16..18] == Le16(d.usedDirsCount);
    U32Le32(r, 0, d.blockBitmap);
    U32Le32(r, 4, d.inodeBitmap);
    U32Le32(r, 8, d.inodeTable);
    U16Le16(r, 12, d.freeBlocksCount);
    U16Le16(r, 14, d.freeInodesCount);
    U16Le16(r, 16, d.usedDirsCount);
  }

  /** The descriptor of group `g` as the image holds it. */
  function ReadDesc(img: seq<byte>, g: nat): GroupDesc
  {
    DecodeDesc(Slice(img, DescriptorOffset(g), GroupDescSize))
  }

  /** The image with descriptor `d` written in the slot of group `g`. */
  function WriteDesc(img: seq<byte>, g: nat, d: GroupDesc): (r: seq<byte>)
    requires DescFits(d)
    ensures |r| == |img|
  {
    WriteAt(img, DescriptorOffset(g), EncodeDesc(Slice(img, DescriptorOffset(g), GroupDescSize), d))
  }

  /** Reloading a group right after it was persisted gives the persisted descriptor. */
  lemma {:induction false} ReadDescAfterWrite(img: seq<byte>, g: nat, d: GroupDesc)
    requires DescFits(d) && DescriptorOffset(g) + GroupDescSize <= |img|
    ensures ReadDesc(WriteDesc(img, g, d), g) == d
  {
    var enc := EncodeDesc(Slice(img, DescriptorOffset(g), GroupDescSize), d);
    SliceOfWrite(img, DescriptorOffset(g), enc);
    DescRoundTrip(Slice(img, DescriptorOffset(g), GroupDescSize), d);
  }

  /** An inode: type and permission bits, owner, size and the 15 block pointers. */
  datatype Inode = Inode(mode: nat, uid: nat, size: nat, gid: nat, linksCount: nat, sectors: nat, block: seq<nat>)

  predicate InodeFits(ino: Inode)
  {
    ino.mode < 0x1_0000 && ino.uid < 0x1_0000 && ino.size < 0x1_0000_0000
    && ino.gid < 0x1_0000 && ino.linksCount < 0x1_0000 && ino.sectors < 0x1_0000_0000
    && |ino.block| == InodeBlockPointers
    && forall i :: 0 <= i < |ino.block| ==> ino.block[i] < 0x1_0000_0000
  }

  function DecodePointers(rec: seq<byte>, off: nat, n: nat): (r: seq<nat>)
    requires off + 4 * n <= |rec|
    ensures |r| == n
    ensures forall i :: 0 <= i < n ==> r[i] == U32(rec, off + 4 * i) && r[i] < 0x1_0000_0000
  {
    seq(n, i requires 0 <= i < n => U32(rec, off + 4 * i))
  }

  function EncodePointers(ptrs: seq<nat>): (r: seq<byte>)
    requires forall i :: 0 <= i < |ptrs| ==> ptrs[i] < 0x1_0000_0000
    ensures |r| == 4 * |ptrs|
  {
    if ptrs == [] then [] else Le32(ptrs[0]) + EncodePointers(ptrs[1..])
  }

  /** Byte t of pointer i of an encoded run sits at 4i + t. */
  lemma {:induction false} EncodedPointerAt(ptrs: seq<nat>, i: nat, t: nat)
    requires forall j :: 0 <= j < |ptrs| ==> ptrs[j] < 0x1_0000_0000
    requires i < |ptrs| && t < 4
    ensures EncodePointers(ptrs)[4 * i + t] == Le32(ptrs[i])[t]
    decreases i
  {
    var e := EncodePointers(ptrs);
    var head, rest := Le32(ptrs[0]), EncodePointers(ptrs[1..]);
    assert e == head + rest;
    if i > 0 {
      EncodedPointerAt(ptrs[1..], i - 1, t);
      assert e[4 * i + t] == rest[4 * (i - 1) + t];
    }
  }

  lemma PointersRoundTrip(rec: seq<byte>, off: nat, ptrs: seq<nat>)
    requires forall i :: 0 <= i < |ptrs| ==> ptrs[i] < 0x1_0000_0000
    requires off + 4 * |ptrs| <= |rec| && rec[off..off + 4 * |ptrs|] == EncodePointers(ptrs)
    ensures DecodePointers(rec, off, |ptrs|) == ptrs
  {
    forall i, t | 0 <= i < |ptrs| && 0 <= t < 4 ensures rec[off + 4 * i + t] == Le32(ptrs[i])[t] {
      PointerByte(rec, off, ptrs, i, t);
    }
    WordsRoundTrip(rec, off, ptrs);
  }

  /** Words laid out byte by byte decode back to the words. */
  lemma WordsRoundTrip(rec: seq<byte>, off: nat, ptrs: seq<nat>)
    requires forall i :: 0 <= i < |ptrs| ==> ptrs[i] < 0x1_0000_0000
    requires off + 4 * |ptrs| <= |rec|
    requires forall i, t :: 0 <= i < |ptrs| && 0 <= t < 4 ==> rec[off + 4 * i + t] == Le32(ptrs[i])[t]
    ensures DecodePointers(rec, off, |ptrs|) == ptrs
  {
    var d := DecodePointers(rec, off, |ptrs|);
    forall i | 0 <= i < |ptrs| ensures d[i] == ptrs[i] {
      U32OfBytes(rec, off + 4 * i, ptrs[i]);
    }
  }

  lemma PointerByte(rec: seq<byte>, off: nat, ptrs: seq<nat>, i: nat, t: nat)
    requires forall i :: 0 <= i < |ptrs| ==> ptrs[i] < 0x1_0000_0000
    requires off + 4 * |ptrs| <= |rec| && rec[off..off + 4 * |ptrs|] == EncodePointers(ptrs)
    requires i < |ptrs| && t < 4
    ensures rec[off + 4 * i + t] == Le32(ptrs[i])[t]
  {
    EncodedPointerAt(ptrs, i, t);
    assert rec[off + 4 * i + t] == rec[off..off + 4 * |ptrs|][4 * i + t];
  }

  function DecodeInode(rec: seq<byte>): (ino: Inode)
    requires |rec| == InodeRecordSize
    ensures InodeFits(ino)
  {
    Inode(U16(rec, 0), U16(rec, 2), U32(rec, 4), U16(rec, 24), U16(rec, 26), U32(rec, 28),
          DecodePointers(rec, 40, InodeBlockPointers))
  }

  /** The inode record with the modelled fields replaced; timestamps, flags and the rest keep their bytes. */
  function EncodeInode(rec: seq<byte>, ino: Inode): (r: seq<byte>)
    requires |rec| == InodeRecordSize && InodeFits(ino)
    ensures |r| == InodeRecordSize
  {
    Le16(ino.mode) + Le16(ino.uid) + Le32(ino.size) + rec[8..24]
      + Le16(ino.gid) + Le16(ino.linksCount) + Le32(ino.sectors) + rec[32..40]
      + EncodePointers(ino.block) + rec[100..]
  }

  /** An inode written by write_inode is the inode read_inode returns. */
  lemma {:induction false} InodeRoundTrip(rec: seq<byte>, ino: Inode)
    requires |rec| == InodeRecordSize && InodeFits(ino)
    ensures DecodeInode(EncodeInode(rec, ino)) == ino
  {
    var r := EncodeInode(rec, ino);
    assert r[0..2] == Le16(ino.mode);
    assert r[2..4] == Le16(ino.uid);
    assert r[4..8] == Le32(ino.size);
    assert r[24..26] == Le16(ino.gid);
    assert r[26..28] == Le16(ino.linksCount);
    assert r[28..32] == Le32(ino.sectors);
    assert r[40..100] == EncodePointers(ino.block);
    U16Le16(r, 0, ino.mode);
    U16Le16(r, 2, ino.uid);
    U32Le32(r, 4, ino.size);
    U16Le16(r, 24, ino.gid);
    U16Le16(r, 26, ino.linksCount);
    U32Le32(r, 28, ino.sectors);
    PointersRoundTrip(r, 40, ino.block);
  }

  /** read_inode: record `n` (counted from 1) of the inode table of group descriptor `d`. */
  function ReadInode(img: seq<byte>, d: GroupDesc, n: nat): Inode
    requires n >= 1
  {
    DecodeInode(Slice(img, InodeOffset(d.inodeTable, n), InodeRecordSize))
  }

  /** write_inode: the image with record `n` of the inode table of `d` replaced by `ino`. */
  function WriteInode(img: seq<byte>, d: GroupDesc, n: nat, ino: Inode): (r: seq<byte>)
    requires n >= 1 && InodeFits(ino)
    ensures |r| == |img|
  {
    var off := InodeOffset(d.inodeTable, n);
    WriteAt(img, off, EncodeInode(Slice(img, off, InodeRecordSize), ino))
  }

  /** Reading an inode back right after writing it gives what was written. */
  lemma {:induction false} ReadInodeAfterWrite(img: seq<byte>, d: GroupDesc, n: nat, ino: Inode)
    requires n >= 1 && InodeFits(ino)
    requires 0 <= InodeOffset(d.inodeTable, n) && InodeOffset(d.inodeTable, n) + InodeRecordSize <= |img|
    ensures ReadInode(WriteInode(img, d, n, ino), d, n) == ino
  {
    var off := InodeOffset(d.inodeTable, n);
    var enc := EncodeInode(Slice(img, off, InodeRecordSize), ino);
    SliceOfWrite(img, off, enc);
    InodeRoundTrip(Slice(img, off, InodeRecordSize), ino);
  }

  /** S_ISDIR: the type nibble of the mode is 4. */
  predicate IsDir(mode: nat)
  {
    (mode / 0x1000) % 16 == 4
  }
}
