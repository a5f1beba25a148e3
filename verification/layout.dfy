/**
 * Where things live in an EXT2 image with 1 KiB blocks: the superblock at
 * byte 1024, the group-descriptor table in the block after it, inode
 * records in each group's inode table, and the group an inode or block
 * number belongs to.
 */
module Layout {
  import Bytes

  const BaseOffset: nat := 1024       // the superblock starts here
  const BlockSize: nat := 1024        // the only block size the engine handles
  const Ext2SuperMagic: nat := 0xEF53
  const InodeRecordSize: nat := 128   // sizeof(struct ext2_inode)
  const GroupDescSize: nat := 32      // sizeof(struct ext2_group_desc)
  const PointersPerBlock: nat := 256  // 32-bit block numbers in one 1 KiB block
  const DirectBlocks: nat := 12       // i_block[0..11]

  /** The block size the superblock announces: 1024 shifted left by s_log_block_size. */
  function BlockSizeFor(logBlockSize: nat): nat
  {
    1024 * Bytes.Pow2(logBlockSize)
  }

  /** Block sizes are 1 KiB multiples, and exactly 1 KiB only for s_log_block_size 0. */
  lemma {:induction false} BlockSizeForShape(logBlockSize: nat)
    ensures BlockSizeFor(logBlockSize) % BlockSize == 0
    ensures BlockSizeFor(logBlockSize) >= BlockSize
    ensures BlockSizeFor(logBlockSize) == BlockSize <==> logBlockSize == 0
  {
    if logBlockSize > 0 {
      assert Bytes.Pow2(logBlockSize) == 2 * Bytes.Pow2(logBlockSize - 1);
    }
  }

  /** Byte offset of block `b`: blocks are numbered from 1 starting right at the superblock. */
  function BlockOffset(b: nat): int
  {
    BaseOffset + (b - 1) * BlockSize
  }

  /** Block `b` begins at byte b*1024, so distinct blocks never share a byte. */
  lemma BlockOffsetShape(b1: nat, b2: nat)
    ensures BlockOffset(b1) == b1 * BlockSize
    ensures b1 != b2 ==> BlockOffset(b1) + BlockSize <= BlockOffset(b2) || BlockOffset(b2) + BlockSize <= BlockOffset(b1)
  {
  }

  /** Byte offset of the descriptor of block group `g` in the table that follows the superblock. */
  function DescriptorOffset(g: nat): nat
  {
    BaseOffset + BlockSize + g * GroupDescSize
  }

  /** With 1 KiB blocks the first 32 descriptors share block 2 and never overlap. */
  lemma DescriptorSlots(g1: nat, g2: nat)
    ensures g1 < 32 ==> BlockOffset(2) <= DescriptorOffset(g1) && DescriptorOffset(g1) + GroupDescSize <= BlockOffset(2) + BlockSize
    ensures g1 != g2 ==> DescriptorOffset(g1) + GroupDescSize <= DescriptorOffset(g2) || DescriptorOffset(g2) + GroupDescSize <= DescriptorOffset(g1)
  {
  }

  /** Byte offset of the record of in-table index `n` (counted from 1) in an inode table that starts at block `table`. */
  function InodeOffset(table: nat, n: nat): int
    requires n >= 1
  {
    BlockOffset(table) + (n - 1) * InodeRecordSize
  }

  /** Eight 128-byte records fill one block: record n sits in table block (n-1)/8 at slot (n-1)%8. */
  lemma {:induction false} InodeRecordPlacement(table: nat, n: nat)
    requires n >= 1
    ensures InodeOffset(table, n) == BlockOffset(table + (n - 1) / 8) + ((n - 1) % 8) * InodeRecordSize
    ensures 0 <= ((n - 1) % 8) * InodeRecordSize && ((n - 1) % 8) * InodeRecordSize + InodeRecordSize <= BlockSize
  {
    var q, r := (n - 1) / 8, (n - 1) % 8;
    assert n - 1 == 8 * q + r;
    calc {
      InodeOffset(table, n);
      BlockOffset(table) + (8 * q + r) * 128;
      { assert (8 * q + r) * 128 == q * 1024 + r * 128; }
      BlockOffset(table) + q * 1024 + r * 128;
      BlockOffset(table + q) + r * 128;
    }
  }

  /** Block group of inode `n` (trocaGrupo). */
  function GroupOfInode(n: nat, inodesPerGroup: nat): nat
    requires n >= 1 && inodesPerGroup > 0
  {
    (n - 1) / inodesPerGroup
  }

  /** Block group of block `b` (trocaGrupoBlock): block 1 is the first block of group 0. */
  function GroupOfBlock(b: nat, blocksPerGroup: nat): nat
    requires b >= 1 && blocksPerGroup > 0
  {
    (b - 1) / blocksPerGroup
  }

  /** The in-group index the callers of read_inode compute: the inode number modulo inodes per group. */
  function InGroupIndexAsWritten(n: nat, inodesPerGroup: nat): nat
    requires inodesPerGroup > 0
  {
    n % inodesPerGroup
  }

  /** The in-group index read_inode expects: 1 for the first inode of a group, up to inodes-per-group for its last. */
  function InGroupIndex(n: nat, inodesPerGroup: nat): nat
    requires n >= 1 && inodesPerGroup > 0
  {
    (n - 1) % inodesPerGroup + 1
  }

  /** The in-group index lies in 1..ipg, and together with the group it names inode `n` again. */
  lemma {:induction false} InGroupIndexSound(n: nat, ipg: nat)
    requires n >= 1 && ipg > 0
    ensures 1 <= InGroupIndex(n, ipg) <= ipg
    ensures GroupOfInode(n, ipg) * ipg + InGroupIndex(n, ipg) == n
  {
    var q, r := (n - 1) / ipg, (n - 1) % ipg;
    assert n - 1 == q * ipg + r;
  }

  /** The first ipg inodes live in group 0, each at its own number. */
  lemma {:induction false} FirstGroupInodes(n: nat, ipg: nat)
    requires 1 <= n <= ipg
    ensures GroupOfInode(n, ipg) == 0 && InGroupIndex(n, ipg) == n
  {
    ModOfSum(0, ipg, n - 1);
  }

  /** The callers' index equals the intended one exactly when `n` is not a multiple of ipg; otherwise it is 0. */
  lemma {:induction false} InGroupIndexAsWrittenAgrees(n: nat, ipg: nat)
    requires n >= 1 && ipg > 0
    ensures InGroupIndexAsWritten(n, ipg) == InGroupIndex(n, ipg) <==> n % ipg != 0
    ensures n % ipg == 0 ==> InGroupIndexAsWritten(n, ipg) == 0
  {
    var q, r := (n - 1) / ipg, (n - 1) % ipg;
    assert n - 1 == q * ipg + r && 0 <= r < ipg;
    if r + 1 < ipg {
      assert n == q * ipg + (r + 1);
      ModOfSum(q, ipg, r + 1);
      assert n % ipg == r + 1;
    } else {
      assert n == (q + 1) * ipg;
      ModOfSum(q + 1, ipg, 0);
      assert n % ipg == 0;
    }
  }

  lemma {:induction false} ModOfSum(q: nat, m: nat, r: nat)
    requires m > 0 && r < m
    ensures (q * m + r) % m == r && (q * m + r) / m == q
  {
    var a := q * m + r;
    var q', r' := a / m, a % m;
    assert q' * m + r' == q * m + r && 0 <= r' < m;
    if q' > q {
      MulStep(q', q, m);
      assert false;
    } else if q' < q {
      MulStep(q, q', m);
      assert false;
    }
  }

  lemma {:induction false} MulStep(a: nat, b: nat, m: nat)
    requires a > b
    ensures a * m >= b * m + m
  {
    var d := a - b;
    assert a * m == b * m + d * m by {
      assert a == b + d;
    }
    MulAtLeast(d, m);
  }

  lemma {:induction false} MulAtLeast(d: nat, m: nat)
    requires d >= 1
    ensures d * m >= m
  {
    if d > 1 {
      MulAtLeast(d - 1, m);
      assert d * m == (d - 1) * m + m;
    }
  }

  /**
   * read_inode's offset for an unsigned index: index 0 wraps (0 - 1) to 2^32 - 1
   * before it is scaled by the record size.
   */
  function InodeOffsetAsWritten(table: nat, index: nat): int
    requires index < 0x1_0000_0000
  {
    BlockOffset(table) + ((index - 1) % 0x1_0000_0000) * InodeRecordSize
  }

  /**
   * For the last inode of every group (n a multiple of ipg) the callers' index
   * sends read_inode 2^32 - 1 records past the table start, outside a table of
   * ipg records, while the intended index reads the group's last record.
   */
  lemma {:induction false} LastInodeOfGroupMissesTable(table: nat, n: nat, ipg: nat)
    requires n >= 1 && 0 < ipg < 0x1_0000_0000 - 1 && n % ipg == 0
    ensures InGroupIndexAsWritten(n, ipg) == 0
    ensures InodeOffsetAsWritten(table, InGroupIndexAsWritten(n, ipg)) >= InodeOffset(table, 1) + ipg * InodeRecordSize
    ensures InodeOffset(table, InGroupIndex(n, ipg)) == InodeOffset(table, 1) + (ipg - 1) * InodeRecordSize
  {
    InGroupIndexAsWrittenAgrees(n, ipg);
    assert (n - 1) % ipg == ipg - 1 by {
      var q, r := (n - 1) / ipg, (n - 1) % ipg;
      assert n - 1 == q * ipg + r && 0 <= r < ipg;
      if r + 1 < ipg {
        assert n == q * ipg + (r + 1);
        ModOfSum(q, ipg, r + 1);
        assert false;
      }
    }
    assert InGroupIndex(n, ipg) == ipg;
    assert (0 - 1) % 0x1_0000_0000 == 0x1_0000_0000 - 1;
    assert InodeOffsetAsWritten(table, 0) == BlockOffset(table) + (0x1_0000_0000 - 1) * InodeRecordSize;
    assert ipg * InodeRecordSize <= (0x1_0000_0000 - 1) * InodeRecordSize;
  }
}
