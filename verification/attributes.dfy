/**
 * The permission string attr prints: a type letter, 'd' for a directory
 * and 'f' for anything else, then read, write and execute letters for
 * owner, group and others, each checked against its mode mask.
 */
module Attributes {
  import opened Bytes
  import opened OnDisk

  // The permission masks of the mode.
  const IRUSR: nat := 0x0100
  const IWUSR: nat := 0x0080
  const IXUSR: nat := 0x0040
  const IRGRP: nat := 0x0020
  const IWGRP: nat := 0x0010
  const IXGRP: nat := 0x0008
  const IROTH: nat := 0x0004
  const IWOTH: nat := 0x0002
  const IXOTH: nat := 0x0001

  /** Each mask is one bit, from bit 8 for the owner's read down to bit 0 for the others' execute. */
  lemma MasksAreBits()
    ensures IRUSR == Pow2(8) && IWUSR == Pow2(7) && IXUSR == Pow2(6)
    ensures IRGRP == Pow2(5) && IWGRP == Pow2(4) && IXGRP == Pow2(3)
    ensures IROTH == Pow2(2) && IWOTH == Pow2(1) && IXOTH == Pow2(0)
  {
  }

  /** The letter for one mask `1 << bit`: `c` when the mode has the bit, '-' otherwise. */
  function Letter(mode: nat, bit: nat, c: char): char
  {
    if BitSet(mode, bit) then c else '-'
  }

  /**
   * funct_attr's output: the type letter, 'd' for a directory and 'f' for
   * anything else, then the nine permission letters, letter i being the i-th
   * of "rwxrwxrwx" exactly when bit 9 - i of the mode is set.
   */
  function PermString(mode: nat): (r: string)
    ensures |r| == 10
    ensures r[0] == (if IsDir(mode) then 'd' else 'f')
    ensures forall i :: 1 <= i < 10 ==> r[i] == (if BitSet(mode, 9 - i) then "rwxrwxrwx"[i - 1] else '-')
  {
    [if IsDir(mode) then 'd' else 'f'] + Permissions(mode)
  }

  /** The nine permission letters, one per mask from 0x100 down to 0x001. */
  function Permissions(mode: nat): (r: string)
    ensures |r| == 9
  {
    [Letter(mode, 8, 'r'), Letter(mode, 7, 'w'), Letter(mode, 6, 'x'),
     Letter(mode, 5, 'r'), Letter(mode, 4, 'w'), Letter(mode, 3, 'x'),
     Letter(mode, 2, 'r'), Letter(mode, 1, 'w'), Letter(mode, 0, 'x')]
  }

  /** The mode mkdir gives a new directory, 040755, reads as "drwxr-xr-x". */
  lemma DirectoryTemplate()
    ensures PermString(16877) == "drwxr-xr-x"
  {
    assert Permissions(16877) == "rwxr-xr-x";
  }

  /** The mode touch gives a new file, 0100644, reads as "frw-r--r--". */
  lemma FileTemplate()
    ensures PermString(33188) == "frw-r--r--"
  {
    assert Permissions(33188) == "rw-r--r--";
  }
}
