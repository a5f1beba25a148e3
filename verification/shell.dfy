/**
 * The shell as the program keeps it: a handful of globals (the image, the
 * cached superblock, the current group number and its cached descriptor, the
 * current directory's inode and the path stack) that every command updates in
 * place. Each command is proved to leave exactly the state its transaction in
 * Engine describes, and to leave the state untouched when it is refused.
 */
module Session {
  import opened Bytes
  import opened Errors
  import opened Layout
  import opened OnDisk
  import opened Bitmaps
  import opened Directories
  import opened DirEdits
  import opened Indirection
  import opened Navigation
  import Engine
  import Commands

  /** A command's result and the state after it agree with its transaction `spec`. */
  predicate Follows(r: Result<Engine.Output>, before: Engine.FsState, after: Engine.FsState, spec: Result<Engine.FsState>)
  {
    (spec.Ok? ==> r == Ok(Engine.Done) && after == spec.value)
    && (spec.Err? ==> r == Err(spec.error) && after == before)
  }

  /** The same for a command line, whose transaction also hands back what is printed. */
  predicate Agrees(r: Result<Engine.Output>, before: Engine.FsState, after: Engine.FsState,
                   spec: Result<(Engine.Output, Engine.FsState)>)
  {
    (spec.Ok? ==> r == Ok(spec.value.0) && after == spec.value.1)
    && (spec.Err? ==> r == Err(spec.error) && after == before)
  }

  /**
   * find_free_* followed by set_*_bitmap on a bitmap block read into memory,
   * with the free counters of its group and of the superblock: the first free
   * slot is taken and counted, or the block is reported full.
   */
  method AllocateSlot(block: seq<byte>, groupFree: nat, superFree: nat)
    returns (r: Result<nat>, bits: seq<byte>, groupFree': nat, superFree': nat)
    requires |block| == BlockSize && groupFree < 0x1_0000 && superFree < 0x1_0000_0000
    ensures r.Err? <==> FirstClear(block).None?
    ensures r.Err? ==> r.error == BitmapExhausted
    ensures r.Ok? ==> FirstClear(block) == Some(r.value) && r.value < 8 * BlockSize && !IsSet(block, r.value)
                      && bits == WithBit(block, r.value)
                      && groupFree' == Dec16(groupFree) && superFree' == Dec32(superFree)
  {
    var bm := new Bitmap(block, groupFree, superFree);
    r := bm.Allocate();
    bits, groupFree', superFree' := bm.bits[..], bm.groupFree, bm.superFree;
    FirstClearExhausted(block);
  }

  /** unset_inode_bitmap on a bitmap block read into memory: slot `k` freed and both free counters bumped. */
  method ReleaseSlot(block: seq<byte>, groupFree: nat, superFree: nat, k: nat)
    returns (bits: seq<byte>, groupFree': nat, superFree': nat)
    requires |block| == BlockSize && groupFree < 0x1_0000 && superFree < 0x1_0000_0000 && k < 8 * BlockSize
    ensures bits == WithoutBit(block, k)
    ensures groupFree' == Inc16(groupFree) && superFree' == Inc32(superFree)
  {
    var bm := new Bitmap(block, groupFree, superFree);
    bm.Release(k);
    bits, groupFree', superFree' := bm.bits[..], bm.groupFree, bm.superFree;
  }

  /** unset_block_bitmap on a bitmap block read into memory: slot `k` freed, the counters left alone. */
  method ClearSlot(block: seq<byte>, k: nat) returns (bits: seq<byte>)
    requires |block| == BlockSize && k < 8 * BlockSize
    ensures bits == WithoutBit(block, k) && !IsSet(bits, k)
  {
    var bm := new Bitmap(block, 0, 0);
    bm.Clear(k);
    bits := bm.bits[..];
    WithoutBitSlots(block, k, k);
  }

  class Shell {
    var img: seq<byte>
    var sb: Superblock
    var groupIndex: nat
    var group: GroupDesc
    var cwd: Inode
    var at: Position

    /** The globals as one value. */
    function State(): Engine.FsState
      reads this
    {
      Engine.FsState(img, sb, groupIndex, group, cwd, at)
    }

    predicate Valid()
      reads this
    {
      Engine.ValidState(State())
    }

    constructor (st: Engine.FsState)
      requires Engine.ValidState(st)
      ensures Valid() && State() == st
    {
      img, sb, groupIndex, group, cwd, at := st.img, st.sb, st.groupIndex, st.group, st.cwd, st.at;
    }

    /** init_super and the start of main: a shell on the image, or the reason it is refused. */
    static method Open(image: seq<byte>) returns (r: Result<Shell>)
      ensures r.Err? <==> Engine.Open(image).Err?
      ensures r.Err? ==> r.error == NotAnExt2Image
      ensures r.Ok? ==> fresh(r.value) && r.value.Valid() && r.value.State() == Engine.Open(image).value
    {
      var st := Engine.Open(image);
      if st.Err? {
        return Err(st.error);
      }
      var sh := new Shell(st.value);
      r := Ok(sh);
    }

    /** trocaGrupo: the descriptor is re-read only when the group changes. */
    method SwitchGroup(n: nat)
      requires Valid() && n >= 1
      modifies this
      ensures Valid() && State() == Engine.SwitchGroup(old(State()), n)
    {
      var g := GroupOfInode(n, sb.inodesPerGroup);
      if g != groupIndex {
        groupIndex := g;
        group := ReadDesc(img, g);
      }
    }

    /** funct_cd. */
    method Cd(name: seq<byte>) returns (r: Result<Engine.Output>)
      requires Valid()
      modifies this
      ensures Follows(r, old(State()), State(), Engine.ChangeDir(old(State()), name))
      ensures Valid()
    {
      var listing := Engine.Listing(img, cwd);
      if listing.Err? {
        return Err(listing.error);
      }
      var pos := Navigation.Cd(listing.value, at, name);
      if pos.Err? {
        return Err(pos.error);
      }
      SwitchGroup(pos.value.inode);
      cwd := ReadInode(img, group, InGroupIndex(pos.value.inode, sb.inodesPerGroup));
      at := pos.value;
      r := Ok(Engine.Done);
    }

    /** The checks of mkdir and touch, in the order they refuse. */
    method Admit(name: seq<byte>) returns (r: Result<seq<Entry>>)
      requires Valid()
      ensures r == Engine.Admit(State(), name)
    {
      var recs := Engine.Records(State());
      if recs.Err? {
        return recs;
      }
      var es := recs.value;
      if Lookup(es, name).Some? {
        return Err(AlreadyExists);
      }
      if |name| >= 256 {
        return Err(NameTooLong);
      }
      if NewRecordOffset(es) + EntryHeaderSize + |name| > BlockSize {
        return Err(DirectoryFull);
      }
      r := Ok(es);
    }

    /** funct_mkdir. */
    method Mkdir(name: seq<byte>) returns (r: Result<Engine.Output>)
      requires Valid()
      modifies this
      ensures Follows(r, old(State()), State(), Engine.MakeDir(old(State()), name))
      ensures Valid()
    {
      ghost var st := State();
      var admitted := Admit(name);
      if admitted.Err? {
        return Err(admitted.error);
      }
      var es := admitted.value;
      var planned, g0, ino, blk, ibits, bbits, sb1, d := PlanDirectory();
      if planned.Err? {
        Engine.MakeDirExhausted(st, name, es);
        return Err(planned.error);
      }
      Engine.MakeDirPlanned(st, name, es, g0, ino, blk, ibits, bbits, sb1, d);
      BuildDirectory(st, es, name, g0, ino, blk, ibits, bbits, sb1, d);
      r := Ok(Engine.Done);
    }

    /**
     * mkdir's two allocations, worked out on group 0's bitmaps read into
     * memory before anything is written: the first free slot of each and
     * the counters each one less, or the bitmap that is full.
     */
    method PlanDirectory()
      returns (r: Result<Engine.Output>, g0: GroupDesc, ino: nat, blk: nat,
               inodeBits: seq<byte>, blockBits: seq<byte>, sb1: Superblock, d: GroupDesc)
      requires Valid()
      ensures g0 == ReadDesc(img, 0)
      ensures r.Err? <==> FirstClear(Engine.InodeBitmap(img, g0)).None? || FirstClear(Engine.BlockBitmap(img, g0)).None?
      ensures r.Err? ==> r.error == BitmapExhausted
      ensures r.Ok? ==> FirstClear(Engine.InodeBitmap(img, g0)) == Some(ino - 1) && FirstClear(Engine.BlockBitmap(img, g0)) == Some(blk - 1)
                        && inodeBits == WithBit(Engine.InodeBitmap(img, g0), ino - 1)
                        && blockBits == WithBit(Engine.BlockBitmap(img, g0), blk - 1)
                        && sb1 == sb.(freeBlocksCount := Dec32(sb.freeBlocksCount), freeInodesCount := Dec32(sb.freeInodesCount))
                        && d == g0.(freeBlocksCount := Dec16(g0.freeBlocksCount), freeInodesCount := Dec16(g0.freeInodesCount))
    {
      g0 := ReadDesc(img, 0);
      var ki, igf, isf, kb, bgf, bsf;
      ki, inodeBits, igf, isf := AllocateSlot(Engine.InodeBitmap(img, g0), g0.freeInodesCount, sb.freeInodesCount);
      if ki.Err? {
        return Err(ki.error), g0, 0, 0, [], [], sb, group;
      }
      kb, blockBits, bgf, bsf := AllocateSlot(Engine.BlockBitmap(img, g0), g0.freeBlocksCount, sb.freeBlocksCount);
      if kb.Err? {
        return Err(kb.error), g0, 0, 0, [], [], sb, group;
      }
      ino, blk := ki.value + 1, kb.value + 1;
      sb1 := sb.(freeBlocksCount := bsf, freeInodesCount := isf);
      d := g0.(freeBlocksCount := bgf, freeInodesCount := igf);
      r := Ok(Engine.Done);
    }

    /** mkdir once both slots are allocated: the bitmaps, the new directory, the parent's record, the counters. */
    method BuildDirectory(ghost st: Engine.FsState, es: seq<Entry>, name: seq<byte>, g0: GroupDesc, ino: nat, blk: nat,
                          inodeBits: seq<byte>, blockBits: seq<byte>, sb1: Superblock, d: GroupDesc)
      requires Valid() && st == State()
      requires Tiled(es) && |name| < 256 && NewRecordOffset(es) + EntryHeaderSize + |name| <= BlockSize
      requires 1 <= ino < 0x1_0000_0000 && 1 <= blk < 0x1_0000_0000
      requires |inodeBits| == BlockSize && |blockBits| == BlockSize && Engine.Geometry(sb1) && DescFits(d)
      modifies this
      ensures Tiled(Appended(es, ino, FileTypeDirectory, name))
      ensures State() == Engine.Commit(st, Engine.PlaceDirectory(Engine.MarkBitmaps(st.img, g0, inodeBits, blockBits), g0, ino, blk, st.at.inode),
                                       Appended(es, ino, FileTypeDirectory, name), sb1, 0, d)
    {
      var appended := AppendEntry(es, ino, FileTypeDirectory, name);
      MarkBitmaps(g0, inodeBits, blockBits);
      PlaceDirectory(g0, ino, blk, at.inode);
      Commit(st, appended.value, sb1, 0, d);
    }

    /** funct_touch. */
    method Touch(name: seq<byte>) returns (r: Result<Engine.Output>)
      requires Valid()
      modifies this
      ensures Follows(r, old(State()), State(), Engine.Touch(old(State()), name))
      ensures Valid()
    {
      ghost var st := State();
      var admitted := Admit(name);
      if admitted.Err? {
        return Err(admitted.error);
      }
      var es := admitted.value;
      var planned, g0, ino, ibits, sb1, d := PlanFile();
      if planned.Err? {
        Engine.TouchExhausted(st, name, es);
        return Err(planned.error);
      }
      Engine.TouchPlanned(st, name, es, g0, ino, ibits, sb1, d);
      BuildFile(st, es, name, g0, ino, ibits, sb1, d);
      r := Ok(Engine.Done);
    }

    /** touch's allocation, worked out on group 0's inode bitmap read into memory: the first free slot and the counters one less. */
    method PlanFile() returns (r: Result<Engine.Output>, g0: GroupDesc, ino: nat, inodeBits: seq<byte>, sb1: Superblock, d: GroupDesc)
      requires Valid()
      ensures g0 == ReadDesc(img, 0)
      ensures r.Err? <==> FirstClear(Engine.InodeBitmap(img, g0)).None?
      ensures r.Err? ==> r.error == BitmapExhausted
      ensures r.Ok? ==> FirstClear(Engine.InodeBitmap(img, g0)) == Some(ino - 1)
                        && inodeBits == WithBit(Engine.InodeBitmap(img, g0), ino - 1)
                        && sb1 == sb.(freeInodesCount := Dec32(sb.freeInodesCount))
                        && d == g0.(freeInodesCount := Dec16(g0.freeInodesCount))
    {
      g0 := ReadDesc(img, 0);
      var ki, igf, isf;
      ki, inodeBits, igf, isf := AllocateSlot(Engine.InodeBitmap(img, g0), g0.freeInodesCount, sb.freeInodesCount);
      if ki.Err? {
        return Err(ki.error), g0, 0, [], sb, group;
      }
      ino := ki.value + 1;
      sb1 := sb.(freeInodesCount := isf);
      d := g0.(freeInodesCount := igf);
      r := Ok(Engine.Done);
    }

    /** touch once the slot is allocated: the bitmap, the new inode, the parent's record, the counters. */
    method BuildFile(ghost st: Engine.FsState, es: seq<Entry>, name: seq<byte>, g0: GroupDesc, ino: nat,
                     inodeBits: seq<byte>, sb1: Superblock, d: GroupDesc)
      requires Valid() && st == State()
      requires Tiled(es) && |name| < 256 && NewRecordOffset(es) + EntryHeaderSize + |name| <= BlockSize
      requires 1 <= ino < 0x1_0000_0000 && |inodeBits| == BlockSize && Engine.Geometry(sb1) && DescFits(d)
      modifies this
      ensures Tiled(Appended(es, ino, FileTypeRegular, name))
      ensures State() == Engine.Commit(st, Engine.PlaceFile(Engine.PutBlock(st.img, g0.inodeBitmap, inodeBits), g0, ino),
                                       Appended(es, ino, FileTypeRegular, name), sb1, 0, d)
    {
      var appended := AppendEntry(es, ino, FileTypeRegular, name);
      img := Engine.PutBlock(img, g0.inodeBitmap, inodeBits);
      PlaceFile(g0, ino);
      Commit(st, appended.value, sb1, 0, d);
    }

    /** set_inode_bitmap and set_block_bitmap: the group's two bitmap blocks written back. */
    method MarkBitmaps(g0: GroupDesc, inodeBits: seq<byte>, blockBits: seq<byte>)
      requires |inodeBits| == BlockSize && |blockBits| == BlockSize
      modifies this
      ensures img == Engine.MarkBitmaps(old(img), g0, inodeBits, blockBits)
      ensures sb == old(sb) && groupIndex == old(groupIndex) && group == old(group) && cwd == old(cwd) && at == old(at)
    {
      img := Engine.PutBlock(img, g0.inodeBitmap, inodeBits);
      img := Engine.PutBlock(img, g0.blockBitmap, blockBits);
    }

    /** mkdir's new directory: its block of "." and "..", then its inode. */
    method PlaceDirectory(g0: GroupDesc, ino: nat, blk: nat, parent: nat)
      requires 1 <= ino < 0x1_0000_0000 && 1 <= blk < 0x1_0000_0000 && 1 <= parent < 0x1_0000_0000
      modifies this
      ensures img == Engine.PlaceDirectory(old(img), g0, ino, blk, parent)
      ensures sb == old(sb) && groupIndex == old(groupIndex) && group == old(group) && cwd == old(cwd) && at == old(at)
    {
      img := Engine.PutBlock(img, blk, Encode(FreshDirBlock(ino, parent)));
      img := WriteInode(img, g0, ino, Engine.NewDirInode(blk));
    }

    /** write_inode for the new file. */
    method PlaceFile(g0: GroupDesc, ino: nat)
      requires 1 <= ino < 0x1_0000_0000
      modifies this
      ensures img == Engine.PlaceFile(old(img), g0, ino)
      ensures sb == old(sb) && groupIndex == old(groupIndex) && group == old(group) && cwd == old(cwd) && at == old(at)
    {
      img := WriteInode(img, g0, ino, Engine.NewFileInode());
    }

    /** The last writes of mkdir and touch: the current directory's block, then rewriteSuperAndGroup. */
    method Commit(ghost st: Engine.FsState, es: seq<Entry>, sb1: Superblock, g: nat, d: GroupDesc)
      requires Valid() && Engine.ValidState(st) && Tiled(es) && DescFits(d) && Engine.Geometry(sb1)
      requires st.cwd == cwd && st.at == at && st.groupIndex == groupIndex && st.group == group
      modifies this
      ensures State() == Engine.Commit(st, old(img), es, sb1, g, d)
      ensures Valid()
    {
      img := Engine.PutBlock(img, cwd.block[0], Encode(es));
      img := Engine.Persist(img, sb1, g, d);
      sb := sb1;
      if groupIndex == g {
        group := d;
      }
    }

    /** unset_block_bitmap for block `b`, in the bitmap of the block's own group. */
    method ClearBlock(b: nat)
      requires Valid()
      modifies this
      ensures Valid() && State() == old(State()).(img := Engine.ClearBlockBit(old(img), sb.blocksPerGroup, b))
    {
      if b != 0 {
        var bpg := sb.blocksPerGroup;
        var d := ReadDesc(img, GroupOfBlock(b, bpg));
        var bits := ClearSlot(Engine.BlockBitmap(img, d), (b - 1) % bpg);
        img := Engine.PutBlock(img, d.blockBitmap, bits);
      }
    }

    /** unset_inode_bitmap and the counters it bumps, then rewriteSuperAndGroup for the inode's group. */
    method ReleaseInode(n: nat)
      requires Valid() && n >= 1
      modifies this
      ensures State() == Engine.ReleaseInode(old(State()), n)
      ensures Valid()
    {
      var ipg := sb.inodesPerGroup;
      var gi := GroupOfInode(n, ipg);
      var d := ReadDesc(img, gi);
      var bits, gf, sf := ReleaseSlot(Engine.InodeBitmap(img, d), d.freeInodesCount, sb.freeInodesCount, (n - 1) % ipg);
      img := Engine.Persist(Engine.PutBlock(img, d.inodeBitmap, bits), sb.(freeInodesCount := sf), gi, d.(freeInodesCount := gf));
      sb := sb.(freeInodesCount := sf);
      if groupIndex == gi {
        group := d.(freeInodesCount := gf);
      }
    }

    /** removeEntry, then the inode released. */
    method Unlink(es: seq<Entry>, name: seq<byte>, n: nat)
      requires Valid() && Tiled(es) && Kept(es, name) != [] && n >= 1
      modifies this
      ensures Valid() && State() == Engine.Unlink(old(State()), es, name, n)
    {
      RemovedTiles(es, name);
      var kept := RemoveEntry(es, name);
      img := Engine.PutBlock(img, cwd.block[0], Encode(kept));
      ReleaseInode(n);
    }

    /** unset_block_bitmap for each block in turn, in the order rm visits them. */
    method ClearBlocks(freed: seq<nat>)
      requires Valid()
      modifies this
      ensures Valid() && State() == old(State()).(img := Engine.ClearBlocks(old(img), sb.blocksPerGroup, freed))
    {
      ghost var st := State();
      var k := 0;
      while k < |freed|
        invariant 0 <= k <= |freed| && Valid()
        invariant State() == st.(img := Engine.ClearBlocks(st.img, st.sb.blocksPerGroup, freed[..k]))
      {
        assert freed[..k + 1][..k] == freed[..k];
        ClearBlock(freed[k]);
        k := k + 1;
      }
      assert freed[..k] == freed;
    }

    /** funct_rm: the blocks are collected as rm visits them and cleared one by one. */
    method Rm(name: seq<byte>) returns (r: Result<Engine.Output>)
      requires Valid()
      modifies this
      ensures Follows(r, old(State()), State(), Engine.RemoveFile(old(State()), name))
      ensures Valid()
    {
      var recs := Engine.Records(State());
      if recs.Err? {
        return Err(recs.error);
      }
      var es := recs.value;
      var found := Lookup(es, name);
      if found.None? {
        return Err(NotFound);
      }
      var n := es[found.value].inode;
      var ino := Engine.LoadInode(img, sb.inodesPerGroup, n);
      if IsDir(ino.mode) {
        return Err(IsADirectory);
      }
      if Kept(es, name) == [] {
        return Err(CorruptDirectory);
      }
      var freed := FreedBlocks(img, ino.block, ino.size);
      ClearBlocks(freed);
      Unlink(es, name, n);
      r := Ok(Engine.Done);
    }

    /** funct_rmdir. */
    method Rmdir(name: seq<byte>) returns (r: Result<Engine.Output>)
      requires Valid()
      modifies this
      ensures Follows(r, old(State()), State(), Engine.RemoveDir(old(State()), name))
      ensures Valid()
    {
      var recs := Engine.Records(State());
      if recs.Err? {
        return Err(recs.error);
      }
      var es := recs.value;
      var found := Lookup(es, name);
      if found.None? {
        return Err(NotFound);
      }
      var n := es[found.value].inode;
      var ino := Engine.LoadInode(img, sb.inodesPerGroup, n);
      if !IsDir(ino.mode) {
        return Err(NotADirectory);
      }
      var children := Engine.Listing(img, ino);
      if children.Err? {
        return Err(children.error);
      }
      if ChildCount(true, children.value) != 0 {
        return Err(DirectoryNotEmpty);
      }
      if Kept(es, name) == [] {
        return Err(CorruptDirectory);
      }
      ClearBlock(ino.block[0]);
      Unlink(es, name, n);
      r := Ok(Engine.Done);
    }

    /** funct_rename. */
    method Rename(from: seq<byte>, to: seq<byte>) returns (r: Result<Engine.Output>)
      requires Valid()
      modifies this
      ensures Follows(r, old(State()), State(), Engine.RenameEntry(old(State()), from, to))
      ensures Valid()
    {
      var recs := Engine.Records(State());
      if recs.Err? {
        return Err(recs.error);
      }
      var renamed := DirEdits.Rename(recs.value, from, to);
      if renamed.Err? {
        return Err(renamed.error);
      }
      img := Engine.PutBlock(img, cwd.block[0], Encode(renamed.value));
      r := Ok(Engine.Done);
    }

    /** funct_ls: the records of the current directory's block. */
    method Ls() returns (r: Result<seq<Entry>>)
      requires Valid()
      ensures r == Engine.Listing(img, cwd)
    {
      r := Engine.Listing(img, cwd);
    }

    /** funct_cat: the file's bytes, read block by block. */
    method Cat(name: seq<byte>) returns (r: Result<seq<byte>>)
      requires Valid()
      ensures r == Engine.Cat(State(), name)
    {
      var target := Engine.Resolve(State(), name);
      if target.Err? {
        return Err(target.error);
      }
      var ino := target.value.1;
      if IsDir(ino.mode) {
        return Err(IsADirectory);
      }
      var bytes := ReadContent(img, ino.block, ino.size);
      r := Ok(bytes);
    }

    /** funct_cp: the bytes to be written to the host file, whatever the type. */
    method Cp(name: seq<byte>) returns (r: Result<seq<byte>>)
      requires Valid()
      ensures r == Engine.Copy(State(), name)
    {
      var target := Engine.Resolve(State(), name);
      if target.Err? {
        return Err(target.error);
      }
      var ino := target.value.1;
      var bytes := ReadContent(img, ino.block, ino.size);
      r := Ok(bytes);
    }

    /** executarComando: the words split from one line, dispatched. */
    method Execute(words: seq<seq<byte>>) returns (r: Result<Engine.Output>)
      requires Valid() && |words| >= 1
      modifies this
      ensures Valid()
      ensures Commands.Parse(words).Err? ==> r == Err(Commands.Parse(words).error) && State() == old(State())
      ensures Commands.Parse(words).Ok? ==> Agrees(r, old(State()), State(), Engine.Run(old(State()), Commands.Parse(words).value))
    {
      var c := Commands.Parse(words);
      if c.Err? {
        return Err(c.error);
      }
      if Engine.Changes(c.value) {
        r := Apply(c.value);
      } else {
        r := Query(c.value);
      }
    }

    /** The commands that only read the image: what each prints, the state untouched. */
    method Query(c: Commands.Command) returns (r: Result<Engine.Output>)
      requires Valid() && !Engine.Changes(c)
      ensures r == Engine.Report(State(), c)
    {
      match c {
        case Info => r := Ok(Engine.Summary(sb));
        case Ls =>
          var es := Ls();
          r := if es.Err? then Err(es.error) else Ok(Engine.Listed(es.value));
        case Pwd => r := Ok(Engine.Text(Navigation.Pwd(at.path)));
        case Cat(n) =>
          var bytes := Cat(n);
          r := if bytes.Err? then Err(bytes.error) else Ok(Engine.Text(bytes.value));
        case Attr(n) =>
          var view := Engine.Attr(State(), n);
          r := if view.Err? then Err(view.error) else Ok(Engine.Attributes(view.value));
        case Cp(n, target) =>
          var bytes := Cp(n);
          r := if bytes.Err? then Err(bytes.error) else Ok(Engine.HostFile(target, bytes.value));
      }
    }

    /** The commands that change the image or the position, each following its transaction. */
    method Apply(c: Commands.Command) returns (r: Result<Engine.Output>)
      requires Valid() && Engine.Changes(c)
      modifies this
      ensures Valid()
      ensures Follows(r, old(State()), State(), Engine.Transaction(old(State()), c))
    {
      ghost var st := State();
      match c {
        case Cd(n) =>
          assert Engine.Transaction(st, c) == Engine.ChangeDir(st, n);
          r := Cd(n);
        case Mkdir(n) =>
          assert Engine.Transaction(st, c) == Engine.MakeDir(st, n);
          r := Mkdir(n);
        case Touch(n) =>
          assert Engine.Transaction(st, c) == Engine.Touch(st, n);
          r := Touch(n);
        case Rm(n) =>
          assert Engine.Transaction(st, c) == Engine.RemoveFile(st, n);
          r := Rm(n);
        case Rmdir(n) =>
          assert Engine.Transaction(st, c) == Engine.RemoveDir(st, n);
          r := Rmdir(n);
        case Rename(a, b) =>
          assert Engine.Transaction(st, c) == Engine.RenameEntry(st, a, b);
          r := Rename(a, b);
      }
    }
  }
}
