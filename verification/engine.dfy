/**
 * The shell's commands as transactions on its state: the image, the cached
 * superblock, the current block group and its cached descriptor, the current
 * directory's inode and the position cd and pwd keep. A mutating command
 * makes every check that can refuse it before its first write, so a refused
 * command leaves the state as it was; the writes then follow the order the
 * shell issues them in.
 */
module Engine {
  import opened Bytes
  import opened Errors
  import opened Layout
  import opened OnDisk
  import opened Bitmaps
  import opened Directories
  import opened DirEdits
  import opened Indirection
  import opened Navigation
  import opened Attributes
  import Commands

  /** Mode of a new directory (040755) and of a new regular file (0100644). */
  const DirMode: nat := 16877
  const FileMode: nat := 33188

  datatype FsState = FsState(img: seq<byte>, sb: Superblock, groupIndex: nat, group: GroupDesc, cwd: Inode, at: Position)

  /** What attr prints besides the modification time. */
  datatype AttrView = AttrView(perms: string, uid: nat, gid: nat, size: nat)

  /** What a command hands back to be printed, or, for cp, written to a file of the host. */
  datatype Output =
    | Done
    | Summary(sb: Superblock)
    | Listed(es: seq<Entry>)
    | Text(bytes: seq<byte>)
    | Attributes(view: AttrView)
    | HostFile(path: seq<byte>, bytes: seq<byte>)

  /** The geometry the engine handles: a group's bitmaps fit in one 1 KiB block. */
  predicate Geometry(sb: Superblock)
  {
    0 < sb.inodesPerGroup <= 8 * BlockSize && 0 < sb.blocksPerGroup <= 8 * BlockSize
    && sb.freeBlocksCount < 0x1_0000_0000 && sb.freeInodesCount < 0x1_0000_0000
  }

  predicate ValidState(st: FsState)
  {
    Geometry(st.sb) && DescFits(st.group) && InodeFits(st.cwd) && 1 <= st.at.inode < 0x1_0000_0000
  }

  /** Inode `n` read from the table of its own group, at its in-group index. */
  function LoadInode(img: seq<byte>, ipg: nat, n: nat): Inode
    requires n >= 1 && ipg > 0
  {
    ReadInode(img, ReadDesc(img, GroupOfInode(n, ipg)), InGroupIndex(n, ipg))
  }

  /** The caches agree with the image: the cached descriptor is the current group's, and the current inode is the one the position names. */
  predicate Coherent(st: FsState)
    requires ValidState(st)
  {
    st.group == ReadDesc(st.img, st.groupIndex)
    && st.groupIndex == GroupOfInode(st.at.inode, st.sb.inodesPerGroup)
    && st.cwd == LoadInode(st.img, st.sb.inodesPerGroup, st.at.inode)
  }

  /**
   * init_super: the superblock at byte 1024 must carry the EXT2 magic; the
   * shell then starts in group 0 at the root directory, inode 2, with an empty
   * path.
   */
  function Open(img: seq<byte>): (r: Result<FsState>)
    ensures r.Err? <==> ReadSuper(img).magic != Ext2SuperMagic || !Geometry(ReadSuper(img))
    ensures r.Err? ==> r.error == NotAnExt2Image
    ensures r.Ok? ==> ValidState(r.value) && r.value.img == img && r.value.sb == ReadSuper(img)
                      && r.value.at == Position(2, [])
    ensures r.Ok? && r.value.sb.inodesPerGroup >= 2 ==> Coherent(r.value)
  {
    match Mount(img)
    case Err(e) => Err(e)
    case Ok(sb) =>
      if !Geometry(sb) then Err(NotAnExt2Image)
      else
        var g := ReadDesc(img, 0);
        var st := FsState(img, sb, 0, g, ReadInode(img, g, 2), Position(2, []));
        if sb.inodesPerGroup >= 2 then FirstGroupInodes(2, sb.inodesPerGroup); Ok(st) else Ok(st)
  }

  /** trocaGrupo: move to the group of inode `n`, reading its descriptor only when the group changes. */
  function SwitchGroup(st: FsState, n: nat): FsState
    requires ValidState(st) && n >= 1
  {
    var g := GroupOfInode(n, st.sb.inodesPerGroup);
    if g != st.groupIndex then st.(groupIndex := g, group := ReadDesc(st.img, g)) else st
  }

  /** With a coherent descriptor cache, the switch ends on the descriptor the image holds for the inode's group, and touches nothing else. */
  lemma SwitchGroupCoherent(st: FsState, n: nat)
    requires ValidState(st) && n >= 1 && st.group == ReadDesc(st.img, st.groupIndex)
    ensures var s := SwitchGroup(st, n);
            s.groupIndex == GroupOfInode(n, st.sb.inodesPerGroup) && s.group == ReadDesc(st.img, s.groupIndex)
            && s.img == st.img && s.sb == st.sb && s.cwd == st.cwd && s.at == st.at
  {
  }

  // ---- The current directory ----

  /** The records of a directory's first block. */
  function Listing(img: seq<byte>, dir: Inode): (r: Result<seq<Entry>>)
    requires InodeFits(dir)
    ensures r.Ok? ==> AllWellFormed(r.value)
  {
    ParseFromWellFormed(Slice(img, BlockOffset(dir.block[0]), BlockSize), 0);
    Parse(Slice(img, BlockOffset(dir.block[0]), BlockSize))
  }

  /** The current directory's records, when they tile its block: what the editing commands work on. */
  function Records(st: FsState): (r: Result<seq<Entry>>)
    requires InodeFits(st.cwd)
    ensures r.Ok? <==> Listing(st.img, st.cwd).Ok? && Tiled(Listing(st.img, st.cwd).value)
    ensures r.Ok? ==> r == Listing(st.img, st.cwd)
    ensures r.Err? ==> r.error == CorruptDirectory
  {
    match Listing(st.img, st.cwd)
    case Err(e) => Err(e)
    case Ok(es) => if Tiled(es) then Ok(es) else Err(CorruptDirectory)
  }

  /**
   * getArquivoPorNome: the number and inode of the first record named `name`
   * in the current directory, the inode read from its own group.
   */
  function Resolve(st: FsState, name: seq<byte>): (r: Result<(nat, Inode)>)
    requires ValidState(st)
    ensures r.Err? ==> r.error in {CorruptDirectory, NotFound}
    ensures r.Err? && Listing(st.img, st.cwd).Ok? ==> r.error == NotFound && Lookup(Listing(st.img, st.cwd).value, name).None?
    ensures r.Ok? ==> Listing(st.img, st.cwd).Ok? && Lookup(Listing(st.img, st.cwd).value, name).Some?
    ensures r.Ok? ==> var es := Listing(st.img, st.cwd).value;
                      var e := es[Lookup(es, name).value];
                      r.value.0 == e.inode && r.value.1 == LoadInode(st.img, st.sb.inodesPerGroup, e.inode)
                      && InodeFits(r.value.1)
  {
    match Listing(st.img, st.cwd)
    case Err(e) => Err(e)
    case Ok(es) =>
      match Lookup(es, name)
      case None => Err(NotFound)
      case Some(i) => Ok((es[i].inode, LoadInode(st.img, st.sb.inodesPerGroup, es[i].inode)))
  }

  // ---- Commands that only read ----

  /** funct_cat: the bytes of a file, as far as its pointers reach; a directory is refused. */
  function Cat(st: FsState, name: seq<byte>): (r: Result<seq<byte>>)
    requires ValidState(st)
    ensures r.Ok? <==> Resolve(st, name).Ok? && !IsDir(Resolve(st, name).value.1.mode)
    ensures Resolve(st, name).Ok? && IsDir(Resolve(st, name).value.1.mode) ==> r == Err(IsADirectory)
    ensures r.Ok? ==> var ino := Resolve(st, name).value.1;
                      |r.value| == if ino.size < ReachableBlocks * BlockSize then ino.size else ReachableBlocks * BlockSize
  {
    match Resolve(st, name)
    case Err(e) => Err(e)
    case Ok((_, ino)) =>
      if IsDir(ino.mode) then Err(IsADirectory) else Ok(Content(st.img, ino.block, ino.size))
  }

  /** funct_cp: the bytes copied out to a host file; unlike cat it does not look at the type, so a directory's blocks are copied too. */
  function Copy(st: FsState, name: seq<byte>): (r: Result<seq<byte>>)
    requires ValidState(st)
    ensures r.Ok? <==> Resolve(st, name).Ok?
    ensures Cat(st, name).Ok? ==> r == Cat(st, name)
    ensures r.Err? ==> r.error == Resolve(st, name).error
  {
    match Resolve(st, name)
    case Err(e) => Err(e)
    case Ok((_, ino)) => Ok(Content(st.img, ino.block, ino.size))
  }

  /**
   * The shell state cat and cp leave behind as written: getArquivoPorNome
   * runs trocaGrupo on the shell's group number but on a local copy of the
   * descriptor, so the number moves to the named inode's group while the
   * cached descriptor stays the old group's. A record of any type moves it,
   * a directory cat refuses included.
   */
  function ResolveGroupAsWritten(st: FsState, name: seq<byte>): (r: FsState)
    requires ValidState(st)
    ensures ValidState(r) && r == st.(groupIndex := r.groupIndex)
    ensures Resolve(st, name).Ok? ==> r.groupIndex == GroupOfInode(Resolve(st, name).value.0, st.sb.inodesPerGroup)
    ensures Resolve(st, name).Err? ==> r == st
  {
    match Resolve(st, name)
    case Err(_) => st
    case Ok((n, _)) => st.(groupIndex := GroupOfInode(n, st.sb.inodesPerGroup))
  }

  /**
   * cat of a file of another group, then cd into a directory of that same
   * group, as written: trocaGrupo sees no change of group and keeps the stale
   * descriptor, so the directory's inode is read from the table of the group
   * the shell stood in before cat, where ChangeDir reads it from its own.
   */
  lemma CatThenCdReadsStaleTable(st: FsState, f: seq<byte>, d: seq<byte>)
    requires ValidState(st) && Coherent(st) && Resolve(st, f).Ok? && ChangeDir(st, d).Ok?
    requires GroupOfInode(Resolve(st, f).value.0, st.sb.inodesPerGroup) != st.groupIndex
    requires GroupOfInode(ChangeDir(st, d).value.at.inode, st.sb.inodesPerGroup)
             == GroupOfInode(Resolve(st, f).value.0, st.sb.inodesPerGroup)
    ensures var ipg := st.sb.inodesPerGroup; var m := ChangeDir(st, d).value.at.inode;
            var stale := ChangeDir(ResolveGroupAsWritten(st, f), d);
            stale.Ok? && stale.value.at == ChangeDir(st, d).value.at
            && stale.value.group == ReadDesc(st.img, st.groupIndex)
            && stale.value.groupIndex == GroupOfInode(m, ipg)
            && stale.value.cwd == ReadInode(st.img, ReadDesc(st.img, st.groupIndex), InGroupIndex(m, ipg))
            && ChangeDir(st, d).value.cwd == LoadInode(st.img, ipg, m)
  {
    var es := Listing(st.img, st.cwd).value;
    var pos := Navigation.Cd(es, st.at, d).value;
    SwitchGroupCoherent(st, pos.inode);
  }

  /** funct_attr: the permission string, owner, group and size of the record named `name`. */
  function Attr(st: FsState, name: seq<byte>): (r: Result<AttrView>)
    requires ValidState(st)
    ensures r.Ok? <==> Resolve(st, name).Ok?
    ensures r.Ok? ==> var ino := Resolve(st, name).value.1;
                      |r.value.perms| == 10 && r.value.perms[0] == (if IsDir(ino.mode) then 'd' else 'f')
                      && (forall i :: 1 <= i < 10 ==>
                            r.value.perms[i] == (if BitSet(ino.mode, 9 - i) then "rwxrwxrwx"[i - 1] else '-'))
                      && r.value.uid == ino.uid && r.value.gid == ino.gid && r.value.size == ino.size
  {
    match Resolve(st, name)
    case Err(e) => Err(e)
    case Ok((_, ino)) => Ok(AttrView(PermString(ino.mode), ino.uid, ino.gid, ino.size))
  }

  /**
   * funct_cd: the first record named `name` decides (see Navigation.Cd); on a
   * directory the shell switches to its group and reads its inode there.
   */
  function ChangeDir(st: FsState, name: seq<byte>): (r: Result<FsState>)
    requires ValidState(st)
    ensures r.Err? ==> r.error in {CorruptDirectory, NotFound, NotADirectory}
    ensures r.Ok? <==> Listing(st.img, st.cwd).Ok? && Navigation.Cd(Listing(st.img, st.cwd).value, st.at, name).Ok?
    ensures r.Ok? ==> ValidState(r.value) && r.value.img == st.img && r.value.sb == st.sb
                      && r.value.at == Navigation.Cd(Listing(st.img, st.cwd).value, st.at, name).value
  {
    match Listing(st.img, st.cwd)
    case Err(e) => Err(e)
    case Ok(es) =>
      match Navigation.Cd(es, st.at, name)
      case Err(e) => Err(e)
      case Ok(pos) =>
        var s := SwitchGroup(st, pos.inode);
        Ok(s.(cwd := ReadInode(s.img, s.group, InGroupIndex(pos.inode, st.sb.inodesPerGroup)), at := pos))
  }

  /** cd keeps the caches coherent: afterwards the current inode is the one the new position names, read from its own group. */
  lemma ChangeDirCoherent(st: FsState, name: seq<byte>)
    requires ValidState(st) && Coherent(st) && ChangeDir(st, name).Ok?
    ensures Coherent(ChangeDir(st, name).value)
  {
    var es := Listing(st.img, st.cwd).value;
    var pos := Navigation.Cd(es, st.at, name).value;
    SwitchGroupCoherent(st, pos.inode);
  }

  // ---- Writing the image ----

  function InodeBitmap(img: seq<byte>, d: GroupDesc): (r: seq<byte>)
    ensures |r| == BlockSize
  {
    Slice(img, BlockOffset(d.inodeBitmap), BlockSize)
  }

  function BlockBitmap(img: seq<byte>, d: GroupDesc): (r: seq<byte>)
    ensures |r| == BlockSize
  {
    Slice(img, BlockOffset(d.blockBitmap), BlockSize)
  }

  /** The image with block `b` replaced by `data`. */
  function PutBlock(img: seq<byte>, b: nat, data: seq<byte>): (r: seq<byte>)
    requires |data| == BlockSize
    ensures |r| == |img|
  {
    WriteAt(img, BlockOffset(b), data)
  }

  /** rewriteSuperAndGroup: descriptor `d` into the slot of group `g`, then the superblock's free counters. */
  function Persist(img: seq<byte>, sb: Superblock, g: nat, d: GroupDesc): (r: seq<byte>)
    requires DescFits(d) && sb.freeBlocksCount < 0x1_0000_0000 && sb.freeInodesCount < 0x1_0000_0000
    ensures |r| == |img|
  {
    var img1 := WriteDesc(img, g, d);
    WriteAt(img1, BaseOffset, PutSuperCounters(Slice(img1, BaseOffset, SuperRecordSize), sb.freeBlocksCount, sb.freeInodesCount))
  }

  /** What was persisted is what a later mount or group switch reads: the descriptor in its slot, the counters in the superblock. */
  lemma PersistReadsBack(img: seq<byte>, sb: Superblock, g: nat, d: GroupDesc)
    requires DescFits(d) && sb.freeBlocksCount < 0x1_0000_0000 && sb.freeInodesCount < 0x1_0000_0000
    requires DescriptorOffset(g) + GroupDescSize <= |img|
    ensures ReadDesc(Persist(img, sb, g, d), g) == d
    ensures ReadSuper(Persist(img, sb, g, d))
            == ReadSuper(img).(freeBlocksCount := sb.freeBlocksCount, freeInodesCount := sb.freeInodesCount)
  {
    var img1 := WriteDesc(img, g, d);
    var rec := Slice(img1, BaseOffset, SuperRecordSize);
    var rec' := PutSuperCounters(rec, sb.freeBlocksCount, sb.freeInodesCount);
    PutSuperCountersDecodes(rec, sb.freeBlocksCount, sb.freeInodesCount);
    ReadDescAfterWrite(img, g, d);
    SliceAwayFromWrite(img1, BaseOffset, rec', DescriptorOffset(g), GroupDescSize);
    var enc := EncodeDesc(Slice(img, DescriptorOffset(g), GroupDescSize), d);
    SliceAwayFromWrite(img, DescriptorOffset(g), enc, BaseOffset, SuperRecordSize);
    SliceOfWrite(img1, BaseOffset, rec');
  }

  /** Persisting leaves every block from block 3 on as it was. */
  lemma PersistFrame(img: seq<byte>, sb: Superblock, g: nat, d: GroupDesc, c: nat)
    requires DescFits(d) && sb.freeBlocksCount < 0x1_0000_0000 && sb.freeInodesCount < 0x1_0000_0000
    requires g < 32 && c >= 3
    ensures Slice(Persist(img, sb, g, d), BlockOffset(c), BlockSize) == Slice(img, BlockOffset(c), BlockSize)
  {
    var img1 := WriteDesc(img, g, d);
    var rec' := PutSuperCounters(Slice(img1, BaseOffset, SuperRecordSize), sb.freeBlocksCount, sb.freeInodesCount);
    var enc := EncodeDesc(Slice(img, DescriptorOffset(g), GroupDescSize), d);
    SliceAwayFromWrite(img1, BaseOffset, rec', BlockOffset(c), BlockSize);
    SliceAwayFromWrite(img, DescriptorOffset(g), enc, BlockOffset(c), BlockSize);
  }

  // ---- mkdir and touch ----

  /** The inode mkdir writes: a directory of one block, two links. */
  function NewDirInode(blk: nat): (r: Inode)
    requires blk < 0x1_0000_0000
    ensures InodeFits(r) && IsDir(r.mode) && r.block[0] == blk && r.size == BlockSize && r.linksCount == 2
  {
    Inode(DirMode, 0, BlockSize, 0, 2, 2, [blk] + seq(14, i => 0))
  }

  /** The inode touch writes: an empty regular file with no blocks and one link. */
  function NewFileInode(): (r: Inode)
    ensures InodeFits(r) && !IsDir(r.mode) && r.size == 0 && r.linksCount == 1
    ensures forall i :: 0 <= i < |r.block| ==> r.block[i] == 0
  {
    Inode(FileMode, 0, 0, 0, 1, 0, seq(15, i => 0))
  }

  /** The checks mkdir and touch make before the first write: readable records, a new name, room for its record. */
  function Admit(st: FsState, name: seq<byte>): (r: Result<seq<Entry>>)
    requires InodeFits(st.cwd)
    ensures r.Ok? ==> Records(st) == r && Lookup(r.value, name).None? && |name| < 256
                      && NewRecordOffset(r.value) + EntryHeaderSize + |name| <= BlockSize
    ensures Records(st).Ok? && Lookup(Records(st).value, name).Some? ==> r == Err(AlreadyExists)
    ensures Records(st).Err? ==> r == Err(CorruptDirectory)
  {
    match Records(st)
    case Err(e) => Err(e)
    case Ok(es) =>
      if Lookup(es, name).Some? then Err(AlreadyExists)
      else if |name| >= 256 then Err(NameTooLong)
      else if NewRecordOffset(es) + EntryHeaderSize + |name| > BlockSize then Err(DirectoryFull)
      else Ok(es)
  }

  /**
   * funct_mkdir: allocate an inode and a block from group 0's bitmaps, write
   * the new block's "." and "..", the new inode, and the parent's records with
   * the new one appended; then take one inode and one block off the free
   * counters of group 0 and of the superblock.
   */
  function MakeDir(st: FsState, name: seq<byte>): (r: Result<FsState>)
    requires ValidState(st)
    ensures r.Err? <==> Admit(st, name).Err? || FirstClear(InodeBitmap(st.img, ReadDesc(st.img, 0))).None?
                        || FirstClear(BlockBitmap(st.img, ReadDesc(st.img, 0))).None?
    ensures r.Err? ==> r.error == if Admit(st, name).Err? then Admit(st, name).error else BitmapExhausted
    ensures r.Ok? ==> ValidState(r.value) && r.value.cwd == st.cwd && r.value.at == st.at
                      && r.value.groupIndex == st.groupIndex
                      && r.value.sb == st.sb.(freeBlocksCount := Dec32(st.sb.freeBlocksCount),
                                              freeInodesCount := Dec32(st.sb.freeInodesCount))
  {
    match Admit(st, name)
    case Err(e) => Err(e)
    case Ok(es) =>
      var g0 := ReadDesc(st.img, 0);
      match FirstClear(InodeBitmap(st.img, g0))
      case None => Err(BitmapExhausted)
      case Some(ki) =>
        match FirstClear(BlockBitmap(st.img, g0))
        case None => Err(BitmapExhausted)
        case Some(kb) => Ok(MakeDirWrites(st, es, name, g0, ki, kb))
  }

  /** The writes of mkdir once slot `ki` of the inode bitmap and slot `kb` of the block bitmap are chosen. */
  function MakeDirWrites(st: FsState, es: seq<Entry>, name: seq<byte>, g0: GroupDesc, ki: nat, kb: nat): (r: FsState)
    requires ValidState(st) && Tiled(es) && |name| < 256 && NewRecordOffset(es) + EntryHeaderSize + |name| <= BlockSize
    requires DescFits(g0) && ki < 8 * BlockSize && kb < 8 * BlockSize
    ensures ValidState(r)
  {
    AppendedTiles(es, ki + 1, FileTypeDirectory, name);
    var g1 := g0.(freeBlocksCount := Dec16(g0.freeBlocksCount), freeInodesCount := Dec16(g0.freeInodesCount));
    var sb1 := st.sb.(freeBlocksCount := Dec32(st.sb.freeBlocksCount), freeInodesCount := Dec32(st.sb.freeInodesCount));
    Commit(st, MakeDirImage(st, g0, ki, kb), Appended(es, ki + 1, FileTypeDirectory, name), sb1, 0, g1)
  }

  /** MakeDirWrites spelled out as the Commit it ends with. */
  lemma MakeDirWritesCommits(st: FsState, es: seq<Entry>, name: seq<byte>, g0: GroupDesc, ki: nat, kb: nat)
    requires ValidState(st) && Tiled(es) && |name| < 256 && NewRecordOffset(es) + EntryHeaderSize + |name| <= BlockSize
    requires DescFits(g0) && ki < 8 * BlockSize && kb < 8 * BlockSize
    ensures Tiled(Appended(es, ki + 1, FileTypeDirectory, name))
    ensures MakeDirWrites(st, es, name, g0, ki, kb)
            == Commit(st, MakeDirImage(st, g0, ki, kb), Appended(es, ki + 1, FileTypeDirectory, name),
                      st.sb.(freeBlocksCount := Dec32(st.sb.freeBlocksCount), freeInodesCount := Dec32(st.sb.freeInodesCount)), 0,
                      g0.(freeBlocksCount := Dec16(g0.freeBlocksCount), freeInodesCount := Dec16(g0.freeInodesCount)))
  {
    AppendedTiles(es, ki + 1, FileTypeDirectory, name);
  }

  /**
   * MakeDir once its checks pass and both slots are found: the bitmap blocks
   * with the two bits set, the new directory's inode and block numbers, and
   * the counters each one less, make up its transaction.
   */
  lemma MakeDirPlanned(st: FsState, name: seq<byte>, es: seq<Entry>, g0: GroupDesc, ino: nat, blk: nat,
                       inodeBits: seq<byte>, blockBits: seq<byte>, sb1: Superblock, d: GroupDesc)
    requires ValidState(st) && Admit(st, name) == Ok(es) && g0 == ReadDesc(st.img, 0)
    requires FirstClear(InodeBitmap(st.img, g0)) == Some(ino - 1) && FirstClear(BlockBitmap(st.img, g0)) == Some(blk - 1)
    requires inodeBits == WithBit(InodeBitmap(st.img, g0), ino - 1) && blockBits == WithBit(BlockBitmap(st.img, g0), blk - 1)
    requires sb1 == st.sb.(freeBlocksCount := Dec32(st.sb.freeBlocksCount), freeInodesCount := Dec32(st.sb.freeInodesCount))
    requires d == g0.(freeBlocksCount := Dec16(g0.freeBlocksCount), freeInodesCount := Dec16(g0.freeInodesCount))
    ensures Tiled(es) && |name| < 256 && NewRecordOffset(es) + EntryHeaderSize + |name| <= BlockSize
    ensures 1 <= ino < 0x1_0000_0000 && 1 <= blk < 0x1_0000_0000
    ensures |inodeBits| == BlockSize && |blockBits| == BlockSize && Geometry(sb1) && DescFits(d)
    ensures Tiled(Appended(es, ino, FileTypeDirectory, name))
    ensures MakeDir(st, name)
            == Ok(Commit(st, PlaceDirectory(MarkBitmaps(st.img, g0, inodeBits, blockBits), g0, ino, blk, st.at.inode),
                         Appended(es, ino, FileTypeDirectory, name), sb1, 0, d))
  {
    var ki, kb := ino - 1, blk - 1;
    assert ki + 1 == ino && kb + 1 == blk;
    assert MakeDir(st, name) == Ok(MakeDirWrites(st, es, name, g0, ki, kb));
    MakeDirWritesCommits(st, es, name, g0, ki, kb);
    assert MakeDirImage(st, g0, ki, kb)
           == PlaceDirectory(MarkBitmaps(st.img, g0, inodeBits, blockBits), g0, ino, blk, st.at.inode);
  }

  /** MakeDir once its checks pass but either bitmap of group 0 is full. */
  lemma MakeDirExhausted(st: FsState, name: seq<byte>, es: seq<Entry>)
    requires ValidState(st) && Admit(st, name) == Ok(es)
    requires FirstClear(InodeBitmap(st.img, ReadDesc(st.img, 0))).None? || FirstClear(BlockBitmap(st.img, ReadDesc(st.img, 0))).None?
    ensures MakeDir(st, name) == Err(BitmapExhausted)
  {
  }

  /** mkdir's writes before the parent's records: both bitmap bits set, the new block's "." and "..", the new inode. */
  function MakeDirImage(st: FsState, g0: GroupDesc, ki: nat, kb: nat): (r: seq<byte>)
    requires ValidState(st) && DescFits(g0) && ki < 8 * BlockSize && kb < 8 * BlockSize
    ensures |r| == |st.img|
  {
    var marked := MarkBitmaps(st.img, g0, WithBit(InodeBitmap(st.img, g0), ki), WithBit(BlockBitmap(st.img, g0), kb));
    PlaceDirectory(marked, g0, ki + 1, kb + 1, st.at.inode)
  }

  /** The group's inode and block bitmap blocks replaced, in that order. */
  function MarkBitmaps(img: seq<byte>, g0: GroupDesc, inodeBits: seq<byte>, blockBits: seq<byte>): (r: seq<byte>)
    requires |inodeBits| == BlockSize && |blockBits| == BlockSize
    ensures |r| == |img|
  {
    PutBlock(PutBlock(img, g0.inodeBitmap, inodeBits), g0.blockBitmap, blockBits)
  }

  /** A new directory `ino` whose one data block `blk` holds "." and ".." (the parent being `parent`). */
  function PlaceDirectory(img: seq<byte>, g0: GroupDesc, ino: nat, blk: nat, parent: nat): (r: seq<byte>)
    requires 1 <= ino < 0x1_0000_0000 && 1 <= blk < 0x1_0000_0000 && 1 <= parent < 0x1_0000_0000
    ensures |r| == |img|
  {
    WriteInode(PutBlock(img, blk, Encode(FreshDirBlock(ino, parent))), g0, ino, NewDirInode(blk))
  }

  /** The last writes of mkdir and touch: the current directory's new records, then group `g`'s descriptor and the superblock counters. */
  function Commit(st: FsState, img: seq<byte>, es: seq<Entry>, sb1: Superblock, g: nat, d: GroupDesc): (r: FsState)
    requires ValidState(st) && Tiled(es) && DescFits(d) && Geometry(sb1)
    ensures ValidState(r) && r.cwd == st.cwd && r.at == st.at && r.sb == sb1 && r.groupIndex == st.groupIndex
    ensures r.group == if st.groupIndex == g then d else st.group
  {
    var img1 := PutBlock(img, st.cwd.block[0], Encode(es));
    st.(img := Persist(img1, sb1, g, d), sb := sb1, group := if st.groupIndex == g then d else st.group)
  }

  /** The records Commit writes are the records the current directory then holds. */
  lemma CommitLists(st: FsState, img: seq<byte>, es: seq<Entry>, sb1: Superblock, g: nat, d: GroupDesc)
    requires ValidState(st) && Tiled(es) && DescFits(d) && Geometry(sb1)
    requires g < 32 && 3 <= st.cwd.block[0] && BlockOffset(st.cwd.block[0]) + BlockSize <= |img|
    ensures Records(Commit(st, img, es, sb1, g, d)) == Ok(es)
  {
    var img1 := PutBlock(img, st.cwd.block[0], Encode(es));
    SliceOfWrite(img, BlockOffset(st.cwd.block[0]), Encode(es));
    PersistFrame(img1, sb1, g, d, st.cwd.block[0]);
    ParseEncode(es);
  }

  /**
   * funct_touch: allocate an inode from group 0's inode bitmap, write an empty
   * regular file there and append its record; then take one inode off the
   * free counters of group 0 and of the superblock.
   */
  function Touch(st: FsState, name: seq<byte>): (r: Result<FsState>)
    requires ValidState(st)
    ensures r.Err? <==> Admit(st, name).Err? || FirstClear(InodeBitmap(st.img, ReadDesc(st.img, 0))).None?
    ensures r.Err? ==> r.error == if Admit(st, name).Err? then Admit(st, name).error else BitmapExhausted
    ensures r.Ok? ==> ValidState(r.value) && r.value.cwd == st.cwd && r.value.at == st.at
                      && r.value.groupIndex == st.groupIndex
                      && r.value.sb == st.sb.(freeInodesCount := Dec32(st.sb.freeInodesCount))
  {
    match Admit(st, name)
    case Err(e) => Err(e)
    case Ok(es) =>
      var g0 := ReadDesc(st.img, 0);
      match FirstClear(InodeBitmap(st.img, g0))
      case None => Err(BitmapExhausted)
      case Some(ki) => Ok(TouchWrites(st, es, name, g0, ki))
  }

  /** The writes of touch once slot `ki` of the inode bitmap is chosen. */
  function TouchWrites(st: FsState, es: seq<Entry>, name: seq<byte>, g0: GroupDesc, ki: nat): (r: FsState)
    requires ValidState(st) && Tiled(es) && |name| < 256 && NewRecordOffset(es) + EntryHeaderSize + |name| <= BlockSize
    requires DescFits(g0) && ki < 8 * BlockSize
    ensures ValidState(r)
  {
    AppendedTiles(es, ki + 1, FileTypeRegular, name);
    var g1 := g0.(freeInodesCount := Dec16(g0.freeInodesCount));
    var sb1 := st.sb.(freeInodesCount := Dec32(st.sb.freeInodesCount));
    Commit(st, TouchImage(st, g0, ki), Appended(es, ki + 1, FileTypeRegular, name), sb1, 0, g1)
  }

  /** TouchWrites spelled out as the Commit it ends with, for callers that perform its steps one by one. */
  lemma TouchWritesCommits(st: FsState, es: seq<Entry>, name: seq<byte>, g0: GroupDesc, ki: nat)
    requires ValidState(st) && Tiled(es) && |name| < 256 && NewRecordOffset(es) + EntryHeaderSize + |name| <= BlockSize
    requires DescFits(g0) && ki < 8 * BlockSize
    ensures Tiled(Appended(es, ki + 1, FileTypeRegular, name))
    ensures TouchWrites(st, es, name, g0, ki)
            == Commit(st, TouchImage(st, g0, ki), Appended(es, ki + 1, FileTypeRegular, name),
                      st.sb.(freeInodesCount := Dec32(st.sb.freeInodesCount)), 0,
                      g0.(freeInodesCount := Dec16(g0.freeInodesCount)))
  {
    AppendedTiles(es, ki + 1, FileTypeRegular, name);
  }

  /** touch's writes before the parent's records: the inode bitmap bit set and the new inode. */
  function TouchImage(st: FsState, g0: GroupDesc, ki: nat): (r: seq<byte>)
    requires ValidState(st) && DescFits(g0) && ki < 8 * BlockSize
    ensures |r| == |st.img|
  {
    PlaceFile(PutBlock(st.img, g0.inodeBitmap, WithBit(InodeBitmap(st.img, g0), ki)), g0, ki + 1)
  }

  /** The new file's inode: empty, no blocks. */
  function PlaceFile(img: seq<byte>, g0: GroupDesc, ino: nat): (r: seq<byte>)
    requires 1 <= ino < 0x1_0000_0000
    ensures |r| == |img|
  {
    WriteInode(img, g0, ino, NewFileInode())
  }

  /** Touch once its check passes and the slot is found, with the inode bitmap block already updated in memory. */
  lemma TouchPlanned(st: FsState, name: seq<byte>, es: seq<Entry>, g0: GroupDesc, ino: nat,
                     inodeBits: seq<byte>, sb1: Superblock, d: GroupDesc)
    requires ValidState(st) && Admit(st, name) == Ok(es) && g0 == ReadDesc(st.img, 0)
    requires FirstClear(InodeBitmap(st.img, g0)) == Some(ino - 1)
    requires inodeBits == WithBit(InodeBitmap(st.img, g0), ino - 1)
    requires sb1 == st.sb.(freeInodesCount := Dec32(st.sb.freeInodesCount))
    requires d == g0.(freeInodesCount := Dec16(g0.freeInodesCount))
    ensures Tiled(es) && |name| < 256 && NewRecordOffset(es) + EntryHeaderSize + |name| <= BlockSize
    ensures 1 <= ino < 0x1_0000_0000 && |inodeBits| == BlockSize && Geometry(sb1) && DescFits(d)
    ensures Tiled(Appended(es, ino, FileTypeRegular, name))
    ensures Touch(st, name)
            == Ok(Commit(st, PlaceFile(PutBlock(st.img, g0.inodeBitmap, inodeBits), g0, ino),
                         Appended(es, ino, FileTypeRegular, name), sb1, 0, d))
  {
    var ki := ino - 1;
    assert ki + 1 == ino;
    assert Touch(st, name) == Ok(TouchWrites(st, es, name, g0, ki));
    TouchWritesCommits(st, es, name, g0, ki);
    assert TouchImage(st, g0, ki) == PlaceFile(PutBlock(st.img, g0.inodeBitmap, inodeBits), g0, ino);
  }

  /** Touch once its check passes but group 0's inode bitmap is full. */
  lemma TouchExhausted(st: FsState, name: seq<byte>, es: seq<Entry>)
    requires ValidState(st) && Admit(st, name) == Ok(es)
    requires FirstClear(InodeBitmap(st.img, ReadDesc(st.img, 0))).None?
    ensures Touch(st, name) == Err(BitmapExhausted)
  {
  }

  /** The number mkdir and touch give the new inode: one past the first free slot of group 0's inode bitmap. */
  function NewInodeNumber(st: FsState): nat
    requires FirstClear(InodeBitmap(st.img, ReadDesc(st.img, 0))).Some?
  {
    FirstClear(InodeBitmap(st.img, ReadDesc(st.img, 0))).value + 1
  }

  /**
   * After mkdir the current directory lists the new directory last, under its
   * name and the new inode number, the record before it shrunk.
   */
  lemma MakeDirLists(st: FsState, name: seq<byte>, after: FsState)
    requires ValidState(st) && MakeDir(st, name) == Ok(after)
    requires 3 <= st.cwd.block[0] && BlockOffset(st.cwd.block[0]) + BlockSize <= |st.img|
    ensures Records(st).Ok?
    ensures Records(after) == Ok(Appended(Records(st).value, NewInodeNumber(st), FileTypeDirectory, name))
  {
    MakeDirUnfolds(st, name);
    var es, g0 := Records(st).value, ReadDesc(st.img, 0);
    var ki, kb := NewInodeNumber(st) - 1, FirstClear(BlockBitmap(st.img, g0)).value;
    assert ki + 1 == NewInodeNumber(st);
    assert after == MakeDirWrites(st, es, name, g0, ki, kb);
    MakeDirWritesLists(st, es, name, g0, ki, kb);
  }

  /** After mkdir the new name is found in the current directory, as its last record. */
  lemma MakeDirFinds(st: FsState, name: seq<byte>, after: FsState)
    requires ValidState(st) && MakeDir(st, name) == Ok(after)
    requires 3 <= st.cwd.block[0] && BlockOffset(st.cwd.block[0]) + BlockSize <= |st.img|
    ensures Records(st).Ok? && Records(after).Ok?
    ensures Lookup(Records(after).value, name) == Some(|Records(st).value|)
  {
    MakeDirLists(st, name, after);
    assert Admit(st, name) == Records(st);
    AppendedLookup(Records(st).value, NewInodeNumber(st), FileTypeDirectory, name);
  }

  /** A mkdir that succeeds is its writes on the current records and the first free slots of both bitmaps. */
  lemma MakeDirUnfolds(st: FsState, name: seq<byte>)
    requires ValidState(st) && MakeDir(st, name).Ok?
    ensures Admit(st, name).Ok? && Admit(st, name) == Records(st)
    ensures FirstClear(BlockBitmap(st.img, ReadDesc(st.img, 0))).Some?
    ensures MakeDir(st, name) == Ok(MakeDirWrites(st, Records(st).value, name, ReadDesc(st.img, 0), NewInodeNumber(st) - 1,
                                                  FirstClear(BlockBitmap(st.img, ReadDesc(st.img, 0))).value))
  {
  }

  /** The records mkdir's writes leave in the current directory. */
  lemma MakeDirWritesLists(st: FsState, es: seq<Entry>, name: seq<byte>, g0: GroupDesc, ki: nat, kb: nat)
    requires ValidState(st) && Tiled(es) && |name| < 256 && NewRecordOffset(es) + EntryHeaderSize + |name| <= BlockSize
    requires DescFits(g0) && ki < 8 * BlockSize && kb < 8 * BlockSize
    requires 3 <= st.cwd.block[0] && BlockOffset(st.cwd.block[0]) + BlockSize <= |st.img|
    ensures Tiled(Appended(es, ki + 1, FileTypeDirectory, name))
    ensures Records(MakeDirWrites(st, es, name, g0, ki, kb)) == Ok(Appended(es, ki + 1, FileTypeDirectory, name))
  {
    MakeDirWritesCommits(st, es, name, g0, ki, kb);
    CommitLists(st, MakeDirImage(st, g0, ki, kb), Appended(es, ki + 1, FileTypeDirectory, name),
                st.sb.(freeBlocksCount := Dec32(st.sb.freeBlocksCount), freeInodesCount := Dec32(st.sb.freeInodesCount)), 0,
                g0.(freeBlocksCount := Dec16(g0.freeBlocksCount), freeInodesCount := Dec16(g0.freeInodesCount)));
  }

  /** After touch the current directory lists the new file last. */
  lemma TouchLists(st: FsState, name: seq<byte>, after: FsState)
    requires ValidState(st) && Touch(st, name) == Ok(after)
    requires 3 <= st.cwd.block[0] && BlockOffset(st.cwd.block[0]) + BlockSize <= |st.img|
    ensures Records(st).Ok?
    ensures Records(after) == Ok(Appended(Records(st).value, NewInodeNumber(st), FileTypeRegular, name))
  {
    TouchUnfolds(st, name);
    var es, g0, ki := Records(st).value, ReadDesc(st.img, 0), NewInodeNumber(st) - 1;
    assert ki + 1 == NewInodeNumber(st);
    assert after == TouchWrites(st, es, name, g0, ki);
    TouchWritesLists(st, es, name, g0, ki);
  }

  /** After touch the new name is found in the current directory, as its last record. */
  lemma TouchFinds(st: FsState, name: seq<byte>, after: FsState)
    requires ValidState(st) && Touch(st, name) == Ok(after)
    requires 3 <= st.cwd.block[0] && BlockOffset(st.cwd.block[0]) + BlockSize <= |st.img|
    ensures Records(st).Ok? && Records(after).Ok?
    ensures Lookup(Records(after).value, name) == Some(|Records(st).value|)
  {
    TouchLists(st, name, after);
    assert Admit(st, name) == Records(st);
    AppendedLookup(Records(st).value, NewInodeNumber(st), FileTypeRegular, name);
  }

  /** A touch that succeeds is its writes on the current records and the first free inode slot. */
  lemma TouchUnfolds(st: FsState, name: seq<byte>)
    requires ValidState(st) && Touch(st, name).Ok?
    ensures Admit(st, name).Ok? && Admit(st, name) == Records(st)
    ensures Touch(st, name) == Ok(TouchWrites(st, Records(st).value, name, ReadDesc(st.img, 0), NewInodeNumber(st) - 1))
  {
  }

  /** The records touch's writes leave in the current directory. */
  lemma TouchWritesLists(st: FsState, es: seq<Entry>, name: seq<byte>, g0: GroupDesc, ki: nat)
    requires ValidState(st) && Tiled(es) && |name| < 256 && NewRecordOffset(es) + EntryHeaderSize + |name| <= BlockSize
    requires DescFits(g0) && ki < 8 * BlockSize
    requires 3 <= st.cwd.block[0] && BlockOffset(st.cwd.block[0]) + BlockSize <= |st.img|
    ensures Tiled(Appended(es, ki + 1, FileTypeRegular, name))
    ensures Records(TouchWrites(st, es, name, g0, ki)) == Ok(Appended(es, ki + 1, FileTypeRegular, name))
  {
    TouchWritesCommits(st, es, name, g0, ki);
    CommitLists(st, TouchImage(st, g0, ki), Appended(es, ki + 1, FileTypeRegular, name),
                st.sb.(freeInodesCount := Dec32(st.sb.freeInodesCount)), 0,
                g0.(freeInodesCount := Dec16(g0.freeInodesCount)));
  }

  /** Creating the same name twice: the second touch is refused as already existing, whatever the bitmaps hold. */
  lemma TouchTwiceRefused(st: FsState, name: seq<byte>)
    requires ValidState(st) && Touch(st, name).Ok?
    requires 3 <= st.cwd.block[0] && BlockOffset(st.cwd.block[0]) + BlockSize <= |st.img|
    ensures Touch(Touch(st, name).value, name) == Err(AlreadyExists)
    ensures MakeDir(Touch(st, name).value, name) == Err(AlreadyExists)
  {
    TouchFinds(st, name, Touch(st, name).value);
  }

  // ---- rm and rmdir ----

  /** unset_block_bitmap for block `b`, in the block bitmap of its own group at its in-group bit; a null pointer names no block. */
  function ClearBlockBit(img: seq<byte>, bpg: nat, b: nat): (r: seq<byte>)
    requires 0 < bpg <= 8 * BlockSize
    ensures |r| == |img|
  {
    if b == 0 then img
    else
      var d := ReadDesc(img, GroupOfBlock(b, bpg));
      PutBlock(img, d.blockBitmap, WithoutBit(BlockBitmap(img, d), (b - 1) % bpg))
  }

  /** The block bitmap after clearing every block of `bs`, first to last. */
  function ClearBlocks(img: seq<byte>, bpg: nat, bs: seq<nat>): (r: seq<byte>)
    requires 0 < bpg <= 8 * BlockSize
    ensures |r| == |img|
  {
    if bs == [] then img else ClearBlockBit(ClearBlocks(img, bpg, bs[..|bs| - 1]), bpg, bs[|bs| - 1])
  }

  /** unset_inode_bitmap and its bookkeeping: inode `n`'s bit cleared in its own group, one more free inode in that group and in the superblock. */
  function ReleaseInode(st: FsState, n: nat): (r: FsState)
    requires ValidState(st) && n >= 1
    ensures ValidState(r) && r.cwd == st.cwd && r.at == st.at && r.groupIndex == st.groupIndex
    ensures r.sb == st.sb.(freeInodesCount := Inc32(st.sb.freeInodesCount))
  {
    var ipg := st.sb.inodesPerGroup;
    var gi := GroupOfInode(n, ipg);
    var d := ReadDesc(st.img, gi);
    var img1 := PutBlock(st.img, d.inodeBitmap, WithoutBit(InodeBitmap(st.img, d), (n - 1) % ipg));
    var d1 := d.(freeInodesCount := Inc16(d.freeInodesCount));
    var sb1 := st.sb.(freeInodesCount := Inc32(st.sb.freeInodesCount));
    st.(img := Persist(img1, sb1, gi, d1), sb := sb1, group := if st.groupIndex == gi then d1 else st.group)
  }

  /** The record named `name` dropped from the current directory, then its inode `n` released. */
  function Unlink(st: FsState, es: seq<Entry>, name: seq<byte>, n: nat): (r: FsState)
    requires ValidState(st) && Tiled(es) && Kept(es, name) != [] && n >= 1
    ensures ValidState(r)
  {
    RemovedTiles(es, name);
    ReleaseInode(st.(img := PutBlock(st.img, st.cwd.block[0], Encode(Removed(es, name)))), n)
  }

  /**
   * funct_rm: the file's data blocks are released in its block bitmap (the
   * free-block counters stay as they were), its record is removed and its
   * inode released. A directory is refused.
   */
  function RemoveFile(st: FsState, name: seq<byte>): (r: Result<FsState>)
    requires ValidState(st)
    ensures r.Err? ==> r.error in {CorruptDirectory, NotFound, IsADirectory}
    ensures Records(st).Ok? && Lookup(Records(st).value, name).None? ==> r == Err(NotFound)
    ensures r.Ok? ==> Records(st).Ok? && Lookup(Records(st).value, name).Some?
    ensures r.Ok? ==> var es := Records(st).value; var n := es[Lookup(es, name).value].inode;
                      !IsDir(LoadInode(st.img, st.sb.inodesPerGroup, n).mode)
    ensures Records(st).Ok? && Lookup(Records(st).value, name).Some? ==>
              var es := Records(st).value; var n := es[Lookup(es, name).value].inode;
              IsDir(LoadInode(st.img, st.sb.inodesPerGroup, n).mode) ==> r == Err(IsADirectory)
    ensures r.Ok? ==> ValidState(r.value) && r.value.cwd == st.cwd && r.value.at == st.at
                      && r.value.sb == st.sb.(freeInodesCount := Inc32(st.sb.freeInodesCount))
  {
    match Records(st)
    case Err(e) => Err(e)
    case Ok(es) =>
      match Lookup(es, name)
      case None => Err(NotFound)
      case Some(i) =>
        var n := es[i].inode;
        var ino := LoadInode(st.img, st.sb.inodesPerGroup, n);
        if IsDir(ino.mode) then Err(IsADirectory)
        else if Kept(es, name) == [] then Err(CorruptDirectory)
        else
          var img1 := ClearBlocks(st.img, st.sb.blocksPerGroup, DataBlocks(st.img, ino.block, ino.size));
          Ok(Unlink(st.(img := img1), es, name, n))
  }

  /**
   * funct_rmdir: only a directory holding nothing but "." and ".." is removed:
   * its block is released in the block bitmap, its record removed from the
   * current directory and its inode released.
   */
  function RemoveDir(st: FsState, name: seq<byte>): (r: Result<FsState>)
    requires ValidState(st)
    ensures r.Err? ==> r.error in {CorruptDirectory, NotFound, NotADirectory, DirectoryNotEmpty}
    ensures Records(st).Ok? && Lookup(Records(st).value, name).None? ==> r == Err(NotFound)
    ensures r.Ok? ==> Records(st).Ok? && Lookup(Records(st).value, name).Some?
    ensures r.Ok? ==> var es := Records(st).value; var n := es[Lookup(es, name).value].inode;
                      var ino := LoadInode(st.img, st.sb.inodesPerGroup, n);
                      IsDir(ino.mode) && InodeFits(ino) && Listing(st.img, ino).Ok?
                      && ChildCount(true, Listing(st.img, ino).value) == 0
    ensures Records(st).Ok? && Lookup(Records(st).value, name).Some? ==>
              var es := Records(st).value; var n := es[Lookup(es, name).value].inode;
              var ino := LoadInode(st.img, st.sb.inodesPerGroup, n);
              (!IsDir(ino.mode) ==> r == Err(NotADirectory))
              && ((IsDir(ino.mode) && InodeFits(ino) && Listing(st.img, ino).Ok?
                   && ChildCount(true, Listing(st.img, ino).value) != 0) ==> r == Err(DirectoryNotEmpty))
    ensures r.Ok? ==> ValidState(r.value) && r.value.cwd == st.cwd && r.value.at == st.at
                      && r.value.sb == st.sb.(freeInodesCount := Inc32(st.sb.freeInodesCount))
  {
    match Records(st)
    case Err(e) => Err(e)
    case Ok(es) =>
      match Lookup(es, name)
      case None => Err(NotFound)
      case Some(i) =>
        var n := es[i].inode;
        var ino := LoadInode(st.img, st.sb.inodesPerGroup, n);
        if !IsDir(ino.mode) then Err(NotADirectory)
        else
          match Listing(st.img, ino)
          case Err(e) => Err(e)
          case Ok(children) =>
            if ChildCount(true, children) != 0 then Err(DirectoryNotEmpty)
            else if Kept(es, name) == [] then Err(CorruptDirectory)
            else
              var img1 := ClearBlockBit(st.img, st.sb.blocksPerGroup, ino.block[0]);
              Ok(Unlink(st.(img := img1), es, name, n))
  }

  // ---- What rm and rmdir leave behind ----

  /** Block `c` lies past the descriptor block, wholly inside the image. */
  predicate BlockInside(img: seq<byte>, c: nat)
  {
    3 <= c && BlockOffset(c) + BlockSize <= |img|
  }

  /** The groups of the blocks `bs` have their descriptors in the descriptor block and their block bitmaps inside the image past it. */
  predicate BlockBitmapsInside(img: seq<byte>, bpg: nat, bs: seq<nat>)
    requires bpg > 0
  {
    forall b :: b in bs && b != 0 ==> GroupOfBlock(b, bpg) < 32 && BlockInside(img, ReadDesc(img, GroupOfBlock(b, bpg)).blockBitmap)
  }

  /** Inode `n`'s group has its descriptor in the descriptor block and its inode bitmap inside the image past it, apart from the current directory's block. */
  predicate InodeBitmapApart(st: FsState, n: nat)
    requires ValidState(st) && n >= 1
  {
    var gi := GroupOfInode(n, st.sb.inodesPerGroup);
    gi < 32 && BlockInside(st.img, ReadDesc(st.img, gi).inodeBitmap)
    && BlockInside(st.img, st.cwd.block[0]) && ReadDesc(st.img, gi).inodeBitmap != st.cwd.block[0]
  }

  /**
   * The layout rm and rmdir rely on: the current directory's block, the inode
   * bitmap of inode `n`'s group and the block bitmaps of the groups of the
   * blocks `bs` are blocks inside the image past the descriptor block, and no
   * such block bitmap is the directory's block or that inode bitmap.
   */
  predicate Apart(st: FsState, n: nat, bs: seq<nat>)
    requires ValidState(st) && n >= 1
  {
    var ib := ReadDesc(st.img, GroupOfInode(n, st.sb.inodesPerGroup)).inodeBitmap;
    InodeBitmapApart(st, n) && BlockBitmapsInside(st.img, st.sb.blocksPerGroup, bs)
    && forall b :: b in bs && b != 0 ==> ReadDesc(st.img, GroupOfBlock(b, st.sb.blocksPerGroup)).blockBitmap !in {st.cwd.block[0], ib}
  }

  /** A write to a block past the descriptor block leaves the descriptors of the first 32 groups as they were. */
  lemma PutBlockKeepsDesc(img: seq<byte>, c: nat, data: seq<byte>, g: nat)
    requires |data| == BlockSize && c >= 3 && g < 32
    ensures ReadDesc(PutBlock(img, c, data), g) == ReadDesc(img, g)
  {
    BlockOffsetShape(c, 0);
    SliceAwayFromWrite(img, BlockOffset(c), data, DescriptorOffset(g), GroupDescSize);
  }

  /** Clearing one block's bit frees its slot in the block bitmap its group's descriptor names, and leaves the descriptors of the first 32 groups as they were. */
  lemma ClearBlockBitClears(img: seq<byte>, bpg: nat, b: nat, g: nat)
    requires 0 < bpg <= 8 * BlockSize && b != 0 && g < 32
    requires GroupOfBlock(b, bpg) < 32 && BlockInside(img, ReadDesc(img, GroupOfBlock(b, bpg)).blockBitmap)
    ensures ReadDesc(ClearBlockBit(img, bpg, b), g) == ReadDesc(img, g)
    ensures !IsSet(BlockBitmap(ClearBlockBit(img, bpg, b), ReadDesc(img, GroupOfBlock(b, bpg))), (b - 1) % bpg)
  {
    var d := ReadDesc(img, GroupOfBlock(b, bpg));
    var bits := WithoutBit(BlockBitmap(img, d), (b - 1) % bpg);
    PutBlockKeepsDesc(img, d.blockBitmap, bits, g);
    SliceOfWrite(img, BlockOffset(d.blockBitmap), bits);
    WithoutBitSlots(BlockBitmap(img, d), (b - 1) % bpg, (b - 1) % bpg);
  }

  /** Clearing block bits leaves the descriptors of the first 32 groups as they were. */
  lemma {:induction false} ClearBlocksKeepsDesc(img: seq<byte>, bpg: nat, bs: seq<nat>, g: nat)
    requires 0 < bpg <= 8 * BlockSize && BlockBitmapsInside(img, bpg, bs) && g < 32
    ensures ReadDesc(ClearBlocks(img, bpg, bs), g) == ReadDesc(img, g)
  {
    if bs != [] {
      var pre, b := bs[..|bs| - 1], bs[|bs| - 1];
      assert forall x :: x in pre ==> x in bs;
      ClearBlocksKeepsDesc(img, bpg, pre, g);
      if b != 0 {
        var img' := ClearBlocks(img, bpg, pre);
        ClearBlocksKeepsDesc(img, bpg, pre, GroupOfBlock(b, bpg));
        var d := ReadDesc(img', GroupOfBlock(b, bpg));
        PutBlockKeepsDesc(img', d.blockBitmap, WithoutBit(BlockBitmap(img', d), (b - 1) % bpg), g);
      }
    }
  }

  /** After the clearing loop the slot of every released block is free in the block bitmap its group's descriptor names. */
  lemma {:induction false} ClearBlocksClears(img: seq<byte>, bpg: nat, bs: seq<nat>, j: nat)
    requires 0 < bpg <= 8 * BlockSize && BlockBitmapsInside(img, bpg, bs) && j < |bs| && bs[j] != 0
    ensures !IsSet(BlockBitmap(ClearBlocks(img, bpg, bs), ReadDesc(img, GroupOfBlock(bs[j], bpg))), (bs[j] - 1) % bpg)
  {
    var pre, b := bs[..|bs| - 1], bs[|bs| - 1];
    assert forall x :: x in pre ==> x in bs;
    var img' := ClearBlocks(img, bpg, pre);
    var target := ReadDesc(img, GroupOfBlock(bs[j], bpg));
    if j < |bs| - 1 {
      assert pre[j] == bs[j];
      ClearBlocksClears(img, bpg, pre, j);
    }
    if b != 0 {
      assert b in bs;
      ClearBlocksKeepsDesc(img, bpg, pre, GroupOfBlock(b, bpg));
      ClearBlockBitKeeps(img', bpg, b, target, (bs[j] - 1) % bpg);
    }
  }

  /** Clearing block `b`'s bit leaves a free slot `k` of a block bitmap free, and frees `b`'s own slot. */
  lemma ClearBlockBitKeeps(img: seq<byte>, bpg: nat, b: nat, target: GroupDesc, k: nat)
    requires 0 < bpg <= 8 * BlockSize && b != 0 && k < 8 * BlockSize
    requires GroupOfBlock(b, bpg) < 32 && BlockInside(img, ReadDesc(img, GroupOfBlock(b, bpg)).blockBitmap)
    requires BlockInside(img, target.blockBitmap)
    requires !IsSet(BlockBitmap(img, target), k)
             || (ReadDesc(img, GroupOfBlock(b, bpg)).blockBitmap == target.blockBitmap && (b - 1) % bpg == k)
    ensures !IsSet(BlockBitmap(ClearBlockBit(img, bpg, b), target), k)
  {
    var d := ReadDesc(img, GroupOfBlock(b, bpg));
    var bits := WithoutBit(BlockBitmap(img, d), (b - 1) % bpg);
    if d.blockBitmap == target.blockBitmap {
      SliceOfWrite(img, BlockOffset(d.blockBitmap), bits);
      assert BlockBitmap(img, d) == BlockBitmap(img, target);
      WithoutBitSlots(BlockBitmap(img, d), (b - 1) % bpg, k);
    } else {
      BlockOffsetShape(d.blockBitmap, target.blockBitmap);
      SliceAwayFromWrite(img, BlockOffset(d.blockBitmap), bits, BlockOffset(target.blockBitmap), BlockSize);
    }
  }

  /** The pointers of `bs` that name a block: a null pointer marks a hole of a sparse file. */
  function NonNull(bs: seq<nat>): seq<nat>
  {
    if bs == [] then [] else NonNull(bs[..|bs| - 1]) + (if bs[|bs| - 1] == 0 then [] else [bs[|bs| - 1]])
  }

  /** Holes free nothing: clearing a file's pointers gives the image clearing only its non-null pointers gives. */
  lemma {:induction false} ClearBlocksSkipsNull(img: seq<byte>, bpg: nat, bs: seq<nat>)
    requires 0 < bpg <= 8 * BlockSize
    ensures ClearBlocks(img, bpg, bs) == ClearBlocks(img, bpg, NonNull(bs))
  {
    if bs != [] {
      var pre, b := bs[..|bs| - 1], bs[|bs| - 1];
      ClearBlocksSkipsNull(img, bpg, pre);
      var nn := NonNull(bs);
      if b == 0 {
        assert nn == NonNull(pre);
        assert ClearBlocks(img, bpg, bs) == ClearBlocks(img, bpg, pre);
      } else {
        assert nn == NonNull(pre) + [b];
        assert nn[..|nn| - 1] == NonNull(pre);
        assert ClearBlocks(img, bpg, nn) == ClearBlockBit(ClearBlocks(img, bpg, NonNull(pre)), bpg, b);
      }
    }
  }

  /** trocaGrupoBlock's group for pointer `b` as written: `b - 1` is taken as an unsigned 32-bit value before the division. */
  function GroupOfBlockAsWritten(b: nat, bpg: nat): nat
    requires b < 0x1_0000_0000 && bpg > 0
  {
    ((b + 0xFFFF_FFFF) % 0x1_0000_0000) / bpg
  }

  /** On every pointer that names a block the as-written group is the block's group. */
  lemma GroupOfBlockAsWrittenAgrees(b: nat, bpg: nat)
    requires 1 <= b < 0x1_0000_0000 && bpg > 0
    ensures GroupOfBlockAsWritten(b, bpg) == GroupOfBlock(b, bpg)
  {
    assert (b + 0xFFFF_FFFF) % 0x1_0000_0000 == b - 1;
  }

  /** A null pointer wraps to group (2^32-1)/blocks_per_group, whose descriptor slot lies past the descriptor block. */
  lemma NullPointerGroupAsWritten(bpg: nat)
    requires 0 < bpg <= 8 * BlockSize
    ensures GroupOfBlockAsWritten(0, bpg) == 0xFFFF_FFFF / bpg
    ensures GroupOfBlockAsWritten(0, bpg) >= 0x7_FFFF
    ensures DescriptorOffset(GroupOfBlockAsWritten(0, bpg)) >= BlockOffset(2) + BlockSize
  {
    assert 0xFFFF_FFFF / bpg >= 0xFFFF_FFFF / 8192 by {
      var q := 0xFFFF_FFFF / bpg;
      assert 0xFFFF_FFFF < (q + 1) * bpg <= (q + 1) * 8192;
    }
  }

  /** unset_block_bitmap as written, on whatever descriptor `d` the group switch left: bit `b` of `d`'s block bitmap cleared. */
  function ClearBlockBitAsWritten(img: seq<byte>, d: GroupDesc, b: nat): (r: seq<byte>)
    requires b < 8 * BlockSize
    ensures |r| == |img|
  {
    PutBlock(img, d.blockBitmap, WithoutBit(BlockBitmap(img, d), b))
  }

  /**
   * rm on a null pointer as written clears slot 0 of the block bitmap it last
   * loaded, the slot of block 1 (the superblock's) in group 0, where the
   * corrected clearing leaves the image as it was.
   */
  lemma NullPointerClearsSlotZero(img: seq<byte>, bpg: nat, d: GroupDesc)
    requires 0 < bpg <= 8 * BlockSize && BlockInside(img, d.blockBitmap) && IsSet(BlockBitmap(img, d), 0)
    ensures !IsSet(BlockBitmap(ClearBlockBitAsWritten(img, d, 0), d), 0)
    ensures ClearBlockBitAsWritten(img, d, 0) != img
    ensures ClearBlockBit(img, bpg, 0) == img
  {
    var bits := WithoutBit(BlockBitmap(img, d), 0);
    SliceOfWrite(img, BlockOffset(d.blockBitmap), bits);
    WithoutBitSlots(BlockBitmap(img, d), 0, 0);
  }

  /**
   * unset_inode_bitmap with rewriteSuperAndGroup, read back: inode `n`'s slot
   * is free in its group's inode bitmap and every other slot is as it was, the
   * group's descriptor on disk counts one more free inode, and so does the
   * superblock on disk.
   */
  lemma ReleaseInodeClears(st: FsState, n: nat)
    requires ValidState(st) && n >= 1
    requires GroupOfInode(n, st.sb.inodesPerGroup) < 32
    requires BlockInside(st.img, ReadDesc(st.img, GroupOfInode(n, st.sb.inodesPerGroup)).inodeBitmap)
    ensures var ipg := st.sb.inodesPerGroup; var d := ReadDesc(st.img, GroupOfInode(n, ipg)); var r := ReleaseInode(st, n);
            ReadDesc(r.img, GroupOfInode(n, ipg)) == d.(freeInodesCount := Inc16(d.freeInodesCount))
            && ReadSuper(r.img) == ReadSuper(st.img).(freeBlocksCount := st.sb.freeBlocksCount,
                                                        freeInodesCount := Inc32(st.sb.freeInodesCount))
            && !IsSet(InodeBitmap(r.img, d), (n - 1) % ipg)
            && (forall j :: 0 <= j < 8 * BlockSize && j != (n - 1) % ipg ==>
                  (IsSet(InodeBitmap(r.img, d), j) <==> IsSet(InodeBitmap(st.img, d), j)))
            && (st.groupIndex == GroupOfInode(n, ipg) ==> r.group == ReadDesc(r.img, st.groupIndex))
            && (st.groupIndex != GroupOfInode(n, ipg) ==> r.group == st.group)
  {
    var ipg := st.sb.inodesPerGroup;
    var gi := GroupOfInode(n, ipg);
    var d := ReadDesc(st.img, gi);
    var k := (n - 1) % ipg;
    var bits := WithoutBit(InodeBitmap(st.img, d), k);
    var img1 := PutBlock(st.img, d.inodeBitmap, bits);
    var d1 := d.(freeInodesCount := Inc16(d.freeInodesCount));
    var sb1 := st.sb.(freeInodesCount := Inc32(st.sb.freeInodesCount));
    SliceOfWrite(st.img, BlockOffset(d.inodeBitmap), bits);
    PersistFrame(img1, sb1, gi, d1, d.inodeBitmap);
    PersistReadsBack(img1, sb1, gi, d1);
    BlockOffsetShape(d.inodeBitmap, 0);
    SliceAwayFromWrite(st.img, BlockOffset(d.inodeBitmap), bits, BaseOffset, SuperRecordSize);
    PutBlockKeepsDesc(st.img, d.inodeBitmap, bits, gi);
    WithoutBitSlots(InodeBitmap(st.img, d), k, k);
    forall j | 0 <= j < 8 * BlockSize && j != k
      ensures IsSet(InodeBitmap(ReleaseInode(st, n).img, d), j) <==> IsSet(InodeBitmap(st.img, d), j)
    {
      WithoutBitSlots(InodeBitmap(st.img, d), k, j);
    }
  }

  /** Releasing an inode leaves every block past the descriptor block but its group's inode bitmap as it was. */
  lemma ReleaseInodeFrame(st: FsState, n: nat, c: nat)
    requires ValidState(st) && n >= 1 && GroupOfInode(n, st.sb.inodesPerGroup) < 32
    requires c >= 3 && c != ReadDesc(st.img, GroupOfInode(n, st.sb.inodesPerGroup)).inodeBitmap
    ensures Slice(ReleaseInode(st, n).img, BlockOffset(c), BlockSize) == Slice(st.img, BlockOffset(c), BlockSize)
  {
    var ipg := st.sb.inodesPerGroup;
    var gi := GroupOfInode(n, ipg);
    var d := ReadDesc(st.img, gi);
    var bits := WithoutBit(InodeBitmap(st.img, d), (n - 1) % ipg);
    var img1 := PutBlock(st.img, d.inodeBitmap, bits);
    PersistFrame(img1, st.sb.(freeInodesCount := Inc32(st.sb.freeInodesCount)), gi, d.(freeInodesCount := Inc16(d.freeInodesCount)), c);
    BlockOffsetShape(d.inodeBitmap, c);
    SliceAwayFromWrite(st.img, BlockOffset(d.inodeBitmap), bits, BlockOffset(c), BlockSize);
  }

  /**
   * The record edit and the release together: the current directory reads back
   * as the kept records, the inode's slot is free in its group's inode bitmap,
   * and every block past the descriptor block but the directory's and that
   * inode bitmap is as it was.
   */
  lemma UnlinkLists(st: FsState, es: seq<Entry>, name: seq<byte>, n: nat)
    requires ValidState(st) && Tiled(es) && Kept(es, name) != [] && n >= 1 && InodeBitmapApart(st, n)
    ensures var ipg := st.sb.inodesPerGroup; var d := ReadDesc(st.img, GroupOfInode(n, ipg)); var r := Unlink(st, es, name, n);
            Records(r) == Ok(Removed(es, name))
            && ReadDesc(r.img, GroupOfInode(n, ipg)) == d.(freeInodesCount := Inc16(d.freeInodesCount))
            && !IsSet(InodeBitmap(r.img, d), (n - 1) % ipg)
            && forall c :: c >= 3 && c != st.cwd.block[0] && c != d.inodeBitmap ==>
                 Slice(r.img, BlockOffset(c), BlockSize) == Slice(st.img, BlockOffset(c), BlockSize)
  {
    var ipg := st.sb.inodesPerGroup;
    var gi := GroupOfInode(n, ipg);
    var dir := st.cwd.block[0];
    RemovedTiles(es, name);
    var enc := Encode(Removed(es, name));
    var st2 := st.(img := PutBlock(st.img, dir, enc));
    PutBlockKeepsDesc(st.img, dir, enc, gi);
    ReleaseInodeClears(st2, n);
    ReleaseInodeFrame(st2, n, dir);
    SliceOfWrite(st.img, BlockOffset(dir), enc);
    ParseEncode(Removed(es, name));
    forall c | c >= 3 && c != dir && c != ReadDesc(st.img, gi).inodeBitmap
      ensures Slice(Unlink(st, es, name, n).img, BlockOffset(c), BlockSize) == Slice(st.img, BlockOffset(c), BlockSize)
    {
      ReleaseInodeFrame(st2, n, c);
      BlockOffsetShape(dir, c);
      SliceAwayFromWrite(st.img, BlockOffset(dir), enc, BlockOffset(c), BlockSize);
    }
  }

  /**
   * The data blocks `bs` cleared, then the record and the inode `n` released:
   * the current directory reads back as the kept records without the name,
   * the inode's slot is free in its group's inode bitmap and that group counts
   * one more free inode on disk.
   */
  lemma RemovalLists(st: FsState, es: seq<Entry>, name: seq<byte>, n: nat, bs: seq<nat>)
    requires ValidState(st) && Tiled(es) && Kept(es, name) != [] && n >= 1 && Apart(st, n, bs)
    ensures var ipg := st.sb.inodesPerGroup;
            var d := ReadDesc(st.img, GroupOfInode(n, ipg));
            var after := Unlink(st.(img := ClearBlocks(st.img, st.sb.blocksPerGroup, bs)), es, name, n);
            Records(after) == Ok(Removed(es, name)) && Lookup(Removed(es, name), name).None?
            && ReadDesc(after.img, GroupOfInode(n, ipg)) == d.(freeInodesCount := Inc16(d.freeInodesCount))
            && !IsSet(InodeBitmap(after.img, d), (n - 1) % ipg)
  {
    ClearBlocksKeepsDesc(st.img, st.sb.blocksPerGroup, bs, GroupOfInode(n, st.sb.inodesPerGroup));
    UnlinkLists(st.(img := ClearBlocks(st.img, st.sb.blocksPerGroup, bs)), es, name, n);
    RemovedGone(es, name);
  }

  /** The same steps leave the slot of block `bs[j]` free in its group's block bitmap. */
  lemma RemovalFrees(st: FsState, es: seq<Entry>, name: seq<byte>, n: nat, bs: seq<nat>, j: nat)
    requires ValidState(st) && Tiled(es) && Kept(es, name) != [] && n >= 1 && Apart(st, n, bs)
    requires j < |bs| && bs[j] != 0
    ensures var bpg := st.sb.blocksPerGroup;
            var after := Unlink(st.(img := ClearBlocks(st.img, bpg, bs)), es, name, n);
            !IsSet(BlockBitmap(after.img, ReadDesc(st.img, GroupOfBlock(bs[j], bpg))), (bs[j] - 1) % bpg)
  {
    var bpg := st.sb.blocksPerGroup;
    var st1 := st.(img := ClearBlocks(st.img, bpg, bs));
    ClearBlocksKeepsDesc(st.img, bpg, bs, GroupOfInode(n, st.sb.inodesPerGroup));
    UnlinkLists(st1, es, name, n);
    assert bs[j] in bs;
    ClearBlocksClears(st.img, bpg, bs, j);
  }

  /** An rm that succeeds is the clearing of the file's data blocks and the unlink of its record and inode. */
  lemma RemoveFileUnfolds(st: FsState, name: seq<byte>)
    requires ValidState(st) && RemoveFile(st, name).Ok?
    ensures var es := Records(st).value; var n := es[Lookup(es, name).value].inode;
            var ino := LoadInode(st.img, st.sb.inodesPerGroup, n);
            Tiled(es) && Kept(es, name) != []
            && RemoveFile(st, name)
               == Ok(Unlink(st.(img := ClearBlocks(st.img, st.sb.blocksPerGroup, DataBlocks(st.img, ino.block, ino.size))), es, name, n))
  {
  }

  /** An rmdir that succeeds is the clearing of the directory's block and the unlink of its record and inode. */
  lemma RemoveDirUnfolds(st: FsState, name: seq<byte>, after: FsState, es: seq<Entry>, n: nat, b: nat)
    requires ValidState(st) && RemoveDir(st, name) == Ok(after)
    requires Records(st) == Ok(es) && Lookup(es, name).Some? && n == es[Lookup(es, name).value].inode
    requires b == LoadInode(st.img, st.sb.inodesPerGroup, n).block[0]
    ensures Tiled(es) && Kept(es, name) != []
            && after == Unlink(st.(img := ClearBlockBit(st.img, st.sb.blocksPerGroup, b)), es, name, n)
  {
  }

  /**
   * After rm of the record `es[i]` holding inode `n`: the current directory
   * lists the kept records and no longer the name, the inode's slot is free in
   * its group's inode bitmap, that group counts one more free inode on disk,
   * and the slot of every released data block is free in its group's block
   * bitmap.
   */
  lemma RemoveFileLists(st: FsState, name: seq<byte>, after: FsState, es: seq<Entry>, n: nat)
    requires ValidState(st) && RemoveFile(st, name) == Ok(after)
    requires Records(st) == Ok(es) && Lookup(es, name).Some? && n == es[Lookup(es, name).value].inode
    requires Apart(st, n, DataBlocks(st.img, LoadInode(st.img, st.sb.inodesPerGroup, n).block,
                                     LoadInode(st.img, st.sb.inodesPerGroup, n).size))
    ensures Records(after) == Ok(Removed(es, name)) && Lookup(Removed(es, name), name).None?
    ensures var d := ReadDesc(st.img, GroupOfInode(n, st.sb.inodesPerGroup));
            ReadDesc(after.img, GroupOfInode(n, st.sb.inodesPerGroup)) == d.(freeInodesCount := Inc16(d.freeInodesCount))
            && !IsSet(InodeBitmap(after.img, d), (n - 1) % st.sb.inodesPerGroup)
    ensures var ino := LoadInode(st.img, st.sb.inodesPerGroup, n); var bs := DataBlocks(st.img, ino.block, ino.size);
            forall j :: 0 <= j < |bs| && bs[j] != 0 ==>
              !IsSet(BlockBitmap(after.img, ReadDesc(st.img, GroupOfBlock(bs[j], st.sb.blocksPerGroup))),
                     (bs[j] - 1) % st.sb.blocksPerGroup)
  {
    RemoveFileUnfolds(st, name);
    var ino := LoadInode(st.img, st.sb.inodesPerGroup, n);
    var bs := DataBlocks(st.img, ino.block, ino.size);
    assert after == Unlink(st.(img := ClearBlocks(st.img, st.sb.blocksPerGroup, bs)), es, name, n);
    RemovalLists(st, es, name, n, bs);
    forall j | 0 <= j < |bs| && bs[j] != 0
      ensures !IsSet(BlockBitmap(after.img, ReadDesc(st.img, GroupOfBlock(bs[j], st.sb.blocksPerGroup))),
                     (bs[j] - 1) % st.sb.blocksPerGroup)
    {
      RemovalFrees(st, es, name, n, bs, j);
    }
  }

  /**
   * After rmdir of the record `es[i]` holding inode `n`: the current
   * directory lists the kept records and no longer the name, the inode's slot
   * is free in its group's inode bitmap, and that group counts one more free
   * inode on disk.
   */
  lemma RemoveDirLists(st: FsState, name: seq<byte>, after: FsState, es: seq<Entry>, n: nat)
    requires ValidState(st) && RemoveDir(st, name) == Ok(after)
    requires Records(st) == Ok(es) && Lookup(es, name).Some? && n == es[Lookup(es, name).value].inode && n >= 1
    requires Apart(st, n, [LoadInode(st.img, st.sb.inodesPerGroup, n).block[0]])
    ensures Records(after) == Ok(Removed(es, name)) && Lookup(Removed(es, name), name).None?
    ensures var d := ReadDesc(st.img, GroupOfInode(n, st.sb.inodesPerGroup));
            ReadDesc(after.img, GroupOfInode(n, st.sb.inodesPerGroup)) == d.(freeInodesCount := Inc16(d.freeInodesCount))
            && !IsSet(InodeBitmap(after.img, d), (n - 1) % st.sb.inodesPerGroup)
  {
    var b := LoadInode(st.img, st.sb.inodesPerGroup, n).block[0];
    RemoveDirUnfolds(st, name, after, es, n, b);
    RemovalOfBlock(st, es, name, n, b, after);
  }

  /** After rmdir of the record `es[i]` holding inode `n`, the directory's block `b` is free in its group's block bitmap. */
  lemma RemoveDirFreesBlock(st: FsState, name: seq<byte>, after: FsState, es: seq<Entry>, n: nat, b: nat)
    requires ValidState(st) && RemoveDir(st, name) == Ok(after)
    requires Records(st) == Ok(es) && Lookup(es, name).Some? && n == es[Lookup(es, name).value].inode && n >= 1
    requires b == LoadInode(st.img, st.sb.inodesPerGroup, n).block[0] && Apart(st, n, [b])
    ensures b != 0 ==> !IsSet(BlockBitmap(after.img, ReadDesc(st.img, GroupOfBlock(b, st.sb.blocksPerGroup))),
                              (b - 1) % st.sb.blocksPerGroup)
  {
    RemoveDirUnfolds(st, name, after, es, n, b);
    RemovalOfBlock(st, es, name, n, b, after);
  }

  /** The block `b` cleared, then the record and the inode `n` released: RemovalLists for the one block of a directory. */
  lemma RemovalOfBlock(st: FsState, es: seq<Entry>, name: seq<byte>, n: nat, b: nat, after: FsState)
    requires ValidState(st) && Tiled(es) && Kept(es, name) != [] && n >= 1 && Apart(st, n, [b])
    requires after == Unlink(st.(img := ClearBlockBit(st.img, st.sb.blocksPerGroup, b)), es, name, n)
    ensures var ipg, bpg := st.sb.inodesPerGroup, st.sb.blocksPerGroup;
            var d := ReadDesc(st.img, GroupOfInode(n, ipg));
            Records(after) == Ok(Removed(es, name)) && Lookup(Removed(es, name), name).None?
            && ReadDesc(after.img, GroupOfInode(n, ipg)) == d.(freeInodesCount := Inc16(d.freeInodesCount))
            && !IsSet(InodeBitmap(after.img, d), (n - 1) % ipg)
            && (b != 0 ==> !IsSet(BlockBitmap(after.img, ReadDesc(st.img, GroupOfBlock(b, bpg))), (b - 1) % bpg))
  {
    var ipg, bpg := st.sb.inodesPerGroup, st.sb.blocksPerGroup;
    var gi := GroupOfInode(n, ipg);
    var st1 := st.(img := ClearBlockBit(st.img, bpg, b));
    if b != 0 {
      assert b in [b];
      ClearBlockBitClears(st.img, bpg, b, gi);
    }
    UnlinkLists(st1, es, name, n);
    RemovedGone(es, name);
  }

  // ---- The descriptor bookkeeping of rm and rmdir as written ----

  /** The free-inode count of the one group of a single-group image: on disk, and in the shell's cached descriptor. */
  datatype InodeCounts = InodeCounts(onDisk: nat, cached: nat)

  /**
   * funct_rm as written: the release is counted in a copy of the cached
   * descriptor taken on entry, and that copy is persisted; the cache itself was
   * overwritten with the descriptor on disk, read before any of rm's writes.
   */
  function RmCountsAsWritten(c: InodeCounts): InodeCounts
  {
    InodeCounts(Inc16(c.cached), c.onDisk)
  }

  /** funct_mkdir as written: one free inode fewer in the cached descriptor, which is then persisted. */
  function MkdirCountsAsWritten(c: InodeCounts): InodeCounts
  {
    InodeCounts(Dec16(c.cached), Dec16(c.cached))
  }

  /**
   * rm of a file, then mkdir, on a single-group image with c0 free inodes, as
   * written: rm leaves the cache one below the disk, and mkdir persists the
   * cache minus one, so the disk ends at c0 - 1 although one inode was freed
   * and one taken. ReleaseInodeClears keeps the cache equal to the persisted
   * descriptor instead.
   */
  lemma RmThenMkdirLosesRelease(c0: nat)
    requires 1 <= c0 < 0xFFFF
    ensures var rm := RmCountsAsWritten(InodeCounts(c0, c0));
            rm.onDisk == c0 + 1 && rm.cached == c0
            && MkdirCountsAsWritten(rm).onDisk == c0 - 1
  {
  }

  /** The inode funct_rm inspects as written: read through a copy of the cached descriptor, at the callers' index, whatever group the inode is in. */
  function RmTargetAsWritten(st: FsState, n: nat): Inode
    requires ValidState(st) && n % st.sb.inodesPerGroup != 0
  {
    ReadInode(st.img, st.group, InGroupIndexAsWritten(n, st.sb.inodesPerGroup))
  }

  /**
   * For an inode of another group, funct_rm decides whether it is a directory,
   * and which blocks to release, from the record at the same in-group index of
   * the current group's table; RemoveFile reads the inode's own group's table.
   */
  lemma RmInspectsCurrentTable(st: FsState, n: nat)
    requires ValidState(st) && Coherent(st) && n >= 1 && n % st.sb.inodesPerGroup != 0
    requires GroupOfInode(n, st.sb.inodesPerGroup) != st.groupIndex
    ensures var ipg := st.sb.inodesPerGroup;
            RmTargetAsWritten(st, n) == ReadInode(st.img, ReadDesc(st.img, st.groupIndex), InGroupIndex(n, ipg))
            && LoadInode(st.img, ipg, n) == ReadInode(st.img, ReadDesc(st.img, GroupOfInode(n, ipg)), InGroupIndex(n, ipg))
  {
    InGroupIndexAsWrittenAgrees(n, st.sb.inodesPerGroup);
  }

  /**
   * The descriptor funct_rmdir persists as written: its copy of the cached
   * descriptor, switched by trocaGrupo to the group of the directory's inode
   * and by trocaGrupoBlock to the group of its block, with the counters as
   * read (the release is counted in the shell's cache instead).
   */
  function RmdirDescAsWritten(st: FsState, n: nat, b: nat): GroupDesc
    requires ValidState(st) && n >= 1 && b >= 1
  {
    var s := SwitchGroup(st, n);
    var gb := GroupOfBlock(b, st.sb.blocksPerGroup);
    if gb != s.groupIndex then ReadDesc(st.img, gb) else s.group
  }

  /**
   * funct_rmdir's last write as written: whichever groups the directory's
   * inode and block lie in, the current group's slot receives the descriptor
   * of the block's group as it was read, so on a single group the free-inode
   * count on disk stays where it was, and from another group the current
   * group's slot is overwritten with that group's descriptor. RemoveDirLists
   * counts the release in the inode's own group instead.
   */
  lemma RmdirPersistsBlockGroup(st: FsState, n: nat, b: nat)
    requires ValidState(st) && Coherent(st) && n >= 1 && b >= 1 && st.groupIndex < 32
    requires DescriptorOffset(st.groupIndex) + GroupDescSize <= |st.img|
    requires DescFits(ReadDesc(st.img, GroupOfBlock(b, st.sb.blocksPerGroup)))
    ensures var gb := GroupOfBlock(b, st.sb.blocksPerGroup);
            var sb1 := st.sb.(freeInodesCount := Inc32(st.sb.freeInodesCount));
            var img := Persist(st.img, sb1, st.groupIndex, RmdirDescAsWritten(st, n, b));
            ReadDesc(img, st.groupIndex) == ReadDesc(st.img, gb)
            && (gb == st.groupIndex ==> ReadDesc(img, st.groupIndex).freeInodesCount
                                        == ReadDesc(st.img, st.groupIndex).freeInodesCount)
  {
    var sb1 := st.sb.(freeInodesCount := Inc32(st.sb.freeInodesCount));
    assert RmdirDescAsWritten(st, n, b) == ReadDesc(st.img, GroupOfBlock(b, st.sb.blocksPerGroup));
    PersistReadsBack(st.img, sb1, st.groupIndex, RmdirDescAsWritten(st, n, b));
  }

  /** funct_rename: the current directory's records rewritten by DirEdits.Rename. */
  function RenameEntry(st: FsState, from: seq<byte>, to: seq<byte>): (r: Result<FsState>)
    requires ValidState(st)
    ensures r.Ok? <==> Records(st).Ok? && Rename(Records(st).value, from, to).Ok?
    ensures r.Ok? ==> r.value == st.(img := r.value.img) && |r.value.img| == |st.img|
  {
    match Records(st)
    case Err(e) => Err(e)
    case Ok(es) =>
      match Rename(es, from, to)
      case Err(e) => Err(e)
      case Ok(es') => Ok(st.(img := PutBlock(st.img, st.cwd.block[0], Encode(es'))))
  }

  /** After rename the current directory reads back as the renamed records: the new name is found, carrying the old record's inode. */
  lemma RenameLists(st: FsState, from: seq<byte>, to: seq<byte>)
    requires ValidState(st) && RenameEntry(st, from, to).Ok?
    requires 0 <= BlockOffset(st.cwd.block[0]) && BlockOffset(st.cwd.block[0]) + BlockSize <= |st.img|
    ensures var es := Records(st).value;
            Records(RenameEntry(st, from, to).value) == Rename(es, from, to)
            && Lookup(Rename(es, from, to).value, to).Some?
  {
    var es := Records(st).value;
    var es' := Rename(es, from, to).value;
    SliceOfWrite(st.img, BlockOffset(st.cwd.block[0]), Encode(es'));
    ParseEncode(es');
    assert es'[|es| - 1].name == to;
  }

  // ---- The command line ----

  /** The commands that may change the image or the position. */
  predicate Changes(c: Commands.Command)
  {
    c.Cd? || c.Mkdir? || c.Touch? || c.Rm? || c.Rmdir? || c.Rename?
  }

  /** executarComando: one recognised command run against the state, with what it prints. */
  function Run(st: FsState, c: Commands.Command): (r: Result<(Output, FsState)>)
    requires ValidState(st)
    ensures r.Ok? ==> ValidState(r.value.1)
    ensures r.Ok? && !Changes(c) ==> r.value.1 == st
    ensures r.Ok? && Changes(c) ==> r.value.0 == Done
  {
    if Changes(c) then Changed(Transaction(st, c))
    else
      match Report(st, c)
      case Err(e) => Err(e)
      case Ok(out) => Ok((out, st))
  }

  /** The transaction of a command that changes the state. */
  function Transaction(st: FsState, c: Commands.Command): (r: Result<FsState>)
    requires ValidState(st) && Changes(c)
    ensures r.Ok? ==> ValidState(r.value)
  {
    match c
    case Cd(n) => ChangeDir(st, n)
    case Mkdir(n) => MakeDir(st, n)
    case Touch(n) => Touch(st, n)
    case Rm(n) => RemoveFile(st, n)
    case Rmdir(n) => RemoveDir(st, n)
    case Rename(a, b) => RenameEntry(st, a, b)
  }

  /** What a command that only reads prints. */
  function Report(st: FsState, c: Commands.Command): Result<Output>
    requires ValidState(st) && !Changes(c)
  {
    match c
    case Info => Ok(Summary(st.sb))
    case Ls =>
      (match Listing(st.img, st.cwd)
       case Err(e) => Err(e)
       case Ok(es) => Ok(Listed(es)))
    case Pwd => Ok(Text(Navigation.Pwd(st.at.path)))
    case Cat(n) =>
      (match Cat(st, n)
       case Err(e) => Err(e)
       case Ok(bytes) => Ok(Text(bytes)))
    case Attr(n) =>
      (match Attr(st, n)
       case Err(e) => Err(e)
       case Ok(view) => Ok(Attributes(view)))
    case Cp(n, target) =>
      (match Copy(st, n)
       case Err(e) => Err(e)
       case Ok(bytes) => Ok(HostFile(target, bytes)))
  }

  function Changed(r: Result<FsState>): Result<(Output, FsState)>
  {
    match r
    case Err(e) => Err(e)
    case Ok(s) => Ok((Done, s))
  }
}
