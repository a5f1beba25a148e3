/**
 * The edits mkdir, touch, rm, rmdir and rename make to the records of a
 * directory's first block, and the walks getLastEntry and isLoaded make
 * over them. The block's central invariant is that the record lengths
 * add up to 1024: the records tile the block.
 */
module DirEdits {
  import opened Bytes
  import opened Errors
  import opened Layout
  import opened Directories

  /** roundLen: the padding that brings a record length up to a multiple of 4. */
  function RoundLen(t: nat): nat
  {
    if t % 4 == 0 then 0 else 4 - t % 4
  }

  /** t + roundLen(t) is the least multiple of 4 that is at least t. */
  lemma RoundLenLeastMultiple(t: nat, m: nat)
    ensures (t + RoundLen(t)) % 4 == 0 && t <= t + RoundLen(t) < t + 4
    ensures m % 4 == 0 && m >= t ==> m >= t + RoundLen(t)
  {
  }

  /** converteParaMult4: a name length rounded up to a multiple of 4. */
  function Mult4(n: nat): nat
  {
    var whole := (n / 4) * 4;
    if n - whole > 0 then whole + 4 else whole
  }

  /** The shortest record that holds a name of `nameLen` bytes, as mkdir and touch compute it. */
  function MinRecLen(nameLen: nat): nat
  {
    EntryHeaderSize + nameLen + RoundLen(EntryHeaderSize + nameLen)
  }

  /** rename's "8 + converteParaMult4(name_len)" and mkdir's "t + roundLen(t)" with t = 8 + name_len agree, and hold the name. */
  lemma MinRecLenAgrees(nameLen: nat)
    ensures EntryHeaderSize + Mult4(nameLen) == MinRecLen(nameLen)
    ensures MinRecLen(nameLen) % 4 == 0 && EntryHeaderSize + nameLen <= MinRecLen(nameLen) < EntryHeaderSize + nameLen + 4
  {
  }

  /** Byte offset of the last record: the lengths of all the records before it. */
  function LastOffset(es: seq<Entry>): nat
    requires es != []
  {
    Sum(es[..|es| - 1])
  }

  /** Records that come from a parsed block: each one well formed, all within the block. */
  predicate InBlock(es: seq<Entry>)
  {
    AllWellFormed(es) && Sum(es) <= BlockSize
  }

  /** The records tile the block, the invariant every directory edit keeps. */
  predicate Tiled(es: seq<Entry>)
  {
    es != [] && AllWellFormed(es) && Sum(es) == BlockSize
  }

  /**
   * getLastEntry: sums record lengths while the sum stays below 1024. On a tiled
   * block the sum is the offset of the last record when the cursor leaves the
   * block, and the loop is taken to end there (the bytes past the block are not
   * modelled); on a block ended by an inode-0 record it is the offset just past
   * the records.
   */
  method GetLastEntry(es: seq<Entry>) returns (acc: nat)
    requires InBlock(es)
    ensures es != [] && Sum(es) == BlockSize ==> acc == LastOffset(es)
    ensures Sum(es) < BlockSize ==> acc == Sum(es)
  {
    acc := 0;
    var k := 0;
    while k < |es|
      invariant 0 <= k <= |es|
      invariant k == 0 ==> acc == 0
      invariant k < |es| ==> acc == Sum(es[..k])
      invariant k == |es| && es != [] ==> acc == if Sum(es) == BlockSize then LastOffset(es) else Sum(es)
    {
      SumSplit(es, k);
      assert WellFormed(es[k]);
      if k + 1 < |es| {
        SumSplit(es, k + 1);
        PrefixWithin(es, k + 1);
      } else {
        assert es[..k + 1] == es;
      }
      if acc + es[k].recLen < BlockSize {
        acc := acc + es[k].recLen;
      }
      k := k + 1;
    }
    assert es == [] ==> Sum(es) == 0;
  }

  lemma {:induction false} PrefixWithin(es: seq<Entry>, k: nat)
    requires k <= |es|
    ensures Sum(es[..k]) <= Sum(es)
  {
    assert es == es[..k] + es[k..];
    SumAppend(es[..k], es[k..]);
  }

  /** The old last record cut down to the shortest length that holds its name. */
  function ShrunkLast(es: seq<Entry>): Entry
    requires es != []
  {
    es[|es| - 1].(recLen := MinRecLen(|es[|es| - 1].name|))
  }

  /** Where mkdir and touch place the new record: right after the shrunk last record. */
  function NewRecordOffset(es: seq<Entry>): nat
    requires es != []
  {
    LastOffset(es) + MinRecLen(|es[|es| - 1].name|)
  }

  /** The records after mkdir or touch: the earlier ones untouched, the last one shrunk, the new one reaching to the end of the block. */
  function Appended(es: seq<Entry>, inode: nat, fileType: nat, name: seq<byte>): seq<Entry>
    requires es != [] && NewRecordOffset(es) <= BlockSize
  {
    es[..|es| - 1] + [ShrunkLast(es), Entry(inode, BlockSize - NewRecordOffset(es), fileType, name)]
  }

  /**
   * The record edit of mkdir and touch: the cursor `temp` starts at getLastEntry,
   * the last record's rec_len becomes 8 + name_len rounded up by roundLen, and the
   * new record takes the rest of the block. A name that does not fit is refused.
   */
  method AppendEntry(es: seq<Entry>, inode: nat, fileType: nat, name: seq<byte>) returns (r: Result<seq<Entry>>)
    requires Tiled(es) && 1 <= inode < 0x1_0000_0000 && fileType < 256
    ensures r.Err? <==> |name| >= 256 || NewRecordOffset(es) + EntryHeaderSize + |name| > BlockSize
    ensures r.Err? ==> r.error == (if |name| >= 256 then NameTooLong else DirectoryFull)
    ensures r.Ok? ==> r.value == Appended(es, inode, fileType, name) && Tiled(r.value)
    ensures r.Ok? ==> |r.value| == |es| + 1 && r.value[..|es| - 1] == es[..|es| - 1]
                      && r.value[|es|] == Entry(inode, r.value[|es|].recLen, fileType, name)
  {
    var temp := GetLastEntry(es);
    var last := es[|es| - 1];
    var shrunk := EntryHeaderSize + |last.name|;
    shrunk := shrunk + RoundLen(shrunk);
    temp := temp + shrunk;
    if |name| >= 256 {
      return Err(NameTooLong);
    }
    if temp + EntryHeaderSize + |name| > BlockSize {
      return Err(DirectoryFull);
    }
    var res := es[..|es| - 1] + [last.(recLen := shrunk), Entry(inode, BlockSize - temp, fileType, name)];
    AppendedTiles(es, inode, fileType, name);
    return Ok(res);
  }

  /** A record that fits keeps the block tiled and every record well formed. */
  lemma {:induction false} AppendedTiles(es: seq<Entry>, inode: nat, fileType: nat, name: seq<byte>)
    requires Tiled(es) && 1 <= inode < 0x1_0000_0000 && fileType < 256 && |name| < 256
    requires NewRecordOffset(es) + EntryHeaderSize + |name| <= BlockSize
    ensures Tiled(Appended(es, inode, fileType, name))
  {
    var n := |es|;
    var a := Appended(es, inode, fileType, name);
    var e := Entry(inode, BlockSize - NewRecordOffset(es), fileType, name);
    assert WellFormed(es[n - 1]);
    MinRecLenAgrees(|es[n - 1].name|);
    assert WellFormed(ShrunkLast(es));
    assert WellFormed(e);
    forall i | 0 <= i < |a| ensures WellFormed(a[i]) {
      if i < n - 1 {
        assert a[i] == es[i];
      }
    }
    SumAppend(es[..n - 1], [ShrunkLast(es), e]);
    assert Sum([ShrunkLast(es), e]) == ShrunkLast(es).recLen + Sum([e]);
    assert Sum([e]) == e.recLen + Sum([]);
  }

  /** After mkdir or touch of a name the directory did not hold, looking the name up finds the new record. */
  lemma {:induction false} AppendedLookup(es: seq<Entry>, inode: nat, fileType: nat, name: seq<byte>)
    requires es != [] && NewRecordOffset(es) <= BlockSize && Lookup(es, name).None?
    ensures Lookup(Appended(es, inode, fileType, name), name) == Some(|es|)
  {
    var a := Appended(es, inode, fileType, name);
    forall j | 0 <= j < |es| ensures a[j].name != name {
      if j < |es| - 1 {
        assert a[j] == es[j];
      }
    }
    assert a[|es|].name == name;
  }

  /** A directory block for mkdir: "." naming the new directory (rec_len 12) and ".." naming its parent (rec_len 1012). */
  function FreshDirBlock(self: nat, parent: nat): (r: seq<Entry>)
    requires 1 <= self < 0x1_0000_0000 && 1 <= parent < 0x1_0000_0000
    ensures Tiled(r) && |r| == 2
    ensures r[0].inode == self && r[0].name == Dot() && r[1].inode == parent && r[1].name == DotDot()
    ensures r[0].fileType == FileTypeDirectory && r[1].fileType == FileTypeDirectory
    ensures Parse(Encode(r)) == Ok(r)
  {
    var r := [Entry(self, 12, FileTypeDirectory, Dot()), Entry(parent, 1012, FileTypeDirectory, DotDot())];
    assert Sum(r) == 12 + Sum(r[1..]) && Sum(r[1..]) == 1012 + Sum(r[2..]);
    ParseEncode(r);
    r
  }

  /** The records rm and rmdir keep: those not named `name`, in their order. */
  function Kept(es: seq<Entry>, name: seq<byte>): seq<Entry>
  {
    if es == [] then []
    else Kept(es[..|es| - 1], name) + (if es[|es| - 1].name == name then [] else [es[|es| - 1]])
  }

  /** The total rec_len of the records named `name`. */
  function RemovedSize(es: seq<Entry>, name: seq<byte>): nat
  {
    if es == [] then 0
    else RemovedSize(es[..|es| - 1], name) + (if es[|es| - 1].name == name then es[|es| - 1].recLen else 0)
  }

  /** One more record considered: it is kept or its rec_len counts as removed. */
  lemma KeptStep(es: seq<Entry>, name: seq<byte>, k: nat)
    requires k < |es|
    ensures es[k].name == name ==> Kept(es[..k + 1], name) == Kept(es[..k], name)
    ensures es[k].name != name ==> Kept(es[..k + 1], name) == Kept(es[..k], name) + [es[k]]
    ensures RemovedSize(es[..k + 1], name) == RemovedSize(es[..k], name) + (if es[k].name == name then es[k].recLen else 0)
  {
    assert es[..k + 1][..k] == es[..k];
    assert Kept(es[..k], name) + [] == Kept(es[..k], name);
  }

  /** What is kept and what is removed account for every byte the records covered. */
  lemma {:induction false} KeptSum(es: seq<Entry>, name: seq<byte>)
    ensures Sum(Kept(es, name)) + RemovedSize(es, name) == Sum(es)
  {
    if es != [] {
      var init, last := es[..|es| - 1], es[|es| - 1];
      KeptSum(init, name);
      assert es == init + [last];
      SumAppend(init, [last]);
      assert Sum([last]) == last.recLen + Sum([]);
      if last.name != name {
        SumAppend(Kept(init, name), [last]);
      } else {
        assert Kept(init, name) + [] == Kept(init, name);
        assert Kept(es, name) == Kept(init, name);
        assert RemovedSize(es, name) == RemovedSize(init, name) + last.recLen;
      }
    }
  }

  /** Every kept record comes from the directory and does not carry the name. */
  lemma {:induction false} KeptFrom(es: seq<Entry>, name: seq<byte>)
    ensures |Kept(es, name)| <= |es|
    ensures forall e :: e in Kept(es, name) ==> e in es && e.name != name
  {
    if es != [] {
      var init, last := es[..|es| - 1], es[|es| - 1];
      KeptFrom(init, name);
      forall e | e in init ensures e in es {
        var i :| 0 <= i < |init| && init[i] == e;
        assert es[i] == e;
      }
    }
  }

  /** A name no record carries keeps every record and removes nothing. */
  lemma {:induction false} KeptAll(es: seq<Entry>, name: seq<byte>)
    requires forall j :: 0 <= j < |es| ==> es[j].name != name
    ensures Kept(es, name) == es && RemovedSize(es, name) == 0
  {
    if es != [] {
      var init, last := es[..|es| - 1], es[|es| - 1];
      KeptAll(init, name);
      assert es == init + [last];
    }
  }

  /** The records after rm or rmdir: the kept records, the last of them grown by the rec_len of what was removed. */
  function Removed(es: seq<Entry>, name: seq<byte>): seq<Entry>
  {
    var kept := Kept(es, name);
    if kept == [] then [] else GrownLast(kept, RemovedSize(es, name))
  }

  /** The records with the last one's rec_len grown by `d`. */
  function GrownLast(xs: seq<Entry>, d: nat): seq<Entry>
    requires xs != []
  {
    xs[..|xs| - 1] + [xs[|xs| - 1].(recLen := xs[|xs| - 1].recLen + d)]
  }

  /**
   * removeEntry: copies the records not named `name` (see CopyOthers), then fixes
   * the new last record's rec_len by one of two formulas, which agree on a tiled
   * block: the block size less the copied bytes plus the last copied rec_len when
   * the record after offset getLastEntry was as long as what was removed, or else
   * the last copied rec_len plus what was removed.
   */
  method RemoveEntry(es: seq<Entry>, name: seq<byte>) returns (r: seq<Entry>)
    requires InBlock(es)
    ensures Sum(es) == BlockSize ==> r == Removed(es, name)
  {
    var lastEntry := GetLastEntry(es);
    var newRecs, acc2, removedSize, lastEntrySize, ultimoTam := CopyOthers(es, name, lastEntry);
    if newRecs == [] {
      return [];
    }
    KeptSum(es, name);
    var fixed: nat;
    if lastEntrySize == removedSize {
      fixed := BlockSize - acc2 + ultimoTam;
    } else {
      fixed := ultimoTam + removedSize;
    }
    r := newRecs[..|newRecs| - 1] + [newRecs[|newRecs| - 1].(recLen := fixed)];
    if Sum(es) == BlockSize {
      assert fixed == ultimoTam + removedSize;
      assert Removed(es, name) == GrownLast(newRecs, removedSize);
    }
  }

  /**
   * removeEntry's copy loop: every record not named `name` is copied, keeping its
   * rec_len, with the accumulators acc (all records), acc2 (copied records),
   * ultimoTam (the last copied rec_len) and removedSize; lastEntrySize is the
   * rec_len of the record that starts where acc reaches offset `lastEntry`.
   */
  method CopyOthers(es: seq<Entry>, name: seq<byte>, lastEntry: nat)
    returns (newRecs: seq<Entry>, acc2: nat, removedSize: nat, lastEntrySize: nat, ultimoTam: nat)
    ensures newRecs == Kept(es, name) && removedSize == RemovedSize(es, name) && acc2 == Sum(newRecs)
    ensures newRecs != [] ==> ultimoTam == newRecs[|newRecs| - 1].recLen
  {
    var acc := 0;
    acc2, removedSize, lastEntrySize, ultimoTam := 0, 0, 0, 0;
    newRecs := [];
    var k := 0;
    while k < |es|
      invariant 0 <= k <= |es|
      invariant newRecs == Kept(es[..k], name) && removedSize == RemovedSize(es[..k], name)
      invariant acc2 == Sum(newRecs)
      invariant newRecs != [] ==> ultimoTam == newRecs[|newRecs| - 1].recLen
    {
      KeptStep(es, name, k);
      if es[k].name != name {
        SumAppend(newRecs, [es[k]]);
        assert Sum([es[k]]) == es[k].recLen + Sum([]);
        newRecs := newRecs + [es[k]];
        ultimoTam := es[k].recLen;
        acc2 := acc2 + es[k].recLen;
      } else {
        removedSize := removedSize + es[k].recLen;
      }
      acc := acc + es[k].recLen;
      if acc == lastEntry && k + 1 < |es| {
        lastEntrySize := es[k + 1].recLen;
      }
      k := k + 1;
    }
    assert es[..k] == es;
  }

  /** rm and rmdir keep the block tiled as long as one record stays. */
  lemma {:induction false} RemovedTiles(es: seq<Entry>, name: seq<byte>)
    requires Tiled(es) && Kept(es, name) != []
    ensures Tiled(Removed(es, name))
  {
    KeptSum(es, name);
    KeptWellFormed(es, name);
    GrowLast(Kept(es, name), RemovedSize(es, name));
  }

  lemma KeptWellFormed(es: seq<Entry>, name: seq<byte>)
    requires AllWellFormed(es)
    ensures AllWellFormed(Kept(es, name))
  {
    var kept := Kept(es, name);
    KeptFrom(es, name);
    forall i | 0 <= i < |kept| ensures WellFormed(kept[i]) {
      assert kept[i] in kept;
    }
  }

  /** Growing the last record by `d` grows the total by `d` and keeps every record well formed while it stays inside a block. */
  lemma {:induction false} GrowLast(xs: seq<Entry>, d: nat)
    requires xs != [] && AllWellFormed(xs) && Sum(xs) + d <= BlockSize
    ensures Sum(GrownLast(xs, d)) == Sum(xs) + d && AllWellFormed(GrownLast(xs, d))
  {
    var n := |xs|;
    var grown := xs[n - 1].(recLen := xs[n - 1].recLen + d);
    var r := xs[..n - 1] + [grown];
    assert xs == xs[..n - 1] + [xs[n - 1]];
    SumAppend(xs[..n - 1], [xs[n - 1]]);
    SumAppend(xs[..n - 1], [grown]);
    assert Sum([xs[n - 1]]) == xs[n - 1].recLen + Sum([]);
    assert Sum([grown]) == grown.recLen + Sum([]);
    PrefixWithin(xs, n - 1);
    forall i | 0 <= i < n ensures WellFormed(r[i]) {
      if i < n - 1 {
        assert r[i] == xs[i];
      }
    }
  }

  /** Removing a name the directory does not hold changes nothing. */
  lemma RemoveAbsent(es: seq<Entry>, name: seq<byte>)
    requires es != [] && Lookup(es, name).None?
    ensures Removed(es, name) == es
  {
    KeptAll(es, name);
    assert es == es[..|es| - 1] + [es[|es| - 1]];
  }

  /** After rm or rmdir no record carries the removed name. */
  lemma RemovedGone(es: seq<Entry>, name: seq<byte>)
    ensures Lookup(Removed(es, name), name).None?
  {
    KeptFrom(es, name);
    var r := Removed(es, name);
    var kept := Kept(es, name);
    if kept != [] {
      forall i | 0 <= i < |r| ensures r[i].name != name {
        assert r[i].name == kept[i].name && kept[i] in kept;
      }
    }
  }

  /** The last record named `name`: constroiListaDiretorios overwrites the position at every match. */
  function LastIndexOf(es: seq<Entry>, name: seq<byte>): (r: Option<nat>)
    ensures r.Some? ==> r.value < |es| && es[r.value].name == name
                        && forall j :: r.value < j < |es| ==> es[j].name != name
    ensures r.None? ==> forall j :: 0 <= j < |es| ==> es[j].name != name
  {
    if es == [] then None
    else if es[|es| - 1].name == name then Some(|es| - 1)
    else
      var r := LastIndexOf(es[..|es| - 1], name);
      assert forall j :: 0 <= j < |es| - 1 ==> es[..|es| - 1][j] == es[j];
      r
  }

  /** The records without the first one named `name` (the erase loop of removeAtualizaListaDiretorios). */
  function EraseFirst(es: seq<Entry>, name: seq<byte>): (r: seq<Entry>)
    requires Lookup(es, name).Some?
    ensures |r| == |es| - 1
  {
    var i := Lookup(es, name).value;
    es[..i] + es[i + 1..]
  }

  /** What rename keeps in front of the renamed record: the others, the new last of them cut to 8 + converteParaMult4(name_len). */
  function RenameRest(es: seq<Entry>, from: seq<byte>): (r: seq<Entry>)
    requires Lookup(es, from).Some? && |es| >= 2
    ensures |r| == |es| - 1
  {
    var rest := EraseFirst(es, from);
    rest[..|rest| - 1] + [rest[|rest| - 1].(recLen := EntryHeaderSize + Mult4(|rest[|rest| - 1].name|))]
  }

  /**
   * rename as written: the sum recLenDirs starts at 12 in an unsigned
   * short, and the renamed record, moved last, gets 1024 minus that sum truncated
   * to 16 bits. Nothing checks that the new name fits.
   */
  function RenameAsWritten(es: seq<Entry>, from: seq<byte>, to: seq<byte>): Result<seq<Entry>>
  {
    match LastIndexOf(es, from)
    case None => Err(EntryNotFound)
    case Some(pos) =>
      if |es| < 2 then Err(CorruptDirectory)
      else
        var rest := RenameRest(es, from);
        var recLenDirs := (12 + Sum(rest)) % 0x1_0000;
        Ok(rest + [Entry(es[pos].inode, (BlockSize - recLenDirs) % 0x1_0000, es[pos].fileType, to)])
  }

  /**
   * rename as documented: the record is removed and appended last under its new
   * name with the same inode and file type, the previous last record is shrunk to
   * its minimal length, and the renamed record reaches to the end of the block.
   */
  function Rename(es: seq<Entry>, from: seq<byte>, to: seq<byte>): (r: Result<seq<Entry>>)
    requires Tiled(es)
    ensures r.Err? <==> Lookup(es, from).None? || |to| >= 256 || |es| < 2
                        || Sum(RenameRest(es, from)) + EntryHeaderSize + |to| > BlockSize
    ensures r.Err? && Lookup(es, from).None? ==> r.error == EntryNotFound
    ensures r.Ok? ==> Tiled(r.value) && |r.value| == |es|
    ensures r.Ok? ==> r.value[..|es| - 1] == RenameRest(es, from)
    ensures r.Ok? ==> var pos := LastIndexOf(es, from).value;
                      r.value[|es| - 1] == Entry(es[pos].inode, r.value[|es| - 1].recLen, es[pos].fileType, to)
    ensures r.Ok? ==> var prev := r.value[|es| - 2]; prev.recLen == MinRecLen(|prev.name|)
  {
    match LastIndexOf(es, from)
    case None => Err(EntryNotFound)
    case Some(pos) =>
      if |to| >= 256 then Err(NameTooLong)
      else if |es| < 2 then Err(CorruptDirectory)
      else
        var rest := RenameRest(es, from);
        if Sum(rest) + EntryHeaderSize + |to| > BlockSize then Err(DirectoryFull)
        else
          var moved := Entry(es[pos].inode, BlockSize - Sum(rest), es[pos].fileType, to);
          RenameRestWellFormed(es, from);
          SumAppend(rest, [moved]);
          assert Sum([moved]) == moved.recLen + Sum([]);
          MinRecLenAgrees(|rest[|rest| - 1].name|);
          assert (rest + [moved])[..|rest|] == rest;
          Ok(rest + [moved])
  }

  /** The records rename keeps are well formed: erasing keeps them, and the shrunk length still holds the name. */
  lemma RenameRestWellFormed(es: seq<Entry>, from: seq<byte>)
    requires AllWellFormed(es) && Lookup(es, from).Some? && |es| >= 2
    ensures AllWellFormed(RenameRest(es, from))
  {
    var i := Lookup(es, from).value;
    var rest := EraseFirst(es, from);
    assert forall j :: 0 <= j < |rest| ==> rest[j] == (if j < i then es[j] else es[j + 1]);
    var last := rest[|rest| - 1];
    MinRecLenAgrees(|last.name|);
    var r := RenameRest(es, from);
    forall j | 0 <= j < |r| ensures WellFormed(r[j]) {
      if j < |r| - 1 {
        assert r[j] == rest[j];
      }
    }
  }

  /**
   * Whenever both versions succeed they differ only in the renamed record's rec_len:
   * the source's is 12 bytes short, so its block totals 1012 and no longer tiles.
   */
  lemma RenameLeavesGap(es: seq<Entry>, from: seq<byte>, to: seq<byte>)
    requires Tiled(es) && Rename(es, from, to).Ok?
    requires Sum(RenameRest(es, from)) + 12 + EntryHeaderSize + |to| <= BlockSize
    ensures RenameAsWritten(es, from, to).Ok?
    ensures var w, c := RenameAsWritten(es, from, to).value, Rename(es, from, to).value;
            w[..|es| - 1] == c[..|es| - 1] && w[|es| - 1].recLen + 12 == c[|es| - 1].recLen
    ensures Sum(RenameAsWritten(es, from, to).value) == BlockSize - 12
  {
    var pos := LastIndexOf(es, from).value;
    var rest := RenameRest(es, from);
    assert (12 + Sum(rest)) % 0x1_0000 == 12 + Sum(rest);
    var moved := Entry(es[pos].inode, BlockSize - 12 - Sum(rest), es[pos].fileType, to);
    assert RenameAsWritten(es, from, to) == Ok(rest + [moved]);
    assert Rename(es, from, to) == Ok(rest + [moved.(recLen := BlockSize - Sum(rest))]);
    SumAppend(rest, [moved]);
    assert Sum([moved]) == moved.recLen + Sum([]);
  }

  /** A name no record carries: no position holds it. */
  lemma {:induction false} NoOccurrence(es: seq<Entry>, name: seq<byte>)
    requires Occurrences(es, name) == 0
    ensures forall j :: 0 <= j < |es| ==> es[j].name != name
  {
    if es != [] {
      NoOccurrence(es[..|es| - 1], name);
      assert forall j :: 0 <= j < |es| - 1 ==> es[..|es| - 1][j] == es[j];
    }
  }

  /**
   * A name one record carries: the first and the last match are that record,
   * and what rm keeps is what rename's erase loop keeps.
   */
  lemma {:induction false} KeptOnce(es: seq<Entry>, name: seq<byte>)
    requires Occurrences(es, name) == 1
    ensures Lookup(es, name).Some? && LastIndexOf(es, name) == Lookup(es, name)
    ensures Kept(es, name) == EraseFirst(es, name)
  {
    var init, last := es[..|es| - 1], es[|es| - 1];
    assert es == init + [last];
    if last.name == name {
      NoOccurrence(init, name);
      assert forall j :: 0 <= j < |init| ==> es[j].name != name;
      KeptAll(init, name);
      assert Lookup(es, name) == Some(|es| - 1);
      assert Kept(es, name) == init + [];
    } else {
      KeptOnce(init, name);
      var i := Lookup(init, name).value;
      assert es[i] == init[i];
      assert Lookup(es, name) == Some(i);
      assert Kept(es, name) == Kept(init, name) + [last];
      assert es[..i] == init[..i] && es[i + 1..] == init[i + 1..] + [last];
    }
  }

  /**
   * With one record named `from` and room for the new name, rename is rm of
   * that record followed by the append of mkdir and touch, under the new name
   * with the record's inode and file type.
   */
  lemma RenameIsRemoveAppend(es: seq<Entry>, from: seq<byte>, to: seq<byte>)
    requires Tiled(es) && Occurrences(es, from) == 1 && Rename(es, from, to).Ok?
    ensures var i := Lookup(es, from).value;
            Removed(es, from) != [] && NewRecordOffset(Removed(es, from)) <= BlockSize
            && Rename(es, from, to) == Ok(Appended(Removed(es, from), es[i].inode, es[i].fileType, to))
  {
    KeptOnce(es, from);
    KeptCount(es, from);
    var i := Lookup(es, from).value;
    var kept := Kept(es, from);
    var n := |kept|;
    var rm := Removed(es, from);
    var rest := RenameRest(es, from);
    assert rm == GrownLast(kept, RemovedSize(es, from));
    MinRecLenAgrees(|kept[n - 1].name|);
    assert rm[..n - 1] == kept[..n - 1] == rest[..n - 1];
    assert rest == rm[..n - 1] + [ShrunkLast(rm)];
    SumAppend(rm[..n - 1], [ShrunkLast(rm)]);
    assert Sum([ShrunkLast(rm)]) == ShrunkLast(rm).recLen + Sum([]);
    assert NewRecordOffset(rm) == Sum(rest);
    var moved := Entry(es[i].inode, BlockSize - Sum(rest), es[i].fileType, to);
    assert LastIndexOf(es, from) == Some(i);
    assert Rename(es, from, to) == Ok(rest + [moved]);
    assert Appended(rm, es[i].inode, es[i].fileType, to) == rm[..n - 1] + [ShrunkLast(rm), moved];
    assert rest + [moved] == rm[..n - 1] + [ShrunkLast(rm), moved];
  }

  /** isLoaded: the number of records besides "." and "..", or -1 for an inode that is not a directory. */
  function ChildCount(isDir: bool, es: seq<Entry>): int
  {
    if isDir then |es| - 2 else -1
  }

  /** The number of records named `name`. */
  function Occurrences(es: seq<Entry>, name: seq<byte>): nat
  {
    if es == [] then 0
    else Occurrences(es[..|es| - 1], name) + (if es[|es| - 1].name == name then 1 else 0)
  }

  /** rm and rmdir drop exactly the records carrying the name. */
  lemma {:induction false} KeptCount(es: seq<Entry>, name: seq<byte>)
    ensures |Kept(es, name)| + Occurrences(es, name) == |es|
  {
    if es != [] {
      KeptCount(es[..|es| - 1], name);
    }
  }

  /** Removing a name one record carries takes one child from the directory, if another record is left. */
  lemma RemovedOneChild(es: seq<Entry>, name: seq<byte>)
    requires Occurrences(es, name) == 1 && |es| >= 2
    ensures ChildCount(true, Removed(es, name)) == ChildCount(true, es) - 1
  {
    KeptCount(es, name);
  }
}
