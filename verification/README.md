# nEXT2shell: a model of the EXT2 shell's on-disk engine

nEXT2shell is an interactive shell over an EXT2 file-system image. It mounts
the image and keeps a few globals: the superblock, the current block group
and its descriptor, the current directory's inode and the path stack. Its
commands either read the image (`info`, `ls`, `pwd`, `cat`, `attr`, `cp`) or
change it or the position (`cd`, `mkdir`, `touch`, `rm`, `rmdir`, `rename`).

This project models the engine under those commands, on an image of 1 KiB
blocks:

- where things sit on disk: superblock, group descriptors, inode tables and blocks;
- the first-fit bitmap allocator and its free counters;
- the directory-record codec and the edits made to a directory's single block;
- the direct, single- and double-indirect walk that reads and frees a file's blocks;
- the path kept by `cd` and printed by `pwd`;
- the command table.

The modules follow the program's layers:

| module | file | what it holds |
|---|---|---|
| `Bytes` | bytes.dfy | the image as a sequence of bytes; little-endian fields; bits of an integer |
| `Errors` | errors.dfy | the refusals the shell prints, as `Result` errors |
| `Layout` | layout.dfy | block, descriptor and inode-record offsets; which group an inode or block is in |
| `OnDisk` | ondisk.dfy | superblock, group descriptor and inode records, decoded and encoded |
| `Bitmaps` | bitmap.dfy | the allocator: first free slot, set, clear, counters; a `Bitmap` class over a bitmap block in memory |
| `Directories` | dircodec.dfy | directory records: reading a block, encoding a block, lookup by name, the source's walk |
| `DirEdits` | dirops.dfy | a directory block's edits: append (mkdir, touch), remove (rm, rmdir), rename |
| `Indirection` | indirection.dfy | the file-reading loops of cat and cp, and rm's block-collecting loops |
| `Navigation` | navigation.dfy | cd's record choice and path stack; pwd's rendering |
| `Attributes` | attributes.dfy | attr's permission string |
| `Commands` | commands.dfy | the command table: name, word count, dispatch |
| `Engine` | engine.dfy | every command as a transaction on the shell's state |
| `Session` | shell.dfy | the shell's globals as a class whose methods update them in place, each proved to follow its Engine transaction |

`Engine` states each command as a function from the state before it to a
`Result` holding the state after it. Every check that can refuse a mutating
command comes before its first write, so a refused command leaves the state
unchanged. `Session.Shell` holds the same state in fields; each command there
is a method whose `ensures` ties the new fields to the Engine function. The
loops of the source (the bitmap scan, the record walks, the block-reading and
block-freeing loops) are methods with loop invariants, proved against the
functions in `Bitmaps`, `DirEdits` and `Indirection`.

## Model

| member | source | states |
|---|---|---|
| Layout.BlockSizeForShape | nEXT2shell.cpp:33 | the block size 1024 << s_log_block_size is a multiple of 1 KiB, and equals 1 KiB exactly when the shift is 0 |
| Layout.BlockOffsetShape | nEXT2shell.cpp:32 | block b starts at byte 1024*b; two distinct blocks never share a byte |
| Layout.DescriptorSlots | nEXT2shell.cpp:77-78 | the first 32 group descriptors lie inside block 2, and two different slots never overlap |
| Layout.InodeRecordPlacement | nEXT2shell.cpp:57-62 | record n of an inode table is in table block (n-1)/8 at slot (n-1)%8, and lies wholly inside that block |
| Layout.InGroupIndexSound | nEXT2shell.cpp:70-81 | the intended in-group index lies in 1..inodes-per-group and, with the group trocaGrupo picks, names inode n again |
| Layout.FirstGroupInodes | nEXT2shell.cpp:424-433 | the inodes of the first group, the root (inode 2) among them, are in group 0 at their own number |
| Layout.InGroupIndexAsWrittenAgrees | nEXT2shell.cpp:464 | the callers' `n % inodes_per_group` is the intended index exactly when n is not a multiple of inodes_per_group; otherwise it is 0 |
| Layout.LastInodeOfGroupMissesTable | nEXT2shell.cpp:57-62 | for the last inode of a group the index computed by the callers is 0, and read_inode reads a record at or past the table's end instead of the last record |
| OnDisk.Mount | nEXT2shell.cpp:408-427 | the image mounts exactly when the superblock magic is 0xEF53, and is otherwise refused as not EXT2 |
| OnDisk.PutSuperCountersDecodes | nEXT2shell.cpp:779-786 | rewriting the superblock's two free counters changes exactly those two fields as a later read sees them |
| OnDisk.DescRoundTrip | nEXT2shell.cpp:779-786 | a descriptor encoded into its record decodes back to itself |
| OnDisk.ReadDescAfterWrite | nEXT2shell.cpp:70-81 | re-reading a group's descriptor after it is written gives the descriptor written |
| OnDisk.PointersRoundTrip | nEXT2shell.cpp:57-62 | the 15 block pointers encoded little-endian decode back to the same pointers |
| OnDisk.InodeRoundTrip | nEXT2shell.cpp:178-183 | an inode encoded by write_inode decodes, by read_inode's layout, back to the same inode |
| OnDisk.ReadInodeAfterWrite | nEXT2shell.cpp:178-183 | read_inode right after write_inode at the same index returns the inode written |
| Bytes.U32Le32 | nEXT2shell.cpp:57-62 | a 32-bit little-endian field decodes to the value encoded |
| Bytes.SliceOfWrite | nEXT2shell.cpp:178-183 | reading back the bytes just written at an offset gives those bytes |
| Bytes.SliceAwayFromWrite | nEXT2shell.cpp:779-786 | a write leaves every byte range it does not overlap unchanged |
| Bytes.SetBitBits | nEXT2shell.cpp:716-742 | `x \| (1 << k)` sets bit k and keeps every other bit of x |
| Bytes.ClearBitBits | nEXT2shell.cpp:1185-1220 | `x & ~(1 << k)` clears bit k and keeps every other bit of x |
| Bytes.ClearBitUndoesSetBit | nEXT2shell.cpp:1350-1388 | clearing a bit that was just set, and was clear before, gives the value back |
| Bitmaps.MaskClearsOneBit | nEXT2shell.cpp:1199-1201 | unset's mask `(0xFE << x) \| (0xFF >> (8-x))` is, as a byte, every bit but x |
| Bitmaps.WithBitSlots | nEXT2shell.cpp:745-767 | set_*_bitmap marks slot k in use and leaves every other slot as it was |
| Bitmaps.WithoutBitSlots | nEXT2shell.cpp:1350-1388 | unset_*_bitmap frees slot k and leaves every other slot as it was |
| Bitmaps.ClearUndoesSet | nEXT2shell.cpp:1350-1388 | freeing a slot that allocation just took restores the bitmap |
| Bitmaps.FirstClearFrom | nEXT2shell.cpp:655-683 | the scan finds a free slot with every earlier slot in use, or reports that every slot from the start is in use |
| Bitmaps.SlotOfByte | nEXT2shell.cpp:663-680 | slot 8i+j is bit j of byte i, and the scan moves past it exactly when that bit is set |
| Bitmaps.FirstClearExhausted | nEXT2shell.cpp:686-713 | the corrected scan reports "full" exactly when every slot is in use, and never names a slot in use |
| Bitmaps.FullScanAliasesSlotZero | nEXT2shell.cpp:682 | on a full bitmap find_free_* returns 0, and slot 0 is in use |
| Bitmaps.ReleaseAsWrittenMissesSlot | nEXT2shell.cpp:1433 | allocation marks slot n-1 for object n, but release clears slot n: slot n-1 stays in use |
| Bitmaps.CounterRoundTrip | nEXT2shell.cpp:1384-1385 | taking one from the 16-bit and 32-bit free counters and giving it back restores them |
| Bitmaps.Bitmap.constructor | nEXT2shell.cpp:627-652 | a bitmap block read into memory, with the two counters |
| Bitmaps.Bitmap.FindFree | nEXT2shell.cpp:655-713 | the nested byte-and-bit loop returns the first free slot, or none when the block is full |
| Bitmaps.Bitmap.Set | nEXT2shell.cpp:716-742 | the block becomes the bitmap with slot k marked; the counters are unchanged |
| Bitmaps.Bitmap.Clear | nEXT2shell.cpp:1185-1220 | the block becomes the bitmap with slot k freed; the counters are unchanged |
| Bitmaps.Bitmap.Release | nEXT2shell.cpp:1350-1388 | slot k freed and both free counters one more, with 16- and 32-bit wrap-around |
| Bitmaps.Bitmap.Consume | nEXT2shell.cpp:961-966 | both free counters one less, with wrap-around; the bits unchanged |
| Bitmaps.Bitmap.Allocate | nEXT2shell.cpp:827-829 | a full bitmap is refused with nothing changed; otherwise the first free slot is marked and both counters drop by one |
| Attributes.MasksAreBits | nEXT2shell.cpp:36-44 | the nine permission masks are the single bits 8 down to 0 |
| Attributes.PermString | nEXT2shell.cpp:1651-1706 | ten letters: 'd' for a directory and 'f' otherwise, then letter i is the i-th of "rwxrwxrwx" exactly when mode bit 9-i is set, and '-' otherwise |
| Attributes.DirectoryTemplate | nEXT2shell.cpp:930 | a directory made by mkdir shows "drwxr-xr-x" |
| Attributes.FileTemplate | nEXT2shell.cpp:1082 | a file made by touch shows "frw-r--r--" |
| Commands.Parse | nEXT2shell.cpp:1970-2089 | a line is accepted exactly when its first word names a command and it has that command's word count, and the command is typed as exactly those words; otherwise a syntax error for a known name, unsupported for an unknown one |
| Commands.ParseWords | nEXT2shell.cpp:1970-2089 | each command, typed as its words, is recognised as itself |
| Directories.ParseFromWellFormed | nEXT2shell.cpp:110-126 | every record the reader returns has a live inode and a rec_len that holds its header and name |
| Directories.ParseFromEnds | nEXT2shell.cpp:110-126 | the records read stay inside the block and stop at its end or at a record whose inode is 0 |
| Directories.EncodedHeaderFields | nEXT2shell.cpp:1895-1930 | an encoded record carries its inode, rec_len, name length, file type and name at their offsets |
| Directories.ParseEncode | nEXT2shell.cpp:1895-1930 | records that tile the block are read back unchanged from their encoding |
| Directories.LookupFrom | nEXT2shell.cpp:89-130 | lookup returns the first record with the name, or none exactly when no record has it |
| Directories.WalkFindsLookup | nEXT2shell.cpp:110-126 | when i_size covers the block, read_dir's walk stops on exactly the record lookup names |
| Directories.WalkMissOverrunsBlock | nEXT2shell.cpp:110-126 | for a name the block does not hold, the walk's cursor moves past the block's last byte before the loop test ends it |
| Directories.ZeroRecLenPinsCursor | nEXT2shell.cpp:122-125 | a record with rec_len 0 keeps the walk's cursor and size fixed for any number of steps, so the loop never ends |
| DirEdits.RoundLenLeastMultiple | nEXT2shell.cpp:770-773 | t + roundLen(t) is the least multiple of 4 that is at least t |
| DirEdits.MinRecLenAgrees | nEXT2shell.cpp:1843-1849 | rename's 8 + converteParaMult4(len) and mkdir's t + roundLen(t) agree, are multiples of 4 and hold the name |
| DirEdits.GetLastEntry | nEXT2shell.cpp:133-170 | on a block the records tile, the sum the loop holds when its cursor leaves the block is the last record's offset, which it returns when the bytes past the block end the walk; on a block the records leave short, the total length |
| DirEdits.AppendEntry | nEXT2shell.cpp:896-953 | refused exactly when the name is 256 bytes or longer or its record does not fit; otherwise the earlier records are unchanged, the last is cut to its shortest length, and the new record reaches to the block's end |
| DirEdits.AppendedTiles | nEXT2shell.cpp:936-953 | appending a record that fits keeps the block tiled and every record well formed |
| DirEdits.AppendedLookup | nEXT2shell.cpp:1048-1105 | after a name the directory did not hold is appended, lookup finds it in the new last record |
| DirEdits.FreshDirBlock | nEXT2shell.cpp:845-862 | mkdir's new block: "." (rec_len 12) names the new directory and ".." (rec_len 1012) its parent; together they tile the block and read back unchanged |
| DirEdits.KeptSum | nEXT2shell.cpp:1268-1310 | the records kept and the lengths removed together account for every byte of the block |
| DirEdits.KeptFrom | nEXT2shell.cpp:1268-1310 | every kept record came from the directory and has a different name |
| DirEdits.KeptAll | nEXT2shell.cpp:1268-1310 | a name no record has keeps every record and removes nothing |
| DirEdits.RemoveEntry | nEXT2shell.cpp:1227-1343 | on a block the records tile, the result is the other records in order, the last grown by the lengths removed |
| DirEdits.CopyOthers | nEXT2shell.cpp:1268-1310 | the copy loop keeps exactly the records without the name, sums what it drops, and remembers the last kept record's length |
| DirEdits.RemovedTiles | nEXT2shell.cpp:1312-1336 | removing a record keeps the block tiled as long as one record is left |
| DirEdits.GrowLast | nEXT2shell.cpp:1312-1336 | growing the last record by d grows the total by d and keeps it well formed |
| DirEdits.RemoveAbsent | nEXT2shell.cpp:1227-1343 | removing a name the directory does not hold changes nothing |
| DirEdits.RemovedGone | nEXT2shell.cpp:1227-1343 | after rm or rmdir no record has the removed name |
| DirEdits.LastIndexOf | nEXT2shell.cpp:1792-1837 | the position constroiListaDiretorios keeps has the name, with no later record having it; none exactly when no record has it |
| DirEdits.Rename | nEXT2shell.cpp:1857-1943 | refused exactly when the name is missing, the new name too long, fewer than two records, or no room; otherwise the block stays tiled with the same number of records, the records in front are the others with the last of them cut to its shortest length, and the moved record is last with the old inode and type and the new name |
| DirEdits.RenameRestWellFormed | nEXT2shell.cpp:1857-1892 | the records rename keeps in front stay well formed after the last of them is cut |
| DirEdits.RenameLeavesGap | nEXT2shell.cpp:1869-1888 | the source's rename gives the moved record 12 bytes less than the block's remainder, so its records total 1012 and no longer tile the block |
| DirEdits.RenameIsRemoveAppend | nEXT2shell.cpp:1857-1943 | for a name only one record holds, rename is the removal rm makes of that record followed by the append mkdir makes of a record with its inode, its type and the new name |
| DirEdits.KeptOnce | nEXT2shell.cpp:1857-1892 | for a name only one record holds, the record rename moves is the one lookup finds, and the records it keeps are the others |
| DirEdits.KeptCount | nEXT2shell.cpp:1268-1310 | rm and rmdir drop exactly the records that have the name |
| DirEdits.RemovedOneChild | nEXT2shell.cpp:1124-1159 | removing a name one record has leaves one child fewer, as isLoaded counts them |
| Indirection.EmittedLengthMatchesSize | nEXT2shell.cpp:293-313 | for 1 <= i_size < 2^31 the read loops emit i_size bytes, up to what the pointers reach |
| Indirection.EmptyFileEmitsOneByte | nEXT2shell.cpp:293-313 | a file of size 0 still emits one byte, the first byte of the block i_block[0] names |
| Indirection.EmitBlock | nEXT2shell.cpp:304-313 | the inner loop appends the block's bytes until the count reaches 0 or the block ends, and counts them off |
| Indirection.DoubleSlot | nEXT2shell.cpp:350-384 | block 256i+k of the double-indirect range is column k of row i: the two loop indices |
| Indirection.PhysDouble | nEXT2shell.cpp:350-384 | logical block 268+256j+k is entry k of the block that entry j of i_block[13] names |
| Indirection.ReadFile | nEXT2shell.cpp:286-387 | printaArquivo's loops produce exactly the as-written file bytes |
| Indirection.ReadDirect | nEXT2shell.cpp:299-319 | the loop over i_block[0..11] leaves the stream and count as the first 12 blocks give them |
| Indirection.ReadSingle | nEXT2shell.cpp:321-346 | the loop over i_block[12]'s 256 entries continues the stream through logical block 267 |
| Indirection.ReadDouble | nEXT2shell.cpp:348-386 | the loops under i_block[13] continue the stream through every reachable block |
| Indirection.ReadRow | nEXT2shell.cpp:360-384 | one row of the double-indirect walk continues the stream by that row's 256 blocks |
| Indirection.Content | nEXT2shell.cpp:286-387 | a file's content has i_size bytes, up to what the pointers reach |
| Indirection.ReadContent | nEXT2shell.cpp:473-588 | the corrected read produces exactly the file's content |
| Indirection.FileBytesIsContent | nEXT2shell.cpp:286-387 | the as-written read equals the content exactly when 1 <= i_size < 2^31 |
| Indirection.DataBlocks | nEXT2shell.cpp:1495-1537 | rm frees one block per started KiB of the signed i_size, none when it is not positive |
| Indirection.CollectedAll | nEXT2shell.cpp:1495-1537 | when the count runs out or every reachable block is taken, the blocks collected are the file's data blocks |
| Indirection.FreedBlocks | nEXT2shell.cpp:1495-1537 | rm's three loops collect exactly the file's data blocks, in the order they visit them |
| Indirection.CollectRow | nEXT2shell.cpp:1524-1535 | one row of rm's double-indirect walk collects that row's blocks while the count lasts |
| Indirection.ReadAndFreeAgree | nEXT2shell.cpp:1495-1537 | rm frees the blocks cat reads: as many as the bytes emitted need, block l being logical block l's physical block |
| Navigation.Cd | nEXT2shell.cpp:190-259 | not found exactly when no record has the name; accepted exactly when the first such record is a directory; the path becomes "." kept, ".." popped except at the root, any other name pushed |
| Navigation.StepPathBack | nEXT2shell.cpp:236-248 | entering a directory and then ".." restores the path |
| Navigation.CdIntoFreshAndBack | nEXT2shell.cpp:190-259 | cd into a directory mkdir made, then cd "..", returns to the parent's inode and the old path |
| Navigation.FullNameRunsOn | nEXT2shell.cpp:228 | a name without a zero byte followed in the block by a nonzero byte reads, as a C string, as the name and then more |
| Navigation.PushedNameOverrunsRecord | nEXT2shell.cpp:228-246 | cd as written pushes "abcd" followed by byte 13 for a name "abcd" filling its record ahead of inode 13's record |
| Navigation.Pwd | nEXT2shell.cpp:1946-1963 | the rendering starts with "/" and is longer than the last name on the stack |
| Navigation.PwdPush | nEXT2shell.cpp:1946-1963 | entering a directory extends the rendering by "/" and its name |
| Navigation.PwdSlashes | nEXT2shell.cpp:1946-1963 | with names free of "/", the rendering has one "/" per directory entered |
| Engine.Open | nEXT2shell.cpp:408-434 | refused as not EXT2 unless the magic matches and the geometry fits; otherwise group 0, the root inode 2 and an empty path, and with at least two inodes per group the caches agree with the image |
| Engine.SwitchGroupCoherent | nEXT2shell.cpp:70-81 | after trocaGrupo the cached descriptor is the one the image holds for the inode's group |
| Engine.Records | nEXT2shell.cpp:89-130 | the current directory reads as records that tile its block, or is reported corrupt |
| Engine.Resolve | nEXT2shell.cpp:440-470 | a name resolves exactly when a record has it, to that record's inode read from its own group |
| Engine.Cat | nEXT2shell.cpp:1575-1598 | cat succeeds exactly on a name that resolves to a non-directory, returns its i_size bytes up to what the pointers reach, and refuses a directory |
| Engine.Copy | nEXT2shell.cpp:1553-1569 | cp succeeds exactly when the name resolves, and returns what cat would for a file |
| Engine.ResolveGroupAsWritten | nEXT2shell.cpp:440-466 | what getArquivoPorNome leaves behind as written: only the group number changes, to the named inode's group, and nothing changes when the name does not resolve |
| Engine.CatThenCdReadsStaleTable | nEXT2shell.cpp:1731-1742 | after cat of a file of another group, cd into a directory of that group reads its inode from the old group's table, where ChangeDir reads it from its own |
| Engine.Attr | nEXT2shell.cpp:1632-1728 | attr shows the permission string, owner, group and size of the resolved inode |
| Engine.ChangeDir | nEXT2shell.cpp:1731-1742 | cd succeeds exactly when Navigation.Cd does, and changes only the group, the current inode and the position |
| Engine.ChangeDirCoherent | nEXT2shell.cpp:1731-1742 | after cd the caches agree with the image: the current inode is the one the new position names |
| Engine.PersistReadsBack | nEXT2shell.cpp:779-786 | after rewriteSuperAndGroup a re-read gives the descriptor written and the new counters, all other superblock fields unchanged |
| Engine.PersistFrame | nEXT2shell.cpp:779-786 | rewriteSuperAndGroup leaves every block from block 3 on unchanged |
| Engine.NewDirInode | nEXT2shell.cpp:920-935 | mkdir's inode is a directory of one block, two links, size 1 KiB |
| Engine.NewFileInode | nEXT2shell.cpp:1074-1090 | touch's inode is a regular file of size 0 with no blocks and one link |
| Engine.Admit | nEXT2shell.cpp:815-822 | mkdir and touch go ahead only on readable records, a name not present, and room for its record; an existing name is refused as such |
| Engine.MakeDir | nEXT2shell.cpp:793-973 | refused exactly when Admit refuses or either bitmap of group 0 is full; otherwise one free inode and one free block fewer in the superblock, position unchanged |
| Engine.MakeDirPlanned | nEXT2shell.cpp:826-870 | the planned slots, bitmaps and counters are exactly what mkdir writes |
| Engine.MakeDirExhausted | nEXT2shell.cpp:826-870 | mkdir with either bitmap full is refused as exhausted |
| Engine.MakeDirWritesCommits | nEXT2shell.cpp:936-972 | mkdir's writes end in the commit of the appended records, with the counters of group 0 and the superblock decremented |
| Engine.CommitLists | nEXT2shell.cpp:950-972 | after the commit the current directory reads back as the records committed |
| Engine.MakeDirLists | nEXT2shell.cpp:793-973 | after mkdir the directory reads as its old records with the new directory's record appended |
| Engine.MakeDirFinds | nEXT2shell.cpp:793-973 | after mkdir looking up the name finds the new record |
| Engine.Touch | nEXT2shell.cpp:979-1121 | refused exactly when Admit refuses or group 0's inode bitmap is full; otherwise one free inode fewer in the superblock, position unchanged |
| Engine.TouchPlanned | nEXT2shell.cpp:1006-1117 | the planned slot, bitmap and counters are exactly what touch writes |
| Engine.TouchExhausted | nEXT2shell.cpp:1006-1008 | touch with the inode bitmap full is refused as exhausted |
| Engine.TouchWritesCommits | nEXT2shell.cpp:1092-1120 | touch's writes end in the commit of the appended records with one free inode fewer |
| Engine.TouchLists | nEXT2shell.cpp:979-1121 | after touch the directory reads as its old records with the file's record appended |
| Engine.TouchFinds | nEXT2shell.cpp:979-1121 | after touch looking up the name finds the new record |
| Engine.TouchTwiceRefused | nEXT2shell.cpp:996-1000 | a second touch or a mkdir of the same name is refused as already existing |
| Engine.ReleaseInode | nEXT2shell.cpp:1350-1388 | the inode's slot is freed and the superblock counts one more free inode; position unchanged |
| Engine.RemoveFile | nEXT2shell.cpp:1450-1546 | rm refuses a missing name, and a name naming a directory exactly then; on success the name resolved to a non-directory, one more inode is free in the superblock and the position is unchanged |
| Engine.RemoveDir | nEXT2shell.cpp:1395-1443 | rmdir refuses a missing name, a non-directory and a directory with children, each whenever it occurs; on success the directory held only "." and "..", one more inode is free in the superblock |
| Engine.ReleaseInodeClears | nEXT2shell.cpp:1350-1388 | after the release the inode's slot is free in its group's inode bitmap and every other slot is as it was, its group's descriptor and the superblock on disk count one more free inode, and a cached descriptor of that group is the one persisted |
| Engine.ReleaseInodeFrame | nEXT2shell.cpp:1350-1388 | the release leaves every block past the descriptors but the inode bitmap as it was |
| Engine.UnlinkLists | nEXT2shell.cpp:1538-1542 | after the record removal and the release the directory reads back as the kept records, the inode's slot is free, and every other block but the directory's and the inode bitmap is as it was |
| Engine.ClearBlockBitClears | nEXT2shell.cpp:1185-1220 | clearing a block's bit frees its slot in its group's block bitmap and leaves the descriptors as they were |
| Engine.ClearBlockBitKeeps | nEXT2shell.cpp:1185-1220 | clearing a block's bit leaves every free slot free |
| Engine.ClearBlocksSkipsNull | nEXT2shell.cpp:1497-1537 | a file's null pointers, the holes of a sparse file, free nothing: clearing all its pointers leaves the image clearing only the non-null ones leaves |
| Engine.GroupOfBlockAsWrittenAgrees | nEXT2shell.cpp:1166-1177 | trocaGrupoBlock's unsigned `(valor - 1) / s_blocks_per_group` is the block's group for every pointer that names a block |
| Engine.NullPointerGroupAsWritten | nEXT2shell.cpp:1166-1177 | for a null pointer the unsigned subtraction wraps, giving group (2^32-1)/s_blocks_per_group, at least 524287, whose descriptor slot lies past the descriptor block |
| Engine.NullPointerClearsSlotZero | nEXT2shell.cpp:1185-1220 | unset_block_bitmap on a null pointer clears slot 0 of the loaded bitmap, block 1's slot, and so changes the image, where the corrected clearing leaves it as it was |
| Engine.ClearBlocksKeepsDesc | nEXT2shell.cpp:1497-1537 | rm's clearing loop leaves the descriptors as they were |
| Engine.ClearBlocksClears | nEXT2shell.cpp:1497-1537 | after rm's clearing loop the slot of every released block is free |
| Engine.RemoveFileLists | nEXT2shell.cpp:1450-1546 | after rm the directory lists the other records and no longer the name, the inode's slot is free, its group counts one more free inode on disk, and every data block's slot is free |
| Engine.RemoveDirLists | nEXT2shell.cpp:1395-1443 | after rmdir the directory lists the other records and no longer the name, the inode's slot is free and its group counts one more free inode on disk |
| Engine.RemoveDirFreesBlock | nEXT2shell.cpp:1428-1431 | after rmdir the directory's block is free in its group's block bitmap |
| Engine.RmThenMkdirLosesRelease | nEXT2shell.cpp:1472-1475 | as written, rm then mkdir on a single group with c0 free inodes leaves c0 - 1 on disk |
| Engine.RmInspectsCurrentTable | nEXT2shell.cpp:1458-1480 | as written, rm inspects the current group's table for an inode of another group, where RemoveFile reads the inode's own |
| Engine.RmdirPersistsBlockGroup | nEXT2shell.cpp:1403-1434 | as written, rmdir writes the descriptor of the directory block's group, as read, into the current group's slot |
| Engine.RenameEntry | nEXT2shell.cpp:1933-1943 | rename succeeds exactly when DirEdits.Rename does, and changes nothing but the directory's block |
| Engine.RenameLists | nEXT2shell.cpp:1933-1943 | after rename the directory reads as the renamed records, and the new name is found |
| Engine.Run | nEXT2shell.cpp:1970-2089 | a command that only reads leaves the state unchanged; a command that changes it reports nothing |
| Engine.Transaction | nEXT2shell.cpp:1970-2089 | every mutating command ends in a valid state |
| Session.AllocateSlot | nEXT2shell.cpp:826-829 | the first free slot is marked and counted, or a full block is reported exhausted |
| Session.ReleaseSlot | nEXT2shell.cpp:1350-1388 | slot k freed and both counters one more |
| Session.ClearSlot | nEXT2shell.cpp:1185-1220 | slot k freed and left free |
| Session.Shell.constructor | nEXT2shell.cpp:2091-2103 | the globals hold the given state |
| Session.Shell.Open | nEXT2shell.cpp:408-434 | a shell whose state is Engine.Open's, or the same refusal |
| Session.Shell.SwitchGroup | nEXT2shell.cpp:70-81 | the fields change as Engine's switch says |
| Session.Shell.Cd | nEXT2shell.cpp:1731-1742 | the new fields are Engine.ChangeDir's state, unchanged on refusal |
| Session.Shell.Admit | nEXT2shell.cpp:815-822 | the checks refuse as Engine.Admit does |
| Session.Shell.Mkdir | nEXT2shell.cpp:793-973 | the new fields are Engine.MakeDir's state, unchanged on refusal |
| Session.Shell.PlanDirectory | nEXT2shell.cpp:826-870 | the slots taken are the first free ones of group 0's bitmaps, or both bitmaps are checked and one is full |
| Session.Shell.BuildDirectory | nEXT2shell.cpp:826-972 | the image after mkdir's writes is the commit of the marked bitmaps, the new directory and the appended records |
| Session.Shell.Touch | nEXT2shell.cpp:979-1121 | the new fields are Engine.Touch's state, unchanged on refusal |
| Session.Shell.PlanFile | nEXT2shell.cpp:1006-1010 | the slot taken is the first free one of group 0's inode bitmap, or the bitmap is full |
| Session.Shell.BuildFile | nEXT2shell.cpp:1006-1120 | the image after touch's writes is the commit of the marked bitmap, the new inode and the appended records |
| Session.Shell.MarkBitmaps | nEXT2shell.cpp:716-767 | only the image changes: both bitmap blocks written back |
| Session.Shell.PlaceDirectory | nEXT2shell.cpp:845-935 | only the image changes: the "." and ".." block, then the new inode |
| Session.Shell.PlaceFile | nEXT2shell.cpp:1074-1090 | only the image changes: the new inode |
| Session.Shell.Commit | nEXT2shell.cpp:950-972 | the state becomes Engine.Commit's: the directory block and then the counters written |
| Session.Shell.ClearBlock | nEXT2shell.cpp:1185-1220 | only the image changes: block b's bit cleared in its group's bitmap |
| Session.Shell.ReleaseInode | nEXT2shell.cpp:1350-1388 | the state becomes Engine.ReleaseInode's |
| Session.Shell.Unlink | nEXT2shell.cpp:1538-1542 | the state becomes Engine.Unlink's: the record removed, then the inode released |
| Session.Shell.ClearBlocks | nEXT2shell.cpp:1497-1537 | only the image changes: each listed block's bit cleared in turn |
| Session.Shell.Rm | nEXT2shell.cpp:1450-1546 | the new fields are Engine.RemoveFile's state, unchanged on refusal |
| Session.Shell.Rmdir | nEXT2shell.cpp:1395-1443 | the new fields are Engine.RemoveDir's state, unchanged on refusal |
| Session.Shell.Rename | nEXT2shell.cpp:1933-1943 | the new fields are Engine.RenameEntry's state, unchanged on refusal |
| Session.Shell.Ls | nEXT2shell.cpp:1745-1785 | the records of the current directory's block |
| Session.Shell.Cat | nEXT2shell.cpp:1575-1598 | the bytes Engine.Cat names, read block by block |
| Session.Shell.Cp | nEXT2shell.cpp:1553-1569 | the bytes Engine.Copy names |
| Session.Shell.Execute | nEXT2shell.cpp:1970-2089 | a line that does not parse leaves the state unchanged and reports why; one that parses does what Engine.Run says |
| Session.Shell.Query | nEXT2shell.cpp:1970-2089 | a reading command's output, with the state untouched |
| Session.Shell.Apply | nEXT2shell.cpp:1970-2089 | a mutating command's new state is its Engine transaction's |

## Left out

- Terminal input, printing and the line tokenizer are not modelled. `Commands.Parse` starts from the words of a line. `info` and `ls` return what they would print. cp's host file is returned as an output value, not written.
- Timestamps (i_atime, i_ctime, i_mtime) and the other inode fields mkdir and touch set are not modelled. Encoding keeps the bytes those fields had.
- The triple-indirect pointer i_block[14] is never followed, as in the source. Reads and frees stop after 12 + 256 + 65536 blocks.
- Only 1 KiB blocks are modelled. A group's bitmaps must fit in one block. `Engine.Open` refuses any other geometry as not EXT2, where the source would mount it.
- Only a directory's first block i_block[0] is read or edited. i_size bounds the walk in the source; the model reads the whole first block.
- DirEdits.GetLastEntry: assumes the bytes past the block end the walk. On a tiled block the source's loop steps from the last record to byte 1024, past its 1024-byte buffer, and adds the rec_len it reads there; whatever memory follows the buffer then decides whether the loop goes on and whether the sum grows. The walks of isLoaded, constroiCaminho, funct_ls, constroiListaDiretorios and removeEntry step past the buffer the same way (see the Findings row for nEXT2shell.cpp:112).
- DirEdits.ChildCount: counts the records of the block only. isLoaded's walk counts on past the block while the memory after its buffer holds a nonzero inode field, which can change rmdir's emptiness test.
- Engine.Records: refuses as CorruptDirectory a block whose records decode but do not fill all 1024 bytes, and with it mkdir, touch, rm, rmdir and rename of that directory. The source does not check this: getLastEntry, removeEntry and constroiListaDiretorios go on editing such a block, including the 1012-byte blocks its own rename leaves (see the Findings row for nEXT2shell.cpp:1869-1887).
- Directories.Encode: fills the bytes of each record past its name with zeros, and so a block rewritten by an edit or made by mkdir. removeEntry copies of each kept record only its name and padding up to the record's shortest length (name_len + roundLen(8 + name_len) bytes) into a block it mallocs; the bytes beyond that in a longer record, such as the last one, are uninitialised. mkdir's new block also starts as uninitialised memory. So a name that fills its record can be followed by other bytes than the model's, and Navigation.CString reads names on the model's bytes.
- Empty names are not treated specially: read_dir's -2 answer for them is not modelled.
- rm does not free the single- and double-indirect blocks themselves, as in the source.
- rm and rmdir do not adjust the free-block counters, as in the source.
- Engine.ReleaseInode: clears the inode's bit and counts the release in the inode's own group, persists that group's descriptor in its own slot, and keeps a cached descriptor of that group equal to it. rm clears the bit in the copy it last switched to and writes that copy into the current group's slot. rmdir clears the bit in the current group's bitmap and counts the release only in the cached descriptor (see Findings).
- Engine.RemoveFile: reads the inode from its own group's table, writes the inode's group's descriptor in its own slot and keeps the cache equal to it. rm reads the current group's table, writes into the current group's slot, and reloads the cache with the target group's descriptor as read before its writes, so the cache can even name another group than the current one (see Findings). Its block clearing is Engine.ClearBlockBit's, which skips a null pointer.
- Engine.RemoveDir: counts the release on disk in the inode's own group. rmdir counts it in the cached descriptor only, and writes the block group's descriptor, as read, into the current group's slot (see Findings).
- Session.Shell.ReleaseInode: follows Engine.ReleaseInode, so it differs from the source as that function does.
- Session.Shell.ClearBlock: follows Engine.ClearBlockBit, so a null pointer leaves the image as it was and a block's slot is (b-1) mod blocks_per_group.
- Session.Shell.Rm: follows Engine.RemoveFile, so it differs from the source as that function does.
- Session.Shell.Rmdir: follows Engine.RemoveDir, so it differs from the source as that function does.
- Engine.Run: keeps the current group and its descriptor on cat and cp. The source's getArquivoPorNome moves the group number to the named inode's group without loading its descriptor; Engine.ResolveGroupAsWritten models that (see Findings).
- Engine.Cat: returns the bytes only; the change of group number cat makes as written is Engine.ResolveGroupAsWritten.
- Engine.Copy: returns the bytes only; the change of group number cp makes as written is Engine.ResolveGroupAsWritten.
- Session.Shell.Cat: follows Engine.Run, so the current group is kept.
- Session.Shell.Cp: follows Engine.Run, so the current group is kept.
- Session.Shell.Query: follows Engine.Run, so the current group is kept on cat and cp.
- Session.Shell.Execute: follows Engine.Run, so the current group is kept on cat and cp, and rm, rmdir and rename differ from the source as their Engine functions do.
- Session.Shell.Rename: follows Engine.RenameEntry, so it refuses the four cases DirEdits.Rename refuses.
- Engine.LoadInode: reads an inode from its own group at the corrected in-group index. getArquivoPorNome, rm, rmdir and cd use `n % inodes_per_group`; see Findings.
- Engine.MakeDir: takes the inode, the block and both counters from group 0. The source reads the bitmaps from group 0 but decrements and persists the current group's descriptor.
- Engine.Touch: takes the bit, the inode record and the counters from group 0. The source scans the current group's bitmap and persists group 0's descriptor unchanged.
- Engine.MakeDir and Engine.Touch check for a full directory block and an overlong name before any write. The source marks the inode bit first and would then overrun the block.
- Engine.MakeDir: the parent's inode for ".." is the current position's inode. The source reads it from the "." record.
- Engine.RemoveFile and Engine.RemoveDir: a directory whose only record is the one removed is reported corrupt. A directory always holds "." and "..", so this does not arise on a sound image.
- Engine.ClearBlockBit: clears bit (b-1) mod blocks_per_group in the bitmap of block b's group. The source clears bit b of that bitmap; see Findings. The model also skips a null pointer, which rm meets for each hole of a sparse file inside i_size. The source does not skip it: trocaGrupoBlock wraps `0 - 1` to group (2^32-1)/blocks_per_group and reads a descriptor from a slot far past the table, which leaves the loaded copy as it was on a short image and loads a data block's bytes on a long one. unset_block_bitmap then clears bit 0 of the bitmap that copy names, which in group 0 is the slot of block 1, the superblock's. rewriteSuperAndGroup then writes that copy into slot (2^32-1)/blocks_per_group, extending a short image or overwriting a data block of a long one. Writes past the end of the image are not modelled (see the Findings row for nEXT2shell.cpp:1169).
- DirEdits.Rename: refuses four cases funct_rename does not check: a missing name (the source then uses an unset record position), a new name over 255 bytes (the source copies any length), fewer than two records, and no room for the renamed record. Like the source, it does not refuse a new name that already exists. It erases the first record with the old name but moves the last one, as the source does. The pointer vector the source builds is not modelled, only the records it yields.
- Navigation.Pwd: renders a path of any length. caminhoAtual callocs 100 bytes and strcat's "/" and every name into them with no bound, so a rendering of 100 bytes or more, with its closing NUL, overflows that heap buffer; what follows the overflow is not modelled.
- Navigation.Cd: a name with no record is refused as not found. The source then loads the inode of the record its walk stopped on.
- Navigation.Cd: pushes the record's own name of name_len bytes. The source pushes the name read as a C string, which runs into the next record when the name fills its record (see Findings). Past the block the source reads on in memory; Navigation.CString stops at the block's end.
- Navigation.StepPath: takes the record's own name, so it does not capture the overlong names the source can push.
- The C bit operations (`|`, `&`, shifts) are modelled as arithmetic on bits (`Bytes.SetBit`, `Bytes.ClearBit`). `Bitmaps.MaskClearsOneBit` shows the source's mask is every bit but x; no lemma ties the AND with that mask to ClearBit.
- Bytes.ByteAt: reads 0 outside the image, and Bytes.WriteAt drops bytes past its end, so no function needs a size precondition. The source's read past the end of the image file transfers nothing and leaves its buffer as it was; the 0 is a modelling choice.
- Concurrency and the file descriptor of the image are not modelled. The image is one sequence of bytes owned by the shell.
- ext2super.c, ext2super.cpp, pilha.cpp and shell.c are not part of this model.

## Findings

| source | as written | input that shows it | evidently intended | confidence | as-written member | corrected member |
|---|---|---|---|---|---|---|
| nEXT2shell.cpp:464 | the in-group index is `n % inodes_per_group` | inode n = inodes_per_group: index 0, and read_inode's (0 - 1) wraps to a record far past the table's end | index (n-1) % inodes_per_group + 1 | not executed | Layout.LastInodeOfGroupMissesTable | Layout.InGroupIndexSound |
| nEXT2shell.cpp:682 | find_free_inode and find_free_block return 0 when no slot is free | a bitmap block of 1024 bytes 0xFF: mkdir takes slot 0 again | report the bitmap full and refuse | not executed | Bitmaps.FullScanAliasesSlotZero | Bitmaps.Bitmap.Allocate |
| nEXT2shell.cpp:1433 | rmdir and rm clear bit n of the inode bitmap for inode n | inode 12 allocated at slot 11, then removed: slot 11 stays set and slot 12 is cleared | clear slot n-1, the one allocation set | not executed | Bitmaps.ReleaseAsWrittenMissesSlot | Engine.ReleaseInode |
| nEXT2shell.cpp:1500 | rm clears bit b of the block bitmap for block b | block 40 allocated at slot 39, then freed: slot 39 stays set | clear slot b-1, the one allocation set | not executed | Bitmaps.ReleaseAsWrittenMissesSlot | Engine.ClearBlockBit |
| nEXT2shell.cpp:112 | read_dir's walk runs until the cursor passes i_size; getLastEntry, isLoaded, constroiCaminho, funct_ls, constroiListaDiretorios and removeEntry walk the same way without stopping on a name | a name absent from a tiled block, and every tiled block for the walks that look for no name: the cursor moves to byte 1024, past the block | stop at the block's end and report not found | not executed | Directories.WalkMissOverrunsBlock | Directories.LookupFrom |
| nEXT2shell.cpp:122-125 | the walk steps by each record's rec_len | a record with rec_len 0 and a live inode: the loop never ends | treat rec_len 0 as a corrupt directory | not executed | Directories.ZeroRecLenPinsCursor | Directories.ParseFromWellFormed |
| nEXT2shell.cpp:1869-1887 | rename starts its count at 12 | a tiled block with "." and ".." and one file renamed: the records total 1012 | the moved record takes the block's remainder, so the records total 1024 | not executed | DirEdits.RenameLeavesGap | DirEdits.Rename |
| nEXT2shell.cpp:293-313 | cat and cp print before testing the count | a file of size 0: one byte is emitted | emit nothing for an empty file | not executed | Indirection.EmptyFileEmitsOneByte | Indirection.ReadContent |
| nEXT2shell.cpp:461 | cat and cp switch the shell's group number in getArquivoPorNome but load the descriptor into a local copy | cat of a file of group 1 while in group 0, then cd into a directory of group 1: trocaGrupo sees no change of group and cd reads the directory's inode from group 0's table | leave the group as it was, since cat and cp only read | not executed | Engine.CatThenCdReadsStaleTable | Engine.Run |
| nEXT2shell.cpp:1475 | rm reloads the cached descriptor from disk before its writes | a single group with c0 free inodes: rm f then mkdir d leaves c0 - 1 on disk | the cache holds the descriptor rm persisted, so the disk ends at c0 | not executed | Engine.RmThenMkdirLosesRelease | Engine.ReleaseInodeClears |
| nEXT2shell.cpp:1480 | rm reads the target's inode through a copy of the current group's descriptor | a file whose inode is in group 1, removed while in group 0: the record at the same index of group 0's table decides | read the inode from its own group's table | not executed | Engine.RmInspectsCurrentTable | Engine.RemoveFile |
| nEXT2shell.cpp:1433-1434 | rmdir counts the release in the cached descriptor and writes its other copy, switched to the block's group, into the current group's slot | a single group: the free-inode count on disk does not change; a directory of group 1 removed while in group 0: group 0's slot receives group 1's descriptor | write the inode's group's descriptor, with one more free inode, into its own slot | not executed | Engine.RmdirPersistsBlockGroup | Engine.RemoveDirLists |
| nEXT2shell.cpp:1169 | trocaGrupoBlock computes `(valor - 1) / s_blocks_per_group` unsigned, and rm calls it, then unset_block_bitmap and rewriteSuperAndGroup, for every pointer inside i_size | a sparse file with a null pointer inside i_size: the group wraps to (2^32-1)/s_blocks_per_group, bit 0 of the loaded block bitmap, block 1's slot in group 0, is cleared, and a descriptor is written far past the table | skip a null pointer, since a hole holds no block to free | not executed | Engine.NullPointerClearsSlotZero | Engine.ClearBlocksSkipsNull |
| nEXT2shell.cpp:228 | cd pushes the record's name read as a C string | a name "abcd" in a 12-byte record followed by the record of inode 13: the path gets "abcd" and byte 13 | push the record's name_len bytes | not executed | Navigation.PushedNameOverrunsRecord | Navigation.Cd |
