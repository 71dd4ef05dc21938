# nufs: a verified model of the storage stack

nufs keeps a small file system in a 1 MB image: 256 blocks of 4096 bytes, of which two are reserved,
and 254 inodes. A file is a chain of inodes with four block slots each, a directory is a file whose
content is a table of 64-byte entries, and the operations on paths sit on top. This project models the
four layers as one mutable disk and proves what the code keeps, one module per layer or concern:

- `specs.dfy`, `bitmap.dfy`, `disk.dfy`: the image. `Disk` is a class over the two bitmaps, the inode
  table and the bytes of all blocks, which the methods update in place. Its ghost field `own` lists every
  file as a `File` value (its chain, all its blocks, its size, link count and mode) and the place of every
  block and inode in use.
- `layout.dfy`, `sizing.dfy`, `moves.dfy`, `inode.dfy`, `accounting.dfy`: the chained-inode allocator.
  `Wf` ties the raw tables to the owners. `Grown` and `Shrunk` are closed forms of growing and shrinking
  a whole file, failures included, and `Grow` and `Shrink` are proved to compute them, block by block.
- `content.dfy`, `iteration.dfy`, `files.dfy`: the byte view. `View` maps every head inode to its link
  count, its mode and its bytes. The chunked block iteration refines operations on byte sequences.
- `slots.dfy`, `directory.dfy`: the directory table with its holes and stale names, which refines a
  finite map from names to inodes.
- `slist.dfy`, `path.dfy`: splitting and resolving paths.
- `namespace.dfy`, `invariant.dfy`, `creation.dfy`, `storage.dfy`, `runs.dfy`, `reachability.dfy`: the
  operations on paths, the invariant that ties link counts and the directory tree to the live entries, runs
  of calls, and that every file is reached by a path.
- `outcomes.dfy`, `results.dfy`: what callers see. Where paths lead after each operation, what it leaves
  alone, and which number it returns, with the bytes of slashes and dots and the error numbers written out.

Main results: a growth succeeds exactly when the free blocks and inodes suffice and its outcome is known
exactly in both cases; a shrink undoes a growth to the last bit of the bitmaps; every block in use is in
exactly one slot and free and used space always add up; a write is what its buffer says exactly when it
stays inside one block; the directory operations are insert, delete and lookup on a finite map; and after
any number of calls no entry dangles, every link count is right, the directories form a tree and some path
leads to every file; a new or moved name is reached by its path, a removed one leads nowhere, and `.` and `..`
lead where they should. The results about runs hold as long as no call shrinks a chain that ends in an empty
inode, which is so whenever no call has returned -ENOSPC (`Runs.NeverFullAllClear`).

Where the code and its comments disagree, the code is followed:

- `storage_truncate` says it returns 0 or an error; it returns the number of bytes added or taken away.
- `storage_mknod` returns a positive EEXIST for an existing target.
- `inode_free` has no return statement on success; the model returns 0.
- `inode_shrink` says only the head can have size 0; a growth that ran out of blocks can leave an empty
  last inode as well (`Sizing.EmptyTailIff`), and every shrink of such a file goes wrong
  (`Accounting.EmptyTailShrinkBreaks`). `Canonical` excludes that shape, and the operations that shrink
  require it.
- `storage_write_iter` ignores its offset (`Iteration.WriteIsExactIffConfined` says when that shows).
- `directory_add_entry` compares names before it looks for a hole: `Slots.AddInserts` and
  `Slots.AddRefusesLive` say exactly when an addition does what it is for. So creating or linking can return
  -EEXIST for a name that does not exist (`Slots.StaleHoleRefuses`).
- `directory_init` ignores that its entry may not fit: a new directory has its dots exactly when a block
  was free (`Storage.Mknod`).

## Model

| member | source | states |
|---|---|---|
| `Specs.BytesToBlocksIsCeiling` | block.c:32-35 | C's truncating division rounds a non-negative byte count up to whole blocks |
| `Specs.ShrinkGuard` | inode.c:254-262 | the shrink guard holds exactly when the last block stays if the last inode has a byte; on an empty last inode it is wrong exactly for requests up to 8190 |
| `Bitmap.BitmapGet` | bitmap.c:17-22 | returns the bit of the buffer seen as a sequence of booleans |
| `Bitmap.BitmapPut` | bitmap.c:25-40 | changes the given bit and no other bit of the buffer |
| `Bitmap.PutChangesOneBit` | bitmap.c:25-40 | or-ing or and-ing the mask into one byte changes one bit of the whole bitmap |
| `Bitmap.TakeLowest` | block.c:115-126 | the first clear bit of a scan heads the list of free bits, and setting it removes just that one |
| `Bitmap.NoneFree` | block.c:115-130 | a scan that finds no clear bit means that nothing is free |
| `Bitmap.FreeIsIncreasing` | block.c:115-126 | free bits are listed from the lowest on |
| `Bitmap.BitOrder` | bitmap.c:12-22 | bit i is in byte i / 8, the lowest bit of a byte first |
| `Layout.TotalSize` | inode.c:39-51 | following `next` sums the sizes of all inodes of the chain |
| `Layout.TotalSizeIsSize` | inode.c:39-51 | that sum is the size of the file |
| `Layout.LastChild` | inode.c:53-59 | following `next` ends at the last inode of the chain |
| `Layout.SecondToLastChild` | inode.c:61-74 | and one step earlier at the one before it |
| `Layout.GetBnum` | inode.c:290-311 | the slot in which the k-th block lies, four slots per inode, or -1 past the end of the chain |
| `Layout.GetBnumIsBlock` | inode.c:290-311 | in a well-formed file this is its k-th block, and -1 exactly when there is none |
| `Layout.ShapeFromSize` | inode.c:131-288 | shape is a function of size: all inodes but the last hold 16384 bytes, slot j is used exactly when the inode's bytes reach it, and the chain has max(1, ceil(size/16384)) inodes |
| `Sizing.TakenInRange` | inode.c:131-217 | a growth, failed or not, takes no more than is free, keeps blocks and inodes in step with the size, and stops short exactly when it does not fit |
| `Sizing.Grown` | inode.c:131-217 | the file after a growth: chain and blocks only gain at the end, the full size is reached if and only if blocks and inodes suffice, and a canonical file stays canonical on success |
| `Sizing.GrowthFillsTail` | inode.c:189-216 | a successful growth leaves no empty inode behind |
| `Sizing.EmptyTailIff` | inode.c:195-213 | a growth of a canonical file leaves an empty last inode exactly when it fails with the blocks running out at an inode boundary while an inode is free |
| `Sizing.EmptyTailHappens` | inode.c:195-213 | a concrete failed growth that links an inode of size 0 |
| `Sizing.FailedSlotGrowth` | directory.c:198-203 | a failed growth by one 64-byte entry leaves the size of a directory alone |
| `Sizing.Shrunk` | inode.c:241-288 | the file after a shrink by k has size max(0, t - k), prefixes of the old chain and blocks, and stays canonical |
| `Sizing.ShrinkUndoesGrow` | inode.c:131-288 | shrinking by what was grown gives the file back: size, chain and blocks |
| `Sizing.GrownInBlock` | inode.c:150-155 | the case in which the last block has room is a growth that takes nothing |
| `Sizing.GrownNoBlock` | inode.c:159-169 | without a free block nothing changes and the growth fails |
| `Sizing.GrownByBlock` | inode.c:159-186 | one block for the last inode and growing on by the rest is the whole growth |
| `Sizing.GrownNoNode` | inode.c:189-201 | without a free inode the growth fills the last inode and fails |
| `Sizing.GrownByNode` | inode.c:189-216 | filling the last inode, linking a new one and growing on is the whole growth |
| `Sizing.ShrunkInBlock` | inode.c:257-262 | a shrink that keeps the last block only changes the size |
| `Sizing.ShrunkByBlock` | inode.c:264-287 | giving up the last block, dropping an emptied inode and shrinking on is the whole shrink |
| `Moves.TakeBlock` | inode.c:171-174 | putting a free block into the next slot of the last inode keeps the table invariant |
| `Moves.GiveBlock` | inode.c:264-273 | clearing the last slot and its bitmap bit keeps the table invariant |
| `Moves.AddNode` | inode.c:85-89 | resetting a free inode and marking it used keeps the table invariant, as a new empty file |
| `Moves.LinkNode` | inode.c:203-204 | linking the new inode joins it to the chain and keeps the table invariant |
| `Moves.SplitTail` | inode.c:277-280 | an emptied last inode can be treated as a file of its own while the inode before it still points to it |
| `Moves.DropFile` | inode.c:116-117 | clearing the bit of an empty one-inode file keeps the table invariant |
| `Moves.EndChain` | inode.c:281 | ending the chain where the freed inode was restores the invariant for the file |
| `Moves.Relabel` | storage.c:309 | changing the link count or mode of a head keeps the table invariant |
| `Moves.FileSizeBound` | specs.h:11 | no file exceeds 254 inodes, so sizes stay far inside a 32-bit int |
| `Disks.Disk.constructor` | block.c:67-78 | a zeroed image with blocks 0 and 1 occupied and no files satisfies the invariant |
| `Disks.BlockAlloc` | block.c:111-131 | takes the lowest free block, or returns -ENOSPC exactly when there is none and changes nothing |
| `Disks.BlockFree` | block.c:134-140 | clears the block's bit and nothing else |
| `InodeOps.InodeAlloc` | inode.c:76-100 | takes the lowest free inode as a new empty file, or returns -ENOSPC exactly when there is none |
| `InodeOps.FindLast` | inode.c:142 | from any inode of a chain the walk ends at the last inode of its file |
| `InodeOps.Grow` | inode.c:131-217 | keeps the invariant, leaves exactly `Grown` and takes exactly its blocks and inodes off the free lists; the result is the size if they suffice and -ENOSPC otherwise; terminates |
| `InodeOps.GrowIntoSlot` | inode.c:159-187 | the same for the branch that fills a slot of the last inode |
| `InodeOps.GrowIntoChild` | inode.c:189-216 | the same for the branch that chains a new inode |
| `InodeOps.Shrink` | inode.c:241-288 | keeps the invariant and leaves exactly `Shrunk`, for every request including one larger than the file; terminates together with `Free` and `Clear` |
| `InodeOps.DropLastBlock` | inode.c:264-282 | frees the last block and, when it becomes empty, the last inode unless it is the head |
| `InodeOps.DropTail` | inode.c:277-282 | frees an emptied last inode and ends the chain before it |
| `InodeOps.Free` | inode.c:102-121 | removes exactly the given file, with all its blocks and inodes |
| `InodeOps.Clear` | inode.c:123-129 | shrinks a file to nothing |
| `Accounting.BlockUsedIffHeldOnce` | inode.c:76-288 | under the invariant a block is marked used if and only if a slot of an inode in use holds it, only one slot does, and blocks 0 and 1 stay marked |
| `Accounting.InodeUsedIffHeadOrNext` | inode.c:76-288 | an inode is marked used if and only if it heads a file or follows an inode in use, never both and never twice |
| `Accounting.SpaceConserved` | block.c:111-140 | free blocks and the blocks of all files add up to 254, and so do free inodes and all chains |
| `Accounting.FilesDetermineTables` | inode.c:131-288 | the files determine both bitmaps and every inode in use |
| `Accounting.ShrinkRestoresDisk` | inode.c:131-288 | a successful growth and a shrink by the same amount restore both bitmaps and the heads of all files |
| `Accounting.EmptyTailShrinkBreaks` | inode.c:254-267 | every shrink of a file whose last inode is empty goes wrong: up to 8190 bytes the guard makes the size of that inode negative, and such a table holds no files at all; beyond that the slot to free has index -1 |
| `Content.ViewAfterWrite` | inode.c:345-349 | writing memory inside one block of a file changes these bytes of that file and no byte of any other file |
| `Iteration.RunIterator` | storage.c:421-470 | what the read, write and fill iterators do to one chunk; the write iterator takes the beginning of its buffer |
| `Iteration.Locate` | inode.c:343-346 | the address computed for a file position holds the bytes of the file there |
| `Iteration.IterateChunk` | inode.c:345-349 | one iterator call affects exactly the chunk of the file it is given |
| `Iteration.ChunkExtendsRange` | inode.c:360-378 | a finished range and the next chunk make a longer finished range |
| `Iteration.BlockIter` | inode.c:324-382 | the chunks cover exactly the bytes from offset to min(offset + size, total), in order: a read puts that slice into the buffer, a fill or write changes that range of that file only |
| `Iteration.FileSize` | inode.c:337 | the total size is the number of bytes the file shows |
| `Iteration.Fill` | inode.c:400-407 | exactly the given range of the file becomes the fill byte |
| `Iteration.WriteIsExactIffConfined` | storage.c:465-470 | a write puts the buffer's bytes in place, whatever they are, if and only if the range lies in one block |
| `Files.GrowFile` | inode.c:131-217 | seen on bytes: a growth keeps every old byte and every other file, succeeds exactly when there is room, and on failure stops short of the requested size |
| `Files.ShrinkFile` | inode.c:241-288 | seen on bytes: a shrink keeps a prefix of the file and every other file |
| `Files.ShrinkRestoresBytes` | inode.c:131-288 | a successful growth and a shrink by the same amount restore every byte of every file |
| `Files.FreeFile` | inode.c:102-121 | seen on files: exactly this file is gone |
| `Files.AllocFile` | inode.c:76-100 | seen on files: a new empty regular file without links |
| `Slots.SameStringIsEqual` | directory.c:184 | comparing C strings finds equality of the name and the string in the 60-byte cell |
| `Slots.DecodeEncode` | directory.h:17-22 | a 32-bit inode number survives its four bytes |
| `Slots.EntryFormat` | directory.h:16-22 | an entry is a name, a zero, padding up to 60 bytes, and the inode as four bytes, lowest first |
| `Slots.SetInum` | directory.c:210 | storing four bytes in an entry changes the inode of that slot and no other slot |
| `Slots.SetName` | directory.c:148-150 | storing a name and its terminator changes the name of that slot and no other slot |
| `Slots.NamedIsLive` | directory.c:235-239 | as no slot shadows a live name, the search of a removal, which ignores liveness, hits the live entry |
| `Slots.AddInserts` | directory.c:168-211 | adding a name that is not live inserts it into the table if and only if it is short enough and the first hole does not still carry it; otherwise nothing changes, and ENAMETOOLONG and EEXIST tell the two reasons apart |
| `Slots.AddFillsFirstHole` | directory.c:178-211 | an added name goes into the first hole, or behind the last slot if there is none |
| `Slots.StaleHoleRefuses` | directory.c:184-187 | a concrete table that refuses a name it does not have |
| `Slots.AddRefusesLive` | directory.c:178-211 | adding a live name is refused if and only if no hole comes before its slot; otherwise a hole comes alive under its stale name |
| `Slots.RemoveDeletes` | directory.c:235-260 | removing a live name deletes it and leaves a live last slot or no slot |
| `Slots.RemoveKeepsPlaces` | directory.c:235-260 | a removal leaves every other slot in its place and drops nothing but holes from the end |
| `Slots.RemoveRefuses` | directory.c:263 | a name that no slot carries is answered with ENOENT and nothing changes |
| `Slots.TrimKeepsTable` | directory.c:266-294 | dropping the holes at the end keeps the table |
| `Slots.ListIsTable` | directory.c:296-316 | the list has every live name exactly once |
| `Slots.ListInSlotOrder` | directory.c:303-315 | the list follows the live slots from the first to the last |
| `Slots.OnlyDotsIsEmpty` | directory.c:47-67 | the emptiness scan over slots agrees with the table having nothing but dots |
| `Slots.AddKeepsTidy` | directory.c:178-211 | adding keeps the property that no name is shadowed and no dot leaves a hole |
| `Slots.RemoveKeepsTidy` | directory.c:235-260 | removing a proper name keeps that property |
| `Slots.MovedDirLosesDotDot` | directory.c:213-248 | whatever the table of a directory was, linking and then unlinking it leaves it without `..`; a `..` before any hole keeps naming the old parent in between |
| `Directory.EntryCount` | directory.c:20-27 | the number of slots in the content of a directory, without remainder |
| `Directory.EntryInBlock` | directory.c:76-80 | no 64-byte entry straddles two blocks |
| `Directory.GetEntry` | directory.c:69-81 | the address of an entry holds its 64 bytes of the directory's content |
| `Directory.LookupEntryNum` | directory.c:83-110 | finds the first live slot with the name, or reports -ENOENT exactly when the table has no such short name |
| `Directory.LookupInum` | directory.c:112-126 | looks the name up in the table |
| `Directory.LookupIsTable` | directory.c:83-126 | in a table as the operations leave it, lookup is that of a finite map, with ENOENT for a missing name |
| `Directory.IsEmpty` | directory.c:47-67 | true exactly when no live slot has a proper name |
| `Directory.List` | directory.c:296-316 | the names of all live slots, from the first slot to the last |
| `Directory.RenameEntry` | directory.c:128-154 | names a live entry, or returns the error for a long or a live name and changes nothing |
| `Directory.FindOpen` | directory.c:178-193 | stops at the first slot that has the name or is a hole |
| `Directory.GrowTable` | directory.c:195-207 | a grown directory has its old slots and one more; a failed growth keeps the slots |
| `Directory.InsertEntry` | directory.c:156-211 | leaves exactly the slots of `AddSlot`, with its error codes, or -ENOSPC exactly when a new slot is needed and there is no room |
| `Directory.AddEntry` | directory.c:156-221 | adds the entry and then, for a directory child, its `..`, whose failure is ignored |
| `Directory.Prune` | directory.c:266-294 | leaves exactly the slots without the holes at their end |
| `Directory.RemoveEntry` | directory.c:223-264 | leaves exactly the slots of `RemoveSlot`, after `..` was removed from a child directory |
| `Directory.DirMode` | directory.c:15 | the directory bit is set, the file bit cleared, and every other bit of the mode stays |
| `Directory.KindOfMode` | inode.h:8-9 | which bits of a mode make a directory and a file: 0100644 is a file and 0040755 a directory |
| `Directory.Init` | directory.c:9-18 | an empty file becomes a directory with its `.`, or without it exactly when no block is free |
| `SList.SlistExplode` | slist.c:83-111 | computes the parts of the text between delimiters |
| `SList.ExplodeIsTheSplit` | slist.c:83-111 | the parts are the unique delimiter-free list that, each part followed by the delimiter, gives back the text with a final delimiter |
| `SList.SlistCopy` | slist.c:47-65 | copies the first elements, or all of a shorter list |
| `Path.InumForComps` | path.c:21-69 | computes what a list of components resolves to |
| `Path.InumForPath` | path.c:71-85 | computes what a path resolves to |
| `Path.CompsPop` | path.c:87-110 | finds the last component that is not blank |
| `Path.ParentChild` | path.c:112-140 | computes the parent directory and the last component |
| `Path.ResolveComposes` | path.c:21-69 | resolving a list is resolving its beginning and going on from there, with the errors of a missing or non-directory middle |
| `Path.ResolveThroughParent` | path.c:112-140 | what resolves to a file has a parent directory whose entry for the last component is that file |
| `Outcomes.ChildResolves` | path.c:21-140 | `dir/name` leads where the table of the directory that `dir` leads to says, with the errors of `dir`, ENOTDIR and ENOENT; its parent is where `dir` leads, whether the name exists or not |
| `Outcomes.RootPath` | storage.c:54-60 | `/` leads to inode 0 |
| `Path.ResolveMonotone` | path.c:21-69 | a path that resolves still resolves to the same file after entries were added |
| `Path.ResolveFrame` | path.c:21-69 | resolution depends only on the tables of the directories |
| `Invariant.CreateKeepsNames` | storage.c:142-213 | creating keeps the invariant of link counts, tables and tree |
| `Invariant.LinkKeepsNames` | storage.c:215-272 | linking a regular file keeps it |
| `Invariant.UnlinkKeepsNames` | storage.c:274-322 | unlinking a file or an empty directory keeps it, and freeing at zero leaves no entry behind |
| `Invariant.SameNamesKeepsNames` | storage.c:382-514 | changing the content of files keeps it |
| `Invariant.RunKeepsNames` | storage.c:142-379 | the invariant holds all along every run of such steps |
| `Invariant.NoDanglingNoOrphan` | storage.c:142-379 | under the invariant every entry names an existing file and every link count but the root's is the number of entries, at least one |
| `Invariant.DirectoriesFormTree` | storage.c:348-379 | under the invariant every directory but the root has one entry, its `..` leads back to that entry's directory, and following `..` reaches the root |
| `Creation.Created` | storage.c:198-212 | a new node with its dots, entered in the parent and counted once, is one creation step |
| `Creation.Abandoned` | storage.c:202-208 | freeing the node of a failed creation leaves all names as they were |
| `Creation.Linked` | storage.c:255-271 | an added entry and a raised count are one link step |
| `Creation.Unlinked` | storage.c:297-321 | a removed entry and a lowered count, with the file freed at zero, are one unlink step |
| `Storage.StorageInit` | storage.c:22-40 | an image without files gets a root directory with its two dots; mounting an image with files changes nothing if its root has `..` before any hole, and keeps the invariant if `..` is added |
| `Storage.BlockInit` | block.c:52-57 | marking the metadata blocks changes nothing on a valid image |
| `Storage.InodeExists` | inode.c:12-17 | the bitmap tells whether the root is there |
| `Storage.InitRoot` | storage.c:31-39 | a new root has its two dots, and the invariant holds |
| `Invariant.DotDotKeepsNames` | storage.c:39 | changing the `..` of the root to the root keeps the invariant |
| `Storage.TargetEntry` | storage.c:284-292 | the entry that an operation edits is the one its path resolves through |
| `Storage.NewNode` | storage.c:163-181 | a new inode gets the mode |
| `Storage.MakeNode` | storage.c:163-188 | a new node with its mode and, for a directory, its `.` if a block is free |
| `Storage.EnterNode` | storage.c:190-212 | enters a new node with exact error codes, or frees it and leaves every name as it was |
| `Storage.Mknod` | storage.c:142-213 | creates the file or directory in the parent with link count 1; an existing target, a path through a regular file, a full disk, a long name and a first hole that still carries the name are each reported exactly when they occur; a directory has `.` and `..` exactly when a block was free |
| `Outcomes.MknodReached` | storage.c:193-212 | after a successful mknod its path leads to the new file |
| `Results.MadeFile` | storage.c:178-212 | a file made with mode 0100644 is reached, empty and has one name; a directory made with mode 0040755 is reached and has one name |
| `Results.MkdirDots` | directory.c:9-18 | a new directory holds `.` and `..`, which lead to itself and to its parent, exactly when a block was free, and nothing otherwise |
| `Results.MknodResult` | storage.c:142-213 | the number mknod returns in every case |
| `Storage.LinkPath` | storage.c:215-272 | a regular file gets one more name and one more link; a missing source, an existing target, a missing parent, a full disk, a long name and a first hole that still carries the name are each reported exactly when they occur, and then no name changed |
| `Outcomes.LinkReached` | storage.c:243-271 | after a successful link both paths lead to the file |
| `Results.LinkResult` | storage.c:215-272 | the number link returns in every case |
| `Storage.Unlink` | storage.c:274-322 | removes exactly the entry, lowers the count and frees the file with its last name |
| `Outcomes.UnlinkGone` | storage.c:274-322 | after unlink or rmdir the path leads nowhere |
| `Storage.Rmdir` | storage.c:348-379 | removes an empty directory, and reports a missing, non-directory or non-empty target without any change |
| `Results.RemoveResults` | storage.c:274-379 | the numbers unlink and rmdir return in every case |
| `Storage.Rename` | storage.c:324-346 | on success the file has the new name instead of the old one and the same content and link count; on failure no name has changed |
| `Outcomes.RenameMoved` | storage.c:324-346 | after a successful rename the new path leads to the file and the old one nowhere |
| `Results.RenameResult` | storage.c:324-346 | a rename that fails returns what its link returns |
| `Storage.OldPathsStay` | storage.c:336 | after the link of a rename the old path still leads to the same file through the same parent |
| `Storage.TruncateFile` | storage.c:401-418 | the content becomes its first n bytes, or itself followed by zeros; fails exactly when there is no room |
| `Storage.GrowZero` | inode.c:219-239 | appends zeros, or fails exactly when there is no room and keeps the old bytes |
| `Storage.Truncate` | storage.c:382-419 | the same by path, and no other file changes |
| `Results.TruncateResult` | storage.c:382-419 | the number truncate returns in every case |
| `Storage.ReadFile` | storage.c:457-462 | the buffer begins with the bytes from offset that the file has, and the file system is unchanged |
| `Storage.Read` | storage.c:428-463 | the same by path, with its error codes |
| `Storage.WriteFile` | storage.c:501-513 | the range holds what the iterator puts there, a gap before it what the blocks held, every other old byte stays, and it fails exactly when there is no room |
| `Storage.Write` | storage.c:472-514 | the same by path, with its error codes, and no other file changes |
| `Results.OnlyDirsRefused` | storage.c:451-498 | reading and writing refuse directories with EISDIR and files of mode 0100644 never; a write to a file returns its size, or ENOSPC without room |
| `Storage.ReadAfterWrite` | storage.c:428-514 | after a successful write that stays in one block, a read of its range returns the bytes written |
| `Storage.ReadBesideWrite` | storage.c:428-514 | after any successful write, a read beside its range or of another file returns what it returned before |
| `Storage.WritesRefinePatches` | storage.c:465-514 | any run of successful writes confined to blocks leaves the content that patching a byte sequence gives |
| `Storage.ListPath` | storage.c:516-542 | lists every entry of the directory once, from the first slot to the last |
| `Runs.CallIsSteps` | storage.c:142-514 | every call, as its contract describes it, is a step of the name space, a rename two |
| `Runs.CallsKeepNames` | storage.c:142-514 | the invariant holds after any number of calls, none of which shrank a chain that ends in an empty inode |
| `Runs.NeverFullNoStubs` | inode.c:131-217 | if no call returned -ENOSPC, the invariant holds and no chain ends in an empty inode after any number of calls |
| `Runs.NeverFullAllClear` | inode.c:241-288 | so no call of such a run shrinks a chain that ends in an empty inode |
| `Runs.Dispatch` | nufs.c:54-185 | answering a request with its storage operation keeps the invariant and has the effect that the runs speak of |
| `Runs.CallsLeaveNoDangling` | storage.c:142-514 | in such runs entries name existing files and link counts count them, after any number of calls |
| `Runs.CallsKeepTree` | storage.c:142-514 | in such runs directories have one entry each after any number of calls, and `..` leads to the root if every mkdir found a block |
| `Results.CallFrame` | storage.c:142-514 | a call changes no file but the ones its paths lead to and their parents, whether it succeeds or not |
| `Results.ContentFrame` | storage.c:142-514 | a call changes the content of a regular file only by unlinking, truncating or writing it |
| `Results.CountIsNames` | storage.c:142-379 | a link count is the number of entries besides `.` and `..` that name the file |
| `Results.DotsLead` | directory.c:213-217 | behind a directory, `.` leads to itself and `..` to the only directory that names it, and to the root from the root |
| `Results.DotsLeadInRuns` | storage.c:142-514 | so it is after any number of calls if every mkdir found a block |
| `Reachability.EveryFileHasPath` | path.c:21-85 | under the invariant some path leads to every file |
| `Reachability.NoSpaceLost` | block.c:111-140 | on a mounted disk all space is free or belongs to files that some path leads to |

## Left out

- The bitmaps and the inode table are separate arrays. In the image the inode table starts 31 bytes after
  the start of the inode bitmap (254 / 8, not the 32 of the comment at specs.h:16), so bits 248 to 253 share
  the first byte of inode 0 there; the theorems are about an image without that overlap.
- Requests above `MAX_REQUEST`, whose intermediate sums leave a 32-bit int. `storage_write` computes its
  growth in unsigned arithmetic and stores it in an int; for a range inside the file the stored value is
  negative and growing does nothing, which the model writes as a maximum with zero.
- Iteration.BlockIter: requires the range to start inside the file, because the code computes a block number
  of -1 past the end.
- Storage.Read: requires the offset not to exceed the size of the file, because the code computes a negative
  count past the end.
- InodeOps.Shrink: requires a canonical file, because the code goes wrong on an empty last inode; so do the
  operations built on it.
- Storage.Truncate: requires that a file that is cut has no empty last inode; cutting or growing a directory
  is described but need not keep the names.
- Storage.Unlink: a directory only when it is empty, as `storage_rmdir` calls it, and the chains that shrink
  have no empty last inode.
- Storage.Rmdir: the chains that shrink have no empty last inode.
- Storage.LinkPath: once a link is due, the source is a regular file and the parent of the new path no
  regular file. The code asserts the latter at storage.c:253 and aborts on `link("/a", "/file/x")`, although
  the comment above it calls that impossible. `Slots.MovedDirLosesDotDot` shows what linking and unlinking a
  directory does to its `..`.
- Storage.Rename: the same, and the parent of the old name has no empty last inode.
- Storage.Mknod: a path that leads nowhere has to name an entry of an existing directory; the code aborts on
  a missing parent.
- Storage.StorageInit: an image with files satisfies the invariant; if a hole comes before the `..` of its
  root, what happens to the slots is described but the names need not be kept.
- Paths whose last component is blank, `.` or `..` are no targets of creating, linking and removing.
- Directory.RemoveEntry: requires that the first slot with the name is live, because the code otherwise
  fetches inode -1; the invariant guarantees it for every name that resolves.
- `inode_grow` and `inode_shrink` are split into methods, one per branch; `nodep` pointers are inode numbers,
  and the iterator function pointers are a datatype with one method that runs it.
- String lists are sequences: `strdup`, `malloc`, `slist_free` and all lifetimes are not modelled; `strcmp`,
  `strcpy`, `memcpy` and `memset` are written out on byte sequences and arrays.
- `mmap` and its relatives, `storage_clear`, `inode_end`.
- `storage_access`, `storage_stat`, `directory_populated_entry_count`, all printing, `util.c`, and `nufs.c`
  apart from its choice of a storage operation.
