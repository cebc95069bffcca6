# A Dafny model of the kernel's core state machines

The repository is a small Unix-like kernel in Rust with its user library and an offline
tool for Minix v1 disk images. This project models the parts of it that change state in
ways that are hard to get right, in imperative Dafny where the Rust code is imperative, and
proves each against a simple specification.

- **The image engine** (`Layout`, `Bits`, `Bitmaps`, `ZoneTree`, `ZoneSteps`, `RawImage`,
  `Image`, `CreateLayout`). An image is a flat array of 1024-byte blocks. Inode records,
  the two bitmaps and zones are regions of it. Every pointer position of every inode has a
  name (`ZoneTree.Ptr`), and the ghost map `own` is the exact inverse of all pointers, so
  "a zone bit is set exactly when one pointer reaches the zone" is one predicate
  (`ZoneSteps.Good`) that every method keeps. Contents are a flat byte sequence, and a
  write has an exact price in zones.
- **Directories and paths** (`Paths`, `Namespace`, `NamespaceLaws`, `Directories`, `ImageOps`). The decoded
  directories of an image form a map from inode numbers to nodes (`Tree()`). `TreeOK` says
  that it is a tree rooted at inode 1, that `.` and `..` are right, and that every link
  count is the number of entries naming the inode. Each path operation is proved to do one
  named change to that tree and to keep `TreeOK`.
- **The kernel's files, inode cache and buffer cache** (`FlatFiles`, `KernelFile`,
  `InodeCache`, `InodeRuns`, `BufferCache`). The kernel's sparse reads and writes work on the same zone
  trees as the image engine and are proved to behave like a flat byte sequence with
  zero-filled holes. The two caches are proved to hide themselves.
- **Memory** (`Frames`, `Cow`, `AddressSpaces`). Copy-on-write address spaces over
  reference-counted frames refine a machine that copies every page at once.
- **The user heap** (`FreeLists`, `Heap`). A first-fit, coalescing free list in linked
  nodes, with growth by `brk`.
- **Sleeping and locks** (`WaitQueues`, `Locks`). Tasks interleave at the points where they
  give up the processor. Chains of sleepers hang off queue slots or off woken tasks.
- **Scheduling and lazy FPU switching** (`Scheduler`, `Fpu`).

Conventions. `Valid()`, `Ready()` and `Inv` are the invariants. A `Snap` is a ghost copy of
an image's pointers and blocks. `spare` is the number of free data zones, and `lost` holds
the allocated zones that no pointer reaches. `Reads()` maps each user page to its
contents. Time stamps, ownership and permission bits are parameters. A disk block, a page
and an FPU image are opaque values where their bytes do not matter.

Where the code surprises:

- The layout loop of image creation never ends for some sizes (`CreateLayout.LoopEnds`).
- A rename onto the same path succeeds even if nothing is there (`ImageOps.MinixImage.RenamePath`).
- A write of which no byte fits still sets the size to the offset
  (`KernelFile.KernelInode.WriteAt`).
- After `execve` the FPU invariant holds exactly when the task-switched flag was set
  (`Fpu.Machine.ResetForExec`).
- A name with a NUL byte or, joined in memory, with a slash does not read back
  (`Layout.EntryNameRoundTrip`, `Paths.JoinReadsBack`).
- Link counts saturate at 255 and then miscount: exactly when is proved for making a directory,
  linking and renaming (`Namespace.SaturationMiscounts`, `LinkSaturation`, `RenameSaturation`).
- A link that runs out of space has already raised the file's count and emptied the directory it
  was to enter (`ImageOps.MinixImage.LinkPath`); removing never runs out in images the engine made.
- A write that runs out of zones can lose one for good, with exactly 8, 521 or 522 + 513k zones
  at hand (`Image.Image.WriteInodeContents`, `ZoneSteps.StrandedCounts`).
- The user heap writes free nodes and so reads them at addresses that are no multiple of the word
  once a request has an odd size (`Heap.OddSizeStrays`); which requests do is exact
  (`Heap.BrkAllocator.Alloc`).
- With all runnable tasks at counter and priority zero, selection would never end
  (`Scheduler.EndlessSelection`). It does not come to that: tasks start at priority 15, a fork
  inherits the parent's, and `nice` lowers a priority only by less than it is
  (`Scheduler.PrioritiesStay`).

## Model

| member | source | states |
|---|---|---|
| Layout.InodeRoundTrip | miniximg/miniximg-core/src/layout.rs:230-276 | Decoding an encoded inode record gives the record back, whatever bytes follow. |
| Layout.InodeBytesRoundTrip | miniximg/miniximg-core/src/layout.rs:230-276 | Every 32-byte slot decodes, and encoding the result gives the same 32 bytes: the record loses nothing. |
| Layout.BlocksEnough | miniximg/miniximg-core/src/fs.rs:139-167 | A number of blocks holds so many bytes, inode records or bitmap bits exactly when it is no less than the rounded quotient. |
| Layout.ReadsLittleEndian | miniximg/miniximg-core/src/layout.rs:346-359 | The words read at an offset are the little-endian numbers of their two or four bytes. |
| Layout.InodeOnDisk | miniximg/miniximg-core/src/layout.rs:230-276 | Each field of a record lies at its offset, low byte first, both when a record is encoded and when 32 bytes are decoded. |
| Layout.EntryOnDisk | miniximg/miniximg-core/src/layout.rs:306-327 | The number of an entry comes first, low byte first, then the fourteen bytes of its name, both ways. |
| Layout.EntriesInOrder | miniximg/miniximg-core/src/fs.rs:1244-1270 | Entry k of a directory lies at sixteen times k. |
| Layout.TypeDigits | miniximg/miniximg-core/src/layout.rs:146-156 | The five types are exactly the mode words with the high four bits 8, 4, 1, 6 and 2. |
| Layout.WriteU16 | miniximg/miniximg-core/src/layout.rs:362-364 | Writes the two bytes of the number at the offset, low byte first, and no other byte. |
| Layout.EntryNameRoundTrip | miniximg/miniximg-core/src/layout.rs:288-344 | A name that fits in 14 bytes reads back from its slot if and only if it holds no NUL byte. |
| Layout.EntriesRoundTrip | miniximg/miniximg-core/src/layout.rs:306-327 | A directory encoded entry by entry decodes to the same entries. |
| Layout.WriteU32 | miniximg/miniximg-core/src/layout.rs:369-372 | Writes the four bytes of the number at the offset, low byte first, in place, and no other byte. |
| Layout.EncodeTable | miniximg/miniximg-core/src/fs.rs:1192-1204 | Each of the 512 entries lies at twice its index, low byte first, and reads back as the table's entry. |
| Bits.TrailingZeros | kernel/src/fs/bitmap.rs:76-92 | The result is the index of a set bit below which no bit is set. |
| Bits.CountOnesBelow | kernel/src/fs/bitmap.rs:104-122 | The ones of a word are as many as its set bit positions. |
| BitScan.Bitmap.Set | miniximg/miniximg-core/src/bitmap.rs:73-80 | Exactly this identifier joins the used ones: byte and mask arithmetic touches one flag. |
| BitScan.Bitmap.Clear | miniximg/miniximg-core/src/bitmap.rs:82-89 | Exactly this identifier leaves the used ones. |
| BitScan.Bitmap.Alloc | miniximg/miniximg-core/src/bitmap.rs:91-102 | Marks and returns the lowest free identifier; none is returned exactly when all in range are used, and then no block changes. |
| BitScan.Bitmap.CountFree | miniximg/miniximg-core/src/bitmap.rs:104-110 | The size of the range less the number of used identifiers. |
| BitSpec.CountSetIsCardinality | miniximg/miniximg-core/src/bitmap.rs:104-110 | The number of set flags is the cardinality of the set of marked identifiers. |
| WordScan.Bitmap.Alloc | kernel/src/fs/bitmap.rs:76-92 | The scan over 64-bit words, with complement and trailing zeros, marks the first clear flag of the range, or nothing when there is none. |
| WordScan.Bitmap.Dealloc | kernel/src/fs/bitmap.rs:95-102 | Clears the one flag of the identifier in its word. |
| WordScan.Bitmap.CountFree | kernel/src/fs/bitmap.rs:104-122 | Whole words by their ones and a masked tail give the number of clear flags in range. |
| WordScan.FirstClearInWord | kernel/src/fs/bitmap.rs:76-92 | The first word with a clear bit holds the first clear flag at its lowest clear bit. |
| BitmapAgreement.SameFlags | kernel/src/fs/bitmap.rs:30-35 | Equal bytes, read as bytes and as little-endian words, have equal flags at every position. |
| BitmapAgreement.SameFlagsSameBytes | kernel/src/fs/bitmap.rs:125-148 | Conversely, equal flags mean equal bytes. |
| BitmapAgreement.RunAgrees | kernel/src/fs/bitmap.rs:76-102 | Over the same bytes, any run of allocations and releases hands out the same identifiers from both scans, each the first clear flag at that time, and leaves the same bytes, whose flags are those of the operations one after another. |
| BitmapAgreement.HeldUntilGiven | kernel/src/fs/bitmap.rs:76-102 | In any run of allocations and releases an identifier that was handed out stays marked and is not handed out again until it is given back. |
| BitmapAgreement.CountAgrees | kernel/src/fs/bitmap.rs:104-122 | Over the same bytes, both scans count the identifiers in range that are not used. |
| ZoneTree.OwnedMeansOnePointer | miniximg/miniximg-core/src/fs.rs:1092-1127 | The ownership map says what it should: no two pointers of any inodes share a zone, and a zone is owned if and only if some pointer reaches it. |
| ZoneTree.ZoneInWords | miniximg/miniximg-core/src/fs.rs:1092-1127 | The zone of a logical block in the 16-bit words of record and tables: seven in the record, 512 in the single-indirect table, then 512 in each table that the double-indirect one lists, in order. |
| ZoneTree.TableWriteFrame | miniximg/miniximg-core/src/fs.rs:1192-1204 | Writing one indirect table changes no pointer but those under that table. |
| ZoneTree.DataWriteFrame | miniximg/miniximg-core/src/fs.rs:989-992 | Writing a block that is no table changes no pointer of any inode. |
| ZoneSteps.StoredContents | miniximg/miniximg-core/src/fs.rs:1020-1055 | With every block stored at its place and the size set, the contents of the inode are the data. |
| ZoneSteps.StoredPastZero | miniximg/miniximg-core/src/fs.rs:1034-1053 | What a write leaves in mapped blocks past the size is zero. |
| ZoneSteps.GrowsKeepsOthers | miniximg/miniximg-core/src/fs.rs:1130-1177 | While one inode's tree grows, every other inode keeps its record and its contents. |
| ZoneSteps.ZoneCostStep | miniximg/miniximg-core/src/fs.rs:1130-1177 | The closed formula B + [B>7] + [B>519](1 + ceil((B-519)/512)) rises with each further block by exactly the zones that block takes. |
| ZoneSteps.StrandedCounts | miniximg/miniximg-core/src/fs.rs:1029-1041 | The zone counts that are no price of a whole number of blocks, with which a write that does not fit loses one zone, are exactly 8, 521 and 522 + 513k. |
| ZoneSteps.StrandedAt | miniximg/miniximg-core/src/fs.rs:1029-1041 | A write stops at the one block that its zones cover only in part, and a zone is lost there if and only if they cover a part of it. |
| RawImage.InodePositionInjective | miniximg/miniximg-core/src/fs.rs:910-919 | Two inode numbers have the same block and slot if and only if they are equal. |
| RawImage.InodeAddress | miniximg/miniximg-core/src/fs.rs:910-919 | The record of inode n begins 32 (n - 1) bytes behind super block and bitmaps. |
| RawImage.InodeBlockInTable | miniximg/miniximg-core/src/fs.rs:910-919 | The blocks of inode records lie between the bitmaps and the data zones. |
| RawImage.RawImage.WriteInode | miniximg/miniximg-core/src/fs.rs:899-908 | Over the flat blocks, one record changes; all other records, the zones and the header stay. |
| RawImage.RawImage.WriteZone | miniximg/miniximg-core/src/fs.rs:989-992 | Over the flat blocks, one data zone changes; records and header stay. |
| RawImage.RawImage.WriteHeader | miniximg/miniximg-core/src/fs.rs:928-945 | Over the flat blocks, a run of header blocks changes; records and zones stay. |
| RawImage.SuperRoundTrip | miniximg/miniximg-core/src/layout.rs:164-192 | The super block of a laid-out image passes the checks of opening and reads back. |
| RawImage.SuperOnDisk | miniximg/miniximg-core/src/layout.rs:182-192 | Each field of the super block lies at its offset, low byte first, with the maximal file size and the magic number 0x137F; the rest of the block is zero. |
| Image.Image.Format | miniximg/miniximg-core/src/fs.rs:167-205 | A formatted image meets the invariant, with only the reserved bits set and all zones spare. |
| Image.Image.Reopen | miniximg/miniximg-core/src/fs.rs:59-118 | Opening the image from its blocks between any two operations gives the geometry and both bitmaps as they are in memory. |
| Image.Image.AllocateZone | miniximg/miniximg-core/src/fs.rs:964-973 | Takes one free zone, zeroed; it fails only when none is spare, and then changes nothing. |
| Image.Image.FreeZone | miniximg/miniximg-core/src/fs.rs:975-982 | Exactly this zone becomes free; zone 0 is skipped. |
| Image.Image.LookupDataZone | miniximg/miniximg-core/src/fs.rs:1092-1127 | Over all three levels, finds the zone of a logical block, 0 for a hole, and rejects blocks beyond the format. |
| Image.Image.SetDataZone | miniximg/miniximg-core/src/fs.rs:1130-1177 | Afterwards the block has the zone, every pointer that was set is as before, and exactly the positions on the block's path were added; it fails exactly for want of table zones or beyond the format, and says how many spare zones went. |
| Image.Image.FreeInodeData | miniximg/miniximg-core/src/fs.rs:1057-1089 | All zones the inode owned, tables included, and no others become free; the record is emptied. |
| Image.Image.ReadInodeContents | miniximg/miniximg-core/src/fs.rs:999-1018 | Returns the contents with holes as zeros, for every size within the format. |
| Image.Image.WriteBlocks | miniximg/miniximg-core/src/fs.rs:1029-1041 | Stores all blocks if and only if the spare zones cover their price, and uses exactly that many; other inodes' trees are untouched throughout. |
| Image.Image.WriteInodeContents | miniximg/miniximg-core/src/fs.rs:1020-1055 | Succeeds if and only if the free zones, with the old data released, cover the price; then the contents are the data, past the size all is zero, exactly the price is used and nothing leaks; otherwise the inode is empty, and one zone is lost if and only if those zones are the price of no whole number of blocks. Either way it owns exactly what its size costs, and all other inodes keep record, contents and zones. |
| Image.Image.AllocateInodeNumber | miniximg/miniximg-core/src/fs.rs:947-955 | Takes the lowest free number; fails exactly when all are used. |
| Image.Image.FreeInodeNumber | miniximg/miniximg-core/src/fs.rs:957-962 | Exactly this number becomes free and its record zero. |
| CreateLayout.LoopEnds | miniximg/miniximg-core/src/fs.rs:143-167 | The layout loop ends if and only if N is no positive multiple of 8193, then within three passes; it fails exactly when N is at most 1, and otherwise rests at the smallest zone bitmap that covers its bits. |
| CreateLayout.Swings | miniximg/miniximg-core/src/fs.rs:149-167 | For a positive multiple of 8193 the loop alternates between the same two sizes for ever. |
| CreateLayout.SettledIsSmallest | miniximg/miniximg-core/src/fs.rs:160-166 | A resting point is the smallest covering size; that size is a resting point but for one N in 8193. |
| CreateLayout.ChooseLayout | miniximg/miniximg-core/src/fs.rs:122-170 | The checks and the loop: accepts exactly whole blocks up to 65535, with at least one inode, that exceed what super block, bitmaps and inode table take and three more, and yields a consistent geometry with the smallest zone bitmap. |
| Paths.Parse | miniximg/miniximg-core/src/path.rs:21-48 | The component loop returns the components of the text or the first fault. |
| Paths.ParseAccepts | miniximg/miniximg-core/src/path.rs:21-48 | A text parses if and only if it is the text of a valid path. |
| Paths.OneMoreComponent | miniximg/miniximg-core/src/path.rs:21-48 | A component behind a slash is taken, whatever the path before it, exactly when it has 1 to 14 bytes and is neither dot name; otherwise the text is refused with the named error. This settles every text. |
| Paths.ParsedDisplay | miniximg/miniximg-core/src/path.rs:95-104 | A valid path reads back from its text. |
| Paths.DisplayParsed | miniximg/miniximg-core/src/path.rs:21-48 | Text that parses is normalized: it is the text of what it parses to. |
| Paths.JoinParent | miniximg/miniximg-core/src/path.rs:61-92 | Joining a name and taking the parent and file name are inverse, both ways. |
| Paths.JoinReadsBack | miniximg/miniximg-core/src/path.rs:77-92 | Joining does not check for slashes: the joined path reads back from its text if and only if the name has none. |
| Namespace.PathUnique | miniximg/miniximg-core/src/fs.rs:738-762 | In a tree the path to a directory is unique. |
| Namespace.RootAloneOK | miniximg/miniximg-core/src/fs.rs:205-236 | The tree of a new image, the root alone, meets the invariant. |
| Namespace.CreatedOK | miniximg/miniximg-core/src/fs.rs:432-450 | Creating a file keeps the tree invariant. |
| Namespace.MadeDirOK | miniximg/miniximg-core/src/fs.rs:1272-1308 | Creating a directory keeps the tree invariant, dots and link counts included. |
| Namespace.SaturationMiscounts | miniximg/miniximg-core/src/fs.rs:1304-1306 | With link counts capped at 255, making a subdirectory keeps the invariant if and only if the parent's count was below 255. |
| Namespace.LinkSaturation | miniximg/miniximg-core/src/fs.rs:727 | With link counts capped at 255, one more name for a file keeps the invariant if and only if its count was below 255. |
| Namespace.RenameSaturation | miniximg/miniximg-core/src/fs.rs:668-687 | With link counts capped at 255, a rename that the path test lets through keeps the invariant unless a directory comes to a new parent whose count is 255, and only then. |
| Namespace.CrowdedOK | miniximg/miniximg-core/src/fs.rs:1272-1308 | Trees whose root has any number of links from 2 to 256 exist, so a full count of 255 does occur. |
| Namespace.AliasedOK | miniximg/miniximg-core/src/fs.rs:692-735 | Trees with a file of any number of names from 1 to 255 exist. |
| Namespace.LinkedOK | miniximg/miniximg-core/src/fs.rs:692-735 | One more name and one more link keep the tree invariant. |
| Namespace.UnlinkedOK | miniximg/miniximg-core/src/fs.rs:539-563 | One name and one link less, and the file gone with its last name, keep the tree invariant. |
| Namespace.RemovedDirOK | miniximg/miniximg-core/src/fs.rs:566-604 | Removing an empty directory keeps the tree invariant. |
| Namespace.MovesReached | miniximg/miniximg-core/src/fs.rs:1580-1586 | When the old path is no prefix of the new parent's path, every directory is still reached from the root after the move. |
| Namespace.MovedUnderItself | miniximg/miniximg-core/src/fs.rs:1580-1586 | After a move below itself, no path from the root leads into the moved directory any more. |
| Namespace.RenamedDirOK | miniximg/miniximg-core/src/fs.rs:607-689 | Renaming a directory keeps the tree invariant if and only if the old path is no prefix of the new parent's path: the lexical test is enough, and needed. |
| Namespace.RenamedOK | miniximg/miniximg-core/src/fs.rs:607-689 | Any rename that the path test lets through keeps the tree invariant, every `..` and every link count. |
| Namespace.MadeDirExtends | miniximg/miniximg-core/src/fs.rs:454-483 | Making a directory adds its path and no other; all other paths resolve as before. |
| Namespace.CreatedExtends | miniximg/miniximg-core/src/fs.rs:393-452 | Creating a file adds its path and no other; all other paths resolve as before. |
| Namespace.MadeCouldBe | miniximg/miniximg-core/src/fs.rs:454-483 | A path that could be made had no file on its way. |
| NamespaceLaws.UnlinkedPaths | miniximg/miniximg-core/src/fs.rs:539-563 | After a file was removed its path leads nowhere, every other path leads where it did, and every file that is left has the data it had. |
| NamespaceLaws.RemovedPaths | miniximg/miniximg-core/src/fs.rs:566-604 | The same for an empty directory. |
| NamespaceLaws.LinkedPaths | miniximg/miniximg-core/src/fs.rs:692-735 | After a link the new path leads to the file, every other path where it did, and no file's data changed. |
| NamespaceLaws.RenamedPaths | miniximg/miniximg-core/src/fs.rs:607-689 | After a rename every path below the new name leads where it led below the old one, nothing is below the old one, every other path leads where it did, and no file's data changed. |
| Directories.FindSlot | miniximg/miniximg-core/src/fs.rs:1325-1334 | The first empty slot, or the end: no slot before it is empty. |
| Directories.PutNames | miniximg/miniximg-core/src/fs.rs:1310-1335 | Filling a free slot adds exactly one name to what the array names. |
| Directories.DropNames | miniximg/miniximg-core/src/fs.rs:1337-1373 | Emptying a slot removes exactly one name. |
| ImageOps.MinixImage.Create | miniximg/miniximg-core/src/fs.rs:167-238 | A new image is a tree with the root alone, nothing is lost, no directory has holes, and its blocks hold the super block and both bitmaps. |
| ImageOps.MinixImage.ReadDirectoryEntries | miniximg/miniximg-core/src/fs.rs:1219-1242 | Returns entries that name exactly what the directory names, as many as its size says. |
| ImageOps.MinixImage.WriteDirectoryEntries | miniximg/miniximg-core/src/fs.rs:1244-1270 | The directory names exactly what the new array names, if and only if its zones and the spare ones cover the new size; all other nodes stay. |
| ImageOps.MinixImage.LookupChild | miniximg/miniximg-core/src/fs.rs:1206-1217 | Exactly the entry of that name, if any. |
| ImageOps.MinixImage.NeverShort | miniximg/miniximg-core/src/fs.rs:1020-1054 | A directory without holes can always be rewritten at its size, and one entry more takes at most three spare zones. |
| ImageOps.MinixImage.AddDirectoryEntry | miniximg/miniximg-core/src/fs.rs:1310-1335 | Adds one name; each error occurs only for its cause, and a lack of space leaves the directory without entries. |
| ImageOps.MinixImage.RemoveDirectoryEntry | miniximg/miniximg-core/src/fs.rs:1337-1373 | Removes one name and returns its inode; each error occurs only for its cause, and a directory without holes never lacks space for it. |
| ImageOps.MinixImage.DirectoryIsEmpty | miniximg/miniximg-core/src/fs.rs:1375-1387 | True exactly when there are no names but the dots. |
| ImageOps.MinixImage.UpdateDirectoryParent | miniximg/miniximg-core/src/fs.rs:1389-1412 | `..` names the new parent and nothing else changes. |
| ImageOps.MinixImage.DecrementLinkOrFree | miniximg/miniximg-core/src/fs.rs:1414-1423 | One link less, or with the last link the inode is gone with its zones and number. |
| ImageOps.MinixImage.CreateDirectory | miniximg/miniximg-core/src/fs.rs:1272-1308 | Makes a directory with a number that was free, the parent's count saturating; each error occurs only for its cause, and any but a lack of space leaves the tree as it was. Space lacks only with no free number, no spare zone, or too few for the parent to be rewritten longer after one was taken; with directories without holes, only with no free number or less than 4 spare zones. Then the tree is as it was, has one nameless number more, or has the parent emptied. |
| ImageOps.MinixImage.ResolvePath | miniximg/miniximg-core/src/fs.rs:738-762 | Finds what the path leads to in the tree, and fails exactly when it leads nowhere. |
| ImageOps.MinixImage.MkdirAll | miniximg/miniximg-core/src/fs.rs:454-483 | On success the path leads to a directory and the image gained at most prefixes of that path. In an image whose directories have no holes, k missing directories are made whenever k numbers and 4k zones are free, and no more than that is used. A lack of space leaves the first of them made and the next one failed; any other failure leaves all as it was and means that a file stands on the way. |
| ImageOps.MinixImage.CreateFile | miniximg/miniximg-core/src/fs.rs:432-450 | Enters a new file with its data under a free number; each error occurs only for its cause, and any but a lack of space leaves the tree as it was. Space lacks only without a number, with less than the data cost, or when the directory cannot be rewritten longer with what is left; then the tree is as it was, has a nameless number more, or has the directory emptied. |
| ImageOps.MinixImage.WriteFileAtPath | miniximg/miniximg-core/src/fs.rs:393-452 | On success the path reads the data and can be read back as a file, at most its prefixes are new, and no other file changes. In an image whose directories have no holes it lacks space only when numbers do not cover the missing names, or spare zones not 4 for each missing directory, the price of the data and 3; the tree is then that of the directories that failed, or of the file that could not be put there. Any other failure leaves all as it was and means that no file could be put there. |
| ImageOps.MinixImage.ReadFileAtPath | miniximg/miniximg-core/src/fs.rs:371-390 | Succeeds if and only if the path leads to a regular file of addressable size, and returns its data. |
| ImageOps.MinixImage.RemoveFile | miniximg/miniximg-core/src/fs.rs:539-563 | Unlinks exactly that name, keeping the tree invariant; it fails without change when the path names no file, and never for space in an image whose directories have no holes. Every other path leads where it did, and no file that is left has lost data. |
| ImageOps.MinixImage.RemoveDirectory | miniximg/miniximg-core/src/fs.rs:566-604 | Removes exactly that empty directory, keeping the tree invariant; it fails without change when there is none, and never for space in an image whose directories have no holes. Every other path leads where it did, and no data changed. |
| ImageOps.MinixImage.LinkPath | miniximg/miniximg-core/src/fs.rs:692-735 | Gives the file one more name; the tree invariant is kept if and only if its count was below 255. It fails without change when the link is impossible, and for space only when the directory cannot be rewritten longer; then the count is raised and the directory empty. On success the new path leads to the file, every other path where it did, and no data changed. |
| ImageOps.MinixImage.RenamePath | miniximg/miniximg-core/src/fs.rs:607-689 | Moves one entry; the tree invariant is kept unless a directory comes to a parent whose count is full. Unless space runs out it succeeds exactly when source and target allow it and no directory would move below itself, and otherwise changes nothing. When one of its rewrites lacks space, exactly the directory being rewritten is emptied and the steps before it stand; without holes in directories only the new entry can lack space, and then nothing else changes. On success whatever lay at or below the old path lies at or below the new one, every other path leads where it did, and no data changed. |
| ImageOps.MinixImage.BitsExact | miniximg/miniximg-core/src/fs.rs:275-332 | With no zone lost, a zone bit is set if and only if exactly one pointer of one allocated inode reaches the zone, an inode bit if and only if an entry names the inode, and every link count is the number of those entries. |
| FlatFiles.SplicedContents | kernel/src/fs/minix.rs:396-445 | A tree with the written bytes in place and the new size is the flat file with the bytes spliced in, gaps zero, and past the size it is zero again. |
| FlatFiles.ReadAfterWrite | kernel/src/fs/minix.rs:347-445 | On the flat file, reading a written range gives what was written and reading before or behind it gives what was there, or the zeros of the gap. |
| FlatFiles.OneMoreZone | kernel/src/fs/minix.rs:262-344 | Gaining a table or a zeroed data zone changes no byte of this inode or any other. |
| FlatFiles.OverwriteByte | kernel/src/fs/minix.rs:424-427 | Changing the block behind one logical block changes the bytes of that block and no others. |
| FlatFiles.SplicesMore | kernel/src/fs/minix.rs:406-431 | One round of the write loop puts exactly its chunk in place. |
| KernelFile.KernelInode.ResolveIndirectEntry | kernel/src/fs/minix.rs:272-292 | Yields the entry of the table, made if asked for; no byte of any file changes. |
| KernelFile.KernelInode.MapBlockId | kernel/src/fs/minix.rs:262-344 | Yields the zone of a logical block over all levels; creating changes no byte of any file, and 0 then means that no zone is free; not creating changes nothing. |
| KernelFile.KernelInode.BothLookups | kernel/src/fs/minix.rs:262-344 | For every logical block the kernel's lookup and the image engine's find the same zone. |
| KernelFile.KernelInode.ReadAt | kernel/src/fs/minix.rs:347-390 | Returns as many bytes as asked for and there are from the offset on, each that of the flat file, holes as zeros; fails only beyond the last addressable block. |
| KernelFile.KernelInode.WriteAt | kernel/src/fs/minix.rs:396-445 | The written bytes are in place, all others and all other files as before, the size is max(size, offset + written) even after a failure, and the write stops short only at the format's end or when no zone is free. It takes at most 3 zones for each block it touches. |
| KernelFile.KernelInode.FreeZoneTree | kernel/src/fs/minix.rs:120-133 | The recursion over levels frees exactly the zones at and under its position, tables included. |
| KernelFile.KernelInode.Truncate | kernel/src/fs/minix.rs:229-255 | A regular file or directory becomes empty and its zones free; inodes of other types are left alone. |
| KernelFile.KernelInode.Sync | kernel/src/fs/minix.rs:448-460 | Afterwards the record on disk is the one in memory. |
| KernelFile.KernelInode.Run | kernel/src/fs/minix.rs:229-445 | Over every run of reads, writes and truncations the file answers as the flat sequence does, and every other file keeps its contents. A write stops short only at the format's end or with no zone free, by a count that starts as it is and falls by at most 3 for each block written. |
| KernelFile.RunRemembers | kernel/src/fs/minix.rs:229-445 | Throughout every run each byte of the file is what a write last put there, or zero since a truncation, and the size is as far as writes reached. |
| KernelFile.WritesWhole | kernel/src/fs/minix.rs:396-445 | In a run that starts with more free zones than its writes can take, every write within the format is whole. |
| InodeCache.InodeTable.AcquireRaw | kernel/src/fs/minix.rs:860-882 | The inode is in a slot and exactly one more handle on it is out, none on any other; no other inode changes, except one without links or users that made room. |
| InodeCache.InodeTable.Install | kernel/src/fs/minix.rs:900-916 | Uses a free slot, or the clock's victim and advances the hand; only a victim without links is released, with exactly its zones. |
| InodeCache.InodeTable.FindVictim | kernel/src/fs/minix.rs:918-937 | The first clean idle slot from the hand on, else the first idle one; none only when every slot is in use. |
| InodeCache.VictimIsFirst | kernel/src/fs/minix.rs:918-937 | No idle slot between the hand and the victim is clean, and a dirty victim means that all idle slots are dirty. |
| InodeCache.InodeTable.FlushSlot | kernel/src/fs/minix.rs:965-982 | An inode without links loses its zones, record and number, once; any other is on disk afterwards; all other inodes are unchanged. |
| InodeCache.InodeTable.HasActiveInodes | kernel/src/fs/minix.rs:940-946 | True exactly when a cached inode of the device is in use. |
| InodeCache.InodeTable.SyncInodes | kernel/src/fs/minix.rs:884-890 | Every cached record is on disk and no inode changed. |
| InodeCache.InodeTable.EvictDevice | kernel/src/fs/minix.rs:948-963 | No slot holds an inode of the device, slots of others stay, no count of handles changes, and only linkless inodes are released. |
| InodeCache.InodeTable.AllocInode | kernel/src/fs/minix.rs:811-816 | Takes the lowest number of the device that the bitmap has free, or none when all are used; it is cached nowhere, so a reused number never finds a stale copy. |
| InodeCache.FreeNotCached | kernel/src/fs/minix.rs:811-816 | The invariant rules out a slot for a number that is free in the bitmap. |
| InodeRuns.Perform | kernel/src/fs/minix.rs:860-982 | Every operation acts on the allocated inodes as a table without slots would: opening yields the newest record and counts one handle, an edit changes one record, a sync brings all of them to disk, and eviction changes none, but that one without links and users may go. Opening is refused only for a number that is not allocated or with as many inodes in use as there are slots, evicting a device only while one of its inodes is in use. |
| InodeRuns.Run | kernel/src/fs/minix.rs:860-982 | Any run of opens, closes, edits, syncs, evictions and allocations is a sequence of such steps. |
| InodeRuns.RunRemembers | kernel/src/fs/minix.rs:860-982 | Throughout every run, however often an inode was evicted and loaded again, its record is what was last written to it, or zero since it was allocated. |
| InodeRuns.RunCounts | kernel/src/fs/minix.rs:860-882 | Throughout every run the handles that are out on an inode are the opens less the closes. |
| InodeRuns.UsedStays | kernel/src/fs/minix.rs:965-982 | An inode that is in use throughout a run is not released in it. |
| BufferCache.BufferCache.FindReclaimCandidate | kernel/src/fs/buffer.rs:478-499 | The first slot of least penalty in list order, or none when all are pinned: no dirty slot while a clean one is unpinned, and no busy one while an idle one is as clean. |
| BufferCache.BufferCache.TryRebindBuffer | kernel/src/fs/buffer.rs:566-582 | Rebinds only when the key is not cached, keeps the index exact, moves the slot to the tail, and loses no contents. The slot goes to the end of the list. |
| BufferCache.BufferCache.Get | kernel/src/fs/buffer.rs:46-51 | Pins the one slot of the key; no pinned slot is rebound or its bytes changed, and no block's logical contents change. |
| BufferCache.BufferCache.Read | kernel/src/fs/buffer.rs:53-65 | ... and its bytes are what the block logically holds. |
| BufferCache.BufferCache.SyncDirty | kernel/src/fs/buffer.rs:74-86 | For all given keys the device holds what they logically hold; nothing else changes. |
| BufferCache.Rebinds | kernel/src/fs/buffer.rs:566-582 | Rebinding a clean unpinned slot keeps index and slot keys each other's inverse and all logical contents. |
| BufferCache.Run | kernel/src/fs/buffer.rs:46-86 | Over every run of loads, stores and syncs, whatever is evicted when, each load reads the bytes last written, and a sync brings the device up to date. What is read is told by the last store alone. |
| BufferCache.PlainRemembers | kernel/src/fs/buffer.rs:46-86 | Every load of a run is of what was last stored to the block, zeros where nothing was. |
| Frames.FrameAllocator.Alloc | kernel/src/mm/frame.rs:179-191 | Claims the highest free frame, zeroed, or fails exactly when none is free. |
| Frames.FrameAllocator.AllocContiguous | kernel/src/mm/frame.rs:193-216 | Claims the highest run of free frames, zeroed, or fails exactly when there is none. |
| Frames.FrameAllocator.Dealloc | kernel/src/mm/frame.rs:218-229 | Takes one handle off a tracked frame; kernel frames are left alone. |
| Frames.FrameAllocator.DeallocRange | kernel/src/mm/frame.rs:231-235 | Takes one handle off every frame of the run and no other. |
| Frames.FrameAllocator.Share | kernel/src/mm/frame.rs:237-246 | One more handle on a frame in use. |
| Frames.FrameAllocator.Init | kernel/src/mm/frame.rs:152-177 | Exactly the frames of the given range are free, all others reserved. |
| Cow.WritableAlone | kernel/src/mm/space.rs:125-165 | Under the invariant a user page mapped writable has a frame with count 1. |
| Cow.CountsBounded | kernel/src/mm/frame.rs:237-246 | Under the invariant no count of a frame in use exceeds 64, so the 8-bit count cannot overflow. |
| Cow.FewHolders | kernel/src/mm/space.rs:172-313 | Handles on one frame sit at one offset of distinct slots, so there are at most 63. |
| Cow.PageShared | kernel/src/mm/space.rs:205-230 | Sharing a page write-protected at the same offset of another slot keeps the invariant and leaves room in the count. |
| Cow.PageReplaced | kernel/src/mm/space.rs:145-165 | Giving a page its own frame keeps the invariant, the counts exact. |
| Cow.FrameReleased | kernel/src/mm/space.rs:370-388 | Dropping the handle of an unmapped page keeps the invariant, the counts exact. |
| Cow.ViewStore | kernel/src/mm/space.rs:125-165 | A store through a writable entry is seen through that page alone. |
| AddressSpaces.AddressSpaces.EnsurePageTable | kernel/src/mm/space.rs:352-367 | A missing table of the slot is made, or nothing changes when no frame is free; what pages read stays. |
| AddressSpaces.AddressSpaces.MapPage | kernel/src/mm/space.rs:101-119 | An absent page reads the given frame or zeros; a present one stays, or is refused when a frame was given; a page outside the slot is refused like a lack of memory. A lack of memory needs at most one free frame at the start, and then nothing any page reads changes. |
| AddressSpaces.AddressSpaces.EnsurePageWritable | kernel/src/mm/space.rs:125-165 | The page becomes writable and no page, in any space, reads differently; it fails only when no frame is free. |
| AddressSpaces.AddressSpaces.TryShareLocalPageFrom | kernel/src/mm/space.rs:172-230 | Shares exactly a present, clean, tracked page into an absent one, as if it had been copied; no page reads differently otherwise. |
| AddressSpaces.AddressSpaces.CowCopy | kernel/src/mm/space.rs:237-313 | Succeeds if and only if the free frames are at least the tables the parent has within the limit. Then the child has exactly the pages of the parent in the 4 MB stretches that begin below the limit, each reading as the parent's, and all other spaces read as before; a failure restores directory, handles and all counts. |
| AddressSpaces.ForkedBelowLimit | kernel/src/mm/space.rs:237-313 | After a fork every page of the parent below the limit reads the same in the child. |
| AddressSpaces.AddressSpaces.DropSpace | kernel/src/mm/space.rs:370-388 | All entries, tables and frames of the slot and no others are given back, and the TLB is flushed after entries change. |
| AddressSpaces.AddressSpaces.Store | kernel/src/mm/space.rs:125-165 | A store changes that page of that space and nothing else; it is refused only for an absent page or without memory. The entry is dirty afterwards. |
| AddressSpaces.AddressSpaces.Step | kernel/src/mm/space.rs:101-388 | Each operation does what eager copying would do, or is refused for a named reason and no page reads differently. |
| AddressSpaces.EagerForks | kernel/src/mm/space.rs:237-313 | In the kernel that copies at once a fork gives the child exactly those pages too. |
| AddressSpaces.EagerActs | kernel/src/mm/space.rs:101-388 | What mapping, loading, storing, sharing and dropping do there, page by page. |
| AddressSpaces.AddressSpaces.Run | kernel/src/mm/space.rs:101-388 | Over every run of map, load, fork, share, store and drop, each page reads exactly what it would in a kernel that copies every page at once. An operation is refused only for a cause: too few free frames, or a page or table that is there, missing or not to be shared, by books that start as they are and move with each operation within stated bounds. |
| AddressSpaces.NeverShortOfFrames | kernel/src/mm/space.rs:101-388 | In a run that starts with as many free frames as its operations can take together, none is refused for lack of memory. |
| Heap.AlignUpLeast | user_lib/src/allocator.rs:385-390 | The result is the least multiple of the alignment at or above the address. |
| Heap.Place | user_lib/src/allocator.rs:330-374 | A placement exists exactly when the block fits the layout; its parts tile the block and what is left over is empty or big enough to keep. |
| Heap.PlaceTight | user_lib/src/allocator.rs:330-374 | The payload is at the lowest address behind room for a header that layout and word alignment allow, the header right before it, and only remainders below 8 bytes in front and behind go with the allocation. |
| Heap.BrkAllocator.InsertFreeBlock | user_lib/src/allocator.rs:236-267 | The list stays sorted, apart and coalesced, and exactly the block's bytes become free; blocks too small to keep are dropped. |
| Heap.BrkAllocator.CoalesceWithNext | user_lib/src/allocator.rs:299-316 | Merges a block with its successor exactly when they touch, in the linked nodes as in the list. |
| Heap.BrkAllocator.TryAlloc | user_lib/src/allocator.rs:130-145 | Allocates if and only if some free block fits, and in the first that does; the payload is aligned and lies in its own block, which was free. |
| Heap.BrkAllocator.TakeFromBlock | user_lib/src/allocator.rs:148-187 | Exactly the placement's bytes stop being free, and header and payload are in place. |
| Heap.BrkAllocator.Grow | user_lib/src/allocator.rs:190-233 | Succeeds exactly when the break can move, frees exactly the new range, and then some free block fits the layout. |
| Heap.GrownFits | user_lib/src/allocator.rs:190-233 | Whatever the break's alignment, and merged or not, the block that holds the grown range fits the layout. |
| Heap.GrowLeast | user_lib/src/allocator.rs:190-233 | The break moves by the least number of whole pages that holds size, alignment, header and one free block, and the new range begins on the next word. |
| Heap.BrkAllocator.Alloc | user_lib/src/allocator.rs:99-112 | Grows at most once; it fails exactly when nothing free fits and the break cannot move. The result is the first fit in the free list, or after a growth in the coalesced list with exactly the new range added; break and ranges follow. If all free nodes were on words they stay so exactly when the size is a whole number of words or no node begins behind the payload. |
| Heap.BrkAllocator.Dealloc | user_lib/src/allocator.rs:115-127 | Exactly the bytes of the allocation become free again; null is ignored, and free nodes stay on words. |
| Heap.ServedOnWords | user_lib/src/allocator.rs:148-187 | An allocation keeps every free node on a word if and only if its size is a whole number of words or no node begins behind its payload. |
| Heap.OddSizeStrays | user_lib/src/allocator.rs:148-187 | A request of 5 bytes from an aligned page puts a free node on an address that is no multiple of the word. |
| Heap.BrkAllocator.AllocThenDealloc | user_lib/src/allocator.rs:99-127 | A deallocation right after an allocation that did not grow restores the identical free list. |
| Heap.AllFreed | user_lib/src/allocator.rs:236-267 | Once everything is freed, in whatever order, there is one possible free list. |
| FreeLists.Canonical | user_lib/src/allocator.rs:236-316 | A coalesced list is determined by which bytes are free. |
| FreeLists.CarvedNormal | user_lib/src/allocator.rs:148-187 | What splitting leaves of a block keeps the list sorted, apart and coalesced. |
| WaitQueues.Sleepers.FallAsleep | kernel/src/task/wait_queue.rs:34-46 | The task is in the slot and keeps who was there before; the invariant holds. |
| WaitQueues.Sleepers.Wake | kernel/src/task/wait_queue.rs:96-109 | The slot is emptied and its task runnable; the invariant holds. |
| WaitQueues.Sleepers.Resume | kernel/src/task/wait_queue.rs:46-52 | A woken task passes the wake-up on to the waiter it had taken over. |
| WaitQueues.OnSomeChain | kernel/src/task/wait_queue.rs:34-109 | Every sleeper lies on a chain that hangs off a slot or off a woken task. |
| WaitQueues.OnOneChain | kernel/src/task/wait_queue.rs:34-109 | ... and on one chain only. |
| WaitQueues.Sleepers.NobodyLost | kernel/src/task/wait_queue.rs:34-109 | Every sleeper lies on exactly one chain. |
| WaitQueues.Sleepers.Run | kernel/src/task/wait_queue.rs:34-109 | Over all interleavings of sleeping, waking and resuming the invariant holds, and slots, phases and clock are those of the actions one after another. |
| WaitQueues.ActedDoes | kernel/src/task/wait_queue.rs:34-109 | What each action does: a sleeper is in the slot and keeps its predecessor, a wake-up empties the slot and wakes its sleeper, and a resuming task wakes whom it took over. |
| WaitQueues.Sleepers.Drain | kernel/src/task/wait_queue.rs:46-52 | When a woken task resumes, and then each task it wakes, exactly the whole chain behind it wakes up. |
| WaitQueues.WakeInBetween | kernel/src/task/wait_queue.rs:34-46 | Were the queue woken between the two halves of falling asleep, the invariant would be lost; it is kept if and only if no such wake-up comes. |
| Locks.BusyLock.TryAcquire | kernel/src/sync/busy_lock.rs:37-46 | Takes a free lock, or sleeps in its queue. |
| Locks.BusyLock.TryWait | kernel/src/sync/busy_lock.rs:26-34 | Waiting goes on without the lock if it is free, and else sleeps in its queue. |
| Locks.BusyLock.RetryWait | kernel/src/sync/busy_lock.rs:26-34 | A woken task passes the wake-up on and looks again. |
| Locks.BusyLock.Release | kernel/src/sync/busy_lock.rs:49-56 | Frees the lock, empties its slot and rouses the task that was there. |
| Locks.BusyLock.WaiterOnItsWay | kernel/src/sync/busy_lock.rs:26-56 | While the lock is free, every waiter hangs off a waiter that is runnable. |
| Locks.Mutex.Perform | kernel/src/sync/mutex.rs:53-83 | No step makes an owner assertion fail; lock, queue, owner and every task's stage become exactly what the step says, and the invariant is kept. |
| Locks.SteppedDoes | kernel/src/sync/mutex.rs:53-83 | What each step does: who finds the lock free has it, who finds it taken sleeps in its queue, a release frees it and wakes who is in the slot, and nobody else's stage changes. |
| Locks.Mutex.Run | kernel/src/sync/mutex.rs:53-83 | Over all interleavings of steps in the mutex with sleeping, waking and resuming on any other queue, the invariant holds and the state is that of the steps one after another. |
| Locks.Mutex.OneHolder | kernel/src/sync/mutex.rs:53-83 | At most one task holds the mutex, and it is the recorded owner. |
| Scheduler.TaskManager.SelectNextTask | kernel/src/task/manager.rs:73-123 | Within two passes, chooses the runnable task with the largest counter, the higher slot among equals, after a refill exactly when none has anything left. |
| Scheduler.TaskManager.Refill | kernel/src/task/manager.rs:115-121 | Every task but the idle one gets half its counter, rounded down, plus its priority; nothing else changes. |
| Scheduler.TaskManager.Candidate | kernel/src/task/manager.rs:78-92 | The runnable task whose pair of counter and slot is the largest; none when none is runnable. |
| Scheduler.EndlessSelection | kernel/src/task/manager.rs:73-123 | If all runnable tasks have counter and priority zero, a refill leaves them so: the loop would never end. |
| Scheduler.PriorityEnds | kernel/src/task/manager.rs:73-123 | With priorities of at least 1 the selection always ends. |
| Scheduler.PrioritiesStay | kernel/src/syscall/handler/process/mod.rs:38-49 | Positive priorities stay positive under every event: ticks, refills, selections, `nice` by any increment, forks, and tasks that stop, go on, end or are waited for. |
| Scheduler.TaskManager.Nice | kernel/src/syscall/handler/process/mod.rs:38-49 | Takes the increment from the current task's priority exactly when that is larger, so that it stays positive. |
| Scheduler.TaskManager.EnterChild | kernel/src/syscall/handler/process/fork.rs:64-68 | A forked child enters the empty slot with its parent's priority and as much counter. |
| Scheduler.RefillBounded | kernel/src/task/manager.rs:115-121 | Counters below twice the priority stay there under refill, and so within 32 bits. |
| Scheduler.TaskManager.Tick | kernel/src/task/timer.rs:92-125 | One less for the running task, and a reschedule exactly when a user-mode task has none left. |
| Scheduler.TaskManager.EndSyscall | kernel/src/syscall/mod.rs:78-87 | The end of a system call gives up the processor exactly when the task cannot go on or has nothing left. |
| Scheduler.TaskManager.Perform | kernel/src/task/manager.rs:73-123 | Every event, by the method that stands for it, does to table and current task what `Acts` says; after a call of the scheduler the current task can run and has something left, if any can. |
| Scheduler.TaskManager.Progress | kernel/src/task/timer.rs:92-125 | A task that stays runnable with a positive counter gets the processor before as many user-mode ticks have passed as the other counters sum to, one more if the running task has none left, and the largest priority for each fork, under any order of ticks, state changes of other tasks, calls of the scheduler, ends of system calls, `nice`, forks, exits and waits. |
| Scheduler.TaskManager.NextUnusedPid | kernel/src/task/manager.rs:134-151 | The loop ends with an id that is not in use, and every id passed on the way there from the last one is. |
| Scheduler.TaskManager.AllocProcess | kernel/src/task/manager.rs:134-157 | Yields the first id after the last one that is not zero and not in use, and the lowest empty slot. |
| Scheduler.TooManyPids | kernel/src/task/manager.rs:134-157 | The ids tried are distinct, so at most as many can be in use as there are tasks. |
| Fpu.Machine.SwitchIn | kernel/src/fpu.rs:36-78 | After the fault the current task owns its own registers, and no task's registers changed. |
| Fpu.Machine.OnResume | kernel/src/fpu.rs:80-90 | The flag is cleared exactly for an owner that resumes. |
| Fpu.Machine.SnapshotCurrent | kernel/src/fpu.rs:92-107 | Gives the current task's registers if it has any, and changes no one's. |
| Fpu.Machine.ForkTo | kernel/src/fpu.rs:92-107 | The child has registers exactly if its parent had, and the same; no other task's registers change. |
| Fpu.Machine.ExitTo | kernel/src/fpu.rs:116-118 | An exiting task takes its registers along and nobody inherits them. |
| Fpu.Machine.Run | kernel/src/fpu.rs:36-118 | Over every run of switches, instructions, forks and exits each task reads exactly what it last wrote, fresh registers at its first use, or its parent's when forked from a user of them. Each use reads the last such registers, or fresh ones. |
| Fpu.RunRemembers | kernel/src/fpu.rs:36-118 | Throughout every run a task's registers are what it last wrote, or what its parent had when it was forked, or none after it exited. |
| Fpu.Machine.ResetForExec | kernel/src/fpu.rs:109-112 | The task's registers are forgotten but the flag stays: the invariant survives if and only if the flag was set. |
| Fpu.Machine.FirstUseAfterExec | kernel/src/fpu.rs:109-112 | With the flag set the next instruction reads fresh registers, with the flag clear it reads the old program's. |

## Left out

- Device inodes in the image engine, in its free and overwrite paths: `direct_zones[0]` is a device number there and would be freed as a zone.
- ImageOps.MinixImage.MkdirAll: needs a link count below 255 in the deepest existing directory on the path if another is to be made in it, because counts saturate (`Namespace.SaturationMiscounts`); for a lack of space, numbers of zones are given for images whose directories have no holes, as all that the engine made.
- ImageOps.MinixImage.WriteFileAtPath: needs the same of the directory in which the first missing parent is made; a new file's inode number stays taken when its data do not fit.
- ImageOps.MinixImage.RenamePath: for lack of space in an image whose directories have holes, which of its up to three directory rewrites failed follows from the tree it leaves; the number of zones that were missing is not given.
- Image.Image.SetDataZone: needs that the block has no zone yet; the code would overwrite the pointer, but its only caller writes into an inode that it has just emptied.
- CreateLayout.ChooseLayout: for options that reach the loop, needs N to be no positive multiple of 8193, because otherwise the loop of the code does not end.
- InodeCache.InodeTable.AcquireRaw: is asked for numbers that the bitmap has allocated, as directory entries name them; the code would also load the zeroed record of a free number, and `InodeRuns.Perform` refuses that instead, as it does a full table or device 0, at which the code panics.
- InodeRuns.Run: an edit keeps a file with or without data zones as it was; zones taken and released by edits, and inode numbers freed in the bitmap by other means than eviction, are not modelled.
- Layout.EntryNameRoundTrip: names are bytes; UTF-8 checks of names are not modelled, and the path operations ask for names without NUL.
- Opening damaged images (only what the engine wrote is opened), listing, tree printing, `inspect` and `check` reports, and their free counts.
- Block I/O errors, the clock, ownership, permission bits and time stamps other than those named: parameters, or not part of the model.
- KernelFile.KernelInode.ReadAt: on a failure the buffer's partial contents are not described, and the file system is taken to be mounted.
- Directory operations of the kernel's file system and its mounting.
- InodeCache.InodeTable.FlushSlot: the zone trees of inodes are an owner map there; how a tree is walked and freed is shown on the image.
- BufferCache.BufferCache.Get: none is the outcome at which the code sleeps until a slot is released and tries again; flush and rebind of a victim are one step; the window in which another task could pin the victim is not modelled, nor prefetch order.
- AddressSpaces.AddressSpaces.Run: all spaces' handle maps stand side by side in one object, and page and table contents of frames in two maps; frames below 2 MB are outside the isolation theorem apart from read-only sharing of the kernel's own pages.
- Heap.BrkAllocator.Alloc: memory is a map of nodes and a map of headers; payload bytes and the process-wide lock are not modelled.
- `sleep_interruptible` and signals: a woken task may go back to sleep with nobody pointing at it, so the chain theorem is about `sleep` and `wake`.
- Locks.Mutex.Run: the protected value and guard lifetimes are not modelled.
- Scheduler.TaskManager.SelectNextTask: needs that the selection ends, see `Scheduler.EndlessSelection`; signals and alarms that make tasks runnable are events of `Progress`, as are the state changes of exit and wait.
- Fpu.Machine.Run: has no `execve` step, because that step can break the invariant, as `Fpu.Machine.ResetForExec` shows.
- A machine without a floating-point unit, where the fault raises a signal instead.
- Hardware, assembly stubs, descriptor tables, the block driver, TTY, system call handlers, host-directory import, disk partitioning, path strings, pattern matching and buffered I/O of the tools.
