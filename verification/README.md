# libctr9: the FAT engine, the encrypted disk and the byte layer

This project models three parts of libctr9 in Dafny and proves what they are for.

1. **The FAT engine** (FatFs R0.12 as this repository configures it: FAT12/16/32, 512-byte sectors, one
   write-back window, long names, no exFAT, no fast seek, no tiny buffers).
   `Disk` is a block device that may fail, `Volume.FileSystem` is `FATFS`, `File.FileObject` is `FIL`,
   `Directory.DirObject` is `DIR`. These are classes, with the fields and the update in place of the source.
   - The *logical disk* (`Window.View`) is the device overlaid with the dirty window, the second FAT copy left out.
     `FatTable` reads it as a table of 12, 16 or 28-bit numbers, and `Chains` reads the table as a
     disjoint union of acyclic chains.
   - A *file* (`FileData.Data`) is the bytes of its chain in the logical disk overlaid with the dirty sector buffer.
     `FileRuns` shows that any run of writes, reads and seeks is a run on a plain byte sequence with a cursor.
   - `Allocation` and `FreeSpace` follow the free counter over whole runs, and `AllocationRuns` shows that calls of the
     methods make such runs.
   - `LongNames` and `DirectoryItems` store and find long names in the bytes of a directory. `DirectoryRegion` says what
     these bytes are, wherever the sectors of the directory lie, and `DirectorySearch` finds, reads and stores through
     the stepping `DIR` object, the window and a device that may fail. `DirectoryGrowth` allocates the entries for a
     name, stretching the directory when it is full, and shows that no name in it is lost. `Pattern` is the wildcard
     matcher.
   - `Format` and `FreshVolume` lay out a volume and mount it again.
2. **The transparent encrypted disk** (`Crypto`, on `Chunks`, `CipherBlocks`, `PlainReads`, `CleanWrites`).
   The cipher is any bijection per block number; `Aes` shows that counter mode is one, whatever the length of
   the message and in spite of the runs of 0xFFFF blocks. `Counters` is the 128-bit counter arithmetic.
   `ByteIo` is the byte layer over devices that move whole sectors and ignore a part of one at the end of a transfer:
   memory, with sectors of one byte, and the card, for which the repository repeats the same three sections with 512
   bytes (include/ctr9/io/ctr_sdmmc_implementation.c:17-115). The encrypted disk, and the NAND disk on top of it, is not
   such a device: it writes what is left, whole sectors or not, and `CipherBytes` is the byte layer over it.
3. **The rolling hash search** (`HashSearch`).

A device may fail at any call unless it is `reliable`. What a method promises on success holds on every device;
that it succeeds is promised for a reliable one. A failed write may leave anything in the sectors it was to write.

Five promises one might expect are false of the code. The code is modelled as it is, and the exact conditions are
proved, with an example for each:

- A write to the encrypted disk shows exactly the data, and nothing else changes, on every disk and under
  every cipher **if and only if** it ends with a block, or in the first block it touches, or starts with a block and
  ends in the first block of a window (`CleanWrites.CleanIff`, `CleanWrites.EndsBadly`). For sectors made of whole
  blocks, and whole sectors written, this always holds (`CleanWrites.WholeSectorsEndWell`); for seventeen sectors of one
  byte it does not (`CleanWrites.BadSectorsExample`).
- A write of bytes at any position of the encrypted disk does so **if and only if** no whole sector is left behind its
  first sector, or all that is left there ends well (`CipherBytes.BytesCleanIff`). For any other there is a disk on
  which it succeeds and spoils the byte behind the data (`CipherBytes.Spoil`), such as 1032 bytes from position 0 with
  sectors of 512 (`CipherBytes.SpoiledExample`).
- A read of the encrypted disk runs past what was asked for **if and only if** it starts and ends inside one block and the
  buffer is longer than the request (`Chunks.OverrunsIff`, `Chunks.OverrunExample`). Reads of bytes do so for sectors of
  two and four bytes only (`CipherBytes.Read`, `CipherBytes.MiddleFits`, `CipherBytes.MiddleOverrunExample`).
- The free counter stays right after an allocation **if and only if** some cluster was in use before
  (`Allocation.TakeCountsIff`, `Allocation.EmptyVolumeExample`).
- Formatting succeeds **if and only if** there is a layout whose FAT and root directory fit on the volume
  (`FreshVolume.MakeVolume`); the volume can be mounted and used **if and only if** there is also room for a cluster and
  the cluster numbers fit into 28 bits (`Format.FormatThenMount`). The formats between the two are
  `Format.UnusableFormats`, such as that of 128 sectors with erase blocks of 128 (`FreshVolume.NoRoomExample`).

Three more limits show in the contracts: a stored name is read back whole if and only if it has at most 253 characters
(`DirectoryItems.ReadStored`), one of 255 is never found by its long name (`DirectoryItems.FindStored`), and the hash
search accepts offset 0 without a digest and returns its last offset also when nothing matches (`HashSearch.Search`).

The formats follow "FAT: General Overview of On-Disk Format", version 1.03, with the thresholds of the source
(src/fatfs/ff.c:359-362); counter mode and chaining follow sections 6.5 and 6.2 of NIST SP 800-38A.

`dafny verify dfyconfig.toml` checks the whole project.

## Model

| member | source | states |
|---|---|---|
| `Volume.FileSystem.SyncWindow` | src/fatfs/ff.c:854-878 | writing the window back never changes the logical disk, even when the device damages the sector; success leaves the window clean and, on a reliable device, both FAT copies equal |
| `Volume.FileSystem.MoveWindow` | src/fatfs/ff.c:883-904 | the logical disk is unchanged whatever the device does, a success leaves the window showing that sector of it, and agreement of the FAT copies is kept |
| `Window.WriteBackView` | src/fatfs/ff.c:865-869 | a write-back that succeeds or damages its sector is invisible through the window |
| `Window.MirrorWriteView` | src/fatfs/ff.c:870-873 | writes into the second FAT copy are invisible through the window |
| `Volume.FileSystem.GetFat` | src/fatfs/ff.c:971-1036 | the value is the table's entry, over the window and over both sectors of a straddling FAT12 entry; 1 exactly for a number that is no cluster; nothing logical changes |
| `Volume.FileSystem.PutFat` | src/fatfs/ff.c:1047-1098 | exactly that entry of the table becomes the value cut to 12, 16 or 28 bits; no sector outside the FAT changes; the copies stay in agreement over any run |
| `FatTable.StoreEntry` | src/fatfs/ff.c:1058-1096 | every entry reads back as before but the stored one, also the neighbour that shares a byte, and the top 4 bits of FAT32 entries are kept |
| `FatTable.StoreTable` | src/fatfs/ff.c:985-1005 | what is stored is read back, for the table as a whole |
| `Volume.FileSystem.RemoveChain` | src/fatfs/ff.c:1213-1284 | on any table, cyclic or cross-linked, the loop stops and leaves the table and the counter that following and clearing the links gives; error cases included |
| `Volume.FileSystem.ReleaseFrom` | src/fatfs/ff.c:1238-1270 | termination with the number of non-zero entries as measure, each visited entry freed and counted once |
| `Chains.UnlinkChain` | src/fatfs/ff.c:1238-1270 | on a chain, exactly its clusters become free, and the loop ends well |
| `Chains.UnlinkCut` | src/fatfs/ff.c:1231-1270 | with the cluster before it given, the chain is cut at that position and the cluster becomes its end |
| `Chains.CutKeepsWellFormed` | src/fatfs/ff.c:1213-1284 | the table stays a disjoint union of acyclic chains with no link to a free cluster |
| `Chains.CutKeepsPrefix` | src/fatfs/ff.c:1231-1235 | what is left is the front of the chain |
| `Chains.CutLeavesOthers` | src/fatfs/ff.c:1213-1284 | every other chain keeps its cluster sequence |
| `Chains.ChainsDisjoint` | src/fatfs/ff.c:1231-1270 | in a well-formed table two chains that share a cluster are the same chain |
| `Chains.OnSomeChain` | src/fatfs/ff.c:1349-1356 | every cluster in use lies on a chain that starts at a cluster without predecessor |
| `Volume.FileSystem.FindHole` | src/fatfs/ff.c:1335-1346 | the wrap-around scan stops, and reports the first hole in scan order, or that there is none |
| `Chains.ScanOrder` | src/fatfs/ff.c:1336-1346 | the scan meets every cluster, and no two at the same step |
| `Volume.FileSystem.CreateChain` | src/fatfs/ff.c:1295-1367 | result, table, hint and counter for every cluster and every hint; nothing outside the FAT changes |
| `Allocation.ScanFinds` | src/fatfs/ff.c:1305-1347 | without reserved values, 0 is reported if and only if no cluster is free, whatever the hint |
| `Allocation.CreateFailsIffFull` | src/fatfs/ff.c:1305-1356 | a new chain or a longer one is refused if and only if the volume is full; otherwise a free cluster becomes the end |
| `Allocation.CreateExtendsOne` | src/fatfs/ff.c:1349-1356 | the named chain gets the new cluster at its end, every other chain is unchanged and did not hold it |
| `Allocation.CreateKeepsWellFormed` | src/fatfs/ff.c:1295-1367 | allocation keeps the table a disjoint union of acyclic chains |
| `Chains.AppendKeepsWellFormed` | src/fatfs/ff.c:1349-1356 | linking a free cluster behind an end, or alone, keeps the table well-formed |
| `Chains.AppendExtends` | src/fatfs/ff.c:1352-1355 | the chain is the old one and the new cluster |
| `Chains.AppendLeavesOthers` | src/fatfs/ff.c:1352-1355 | chains without the end that was stretched are unchanged |
| `Chains.GrowsKeepsWellFormed` | src/fatfs/ff.c:1295-1367 | any number of allocations for one chain keeps the table well-formed |
| `Chains.GrowsLeavesOthers` | src/fatfs/ff.c:1295-1367 | and leaves every chain that does not meet it as it was |
| `Allocation.TakeCountsIff` | src/fatfs/ff.c:1358-1361 | the counter is right after an allocation if and only if the volume was not wholly empty |
| `Allocation.EmptyVolumeExample` | src/fatfs/ff.c:1360 | a FAT12 volume whose only cluster is free, on which the counter goes wrong |
| `Allocation.ReleaseIsCut` | src/fatfs/ff.c:1247-1270 | exactly the suffix becomes free, and the counter grows by its length |
| `Allocation.ReleaseKeepsSound` | src/fatfs/ff.c:1247-1250 | a right counter is right after a release, and the table well-formed |
| `Allocation.StepKeepsSound` | src/fatfs/ff.c:1358-1361 | so for every allocation or release on a volume that is not empty |
| `Allocation.RunKeepsSound` | src/fatfs/ff.c:1247-1250 | over any run of allocations and releases, never wholly empty before a step, the counter equals the number of free clusters |
| `Allocation.RunKeepsWellFormed` | src/fatfs/ff.c:1213-1367 | over any run at all the table stays a disjoint union of chains |
| `AllocationRuns.Create` | src/fatfs/ff.c:1295-1367 | a call that the disk does not fail takes a run of the volume one allocation further |
| `AllocationRuns.Remove` | src/fatfs/ff.c:1213-1284 | so does a release, on any position of a chain; so runs of calls are the runs spoken of above |
| `FreeSpace.GetFree` | src/fatfs/ff.c:4278-4340 | a known count is returned as it is, an unknown one replaced by the number the scan finds; also a scan that stops early stores what it has counted |
| `FreeSpace.CountByEntry` | src/fatfs/ff.c:4287-4294 | the FAT12 scan finds exactly the free clusters |
| `FreeSpace.CountBySector` | src/fatfs/ff.c:4314-4331 | the FAT16 and FAT32 scan, sector by sector through the window, finds exactly the zero entries, 0 and 1 included |
| `FreeSpace.ZeroEntriesAreFree` | src/fatfs/ff.c:4314-4331 | these are the free clusters if and only if entries 0 and 1 are not zero |
| `File.FileObject.Write` | src/fatfs/ff.c:3481-3602 | the file is overlaid at its position with the bytes written and grows; fewer are written only when the volume is full or the size limit is met; nothing outside its chain and new clusters changes; error cases; also after an abort the volume is consistent |
| `File.FileObject.Read` | src/fatfs/ff.c:3373-3470 | exactly the bytes from the position up to the end of the file; file, chain and FAT are unchanged, and nothing outside the file's sectors changes; also after an abort the volume is consistent |
| `File.FileObject.Seek` | src/fatfs/ff.c:3949-4024 | the position is the target, clipped in read-only mode; in write mode the chain grows up to it and stops early only on a full volume; all bytes are kept |
| `File.FileObject.Truncate` | src/fatfs/ff.c:4350-4391 | the file keeps the bytes before its position, its chain is cut behind them, the counter grows by what became free, nothing else changes |
| `File.FileObject.WriteRun` | src/fatfs/ff.c:3547-3570 | the multi-sector write past the buffer overlays the file, and a buffer that shows one of these sectors is refreshed |
| `File.FileObject.ReadRun` | src/fatfs/ff.c:3419-3440 | the multi-sector read past the buffer gives the file's bytes, patched with a dirty buffer |
| `File.PatchEffect` | src/fatfs/ff.c:3586-3597 | a store into the sector buffer overlays the file |
| `FileData.RunData` | src/fatfs/ff.c:3547-3553 | a run of whole sectors written to a cluster overlays the file there and nowhere else |
| `FileData.DataSectorsApart` | src/fatfs/ff.c:953-961 | different sectors of a file lie in different places |
| `FileRuns.Perform` | src/fatfs/ff.c:3373-4028 | each operation is one step of a plain byte sequence with a cursor |
| `FileRuns.PerformAll` | src/fatfs/ff.c:3373-4028 | any run of writes, reads and seeks is a run of the plain file with the same results; other chains and sectors are untouched, the table stays well-formed, and a reported full volume is full |
| `FileRuns.StaysFull` | src/fatfs/ff.c:1335-1346 | what the operations do to the table cannot free a cluster |
| `FileRuns.PathIndependent` | src/fatfs/ff.c:3957-4000 | cluster, sector and buffer of a file depend on the position and the first cluster only, not on how it got there |
| `Directory.DirObject.SetIndex` | src/fatfs/ff.c:1407-1446 | the object stands at that entry, or the offset is none of the directory |
| `Directory.DirObject.Next` | src/fatfs/ff.c:1467-1487 | without stretching, the object stands at the next entry, or there is none and nothing has changed |
| `Directory.DirObject.NextStretch` | src/fatfs/ff.c:1456-1515 | with stretching, the object stands at the next entry, in a new cluster if need be, all zero; refused only when the volume is full, the table is static or the directory has its greatest size; no used cluster changes |
| `Directory.ClearCluster` | src/fatfs/ff.c:1491-1500 | the new cluster becomes zero through the window, sector by sector, nothing else changes, and the window ends at its first sector |
| `Directory.DirObject.Walk` | src/fatfs/ff.c:1407-1515 | rewinding and stepping k times leads to the cluster, sector and offset of entry k, exactly when the directory has one, in the static table and along a chain |
| `Directory.PlacesApart` | src/fatfs/ff.c:1442-1443 | different entries have different places |
| `Pattern.PatternMatching` | src/fatfs/ff.c:2471-2508 | with skipped characters and infinite search, it matches if and only if a suffix of the name behind them does; it always stops |
| `Pattern.MatchName` | src/fatfs/ff.c:4187 | a name matches if and only if it can be cut into pieces that the characters of the pattern stand for, in any case |
| `Pattern.GlobIsMatches` | src/fatfs/ff.c:2488-2503 | the character by character meaning and the meaning by pieces are the same |
| `Pattern.MatchFrom` | src/fatfs/ff.c:2489-2503 | an attempt that ends at the end of the name rules out all later ones |
| `Pattern.WildcardGroup` | src/fatfs/ff.c:2492-2495 | a mixed group of wildcards means its question marks first and then, with a star, anything |
| `Pattern.QuestionSkips` | src/fatfs/ff.c:2483-2485 | a question mark is one more character to skip |
| `Pattern.StarSearches` | src/fatfs/ff.c:2494-2505 | a star, wherever in its group, makes the search infinite |
| `Pattern.LiteralsNeed` | src/fatfs/ff.c:2499-2505 | why the search may stop early: literals need as many characters |
| `LongNames.PutLfn` | src/fatfs/ff.c:1686-1712 | the entry holds its thirteen units of the name, terminator and filler in place, and is marked last exactly when it is |
| `LongNames.PickLfn` | src/fatfs/ff.c:1649-1679 | result and buffer for any entry, invalid ones included |
| `LongNames.PickEntry` | src/fatfs/ff.c:1661-1676 | picking up a stored entry gives back that part of the name, and fails exactly when its terminator does not fit |
| `LongNames.CmpLfn` | src/fatfs/ff.c:1613-1641 | result for any entry |
| `LongNames.CmpEntry` | src/fatfs/ff.c:1624-1640 | a stored entry compares equal if and only if its part of the name does, in any case, and the searched name ends where it should |
| `DirectoryItems.ComputeSumSfn` | src/fatfs/ff.c:1782-1791 | the checksum of a short name, rotating in eight bits |
| `DirectoryRegion.EntryIs` | src/fatfs/ff.c:1442-1443 | entry by entry, the directory is made of the pieces of its sectors that the object stands at |
| `DirectoryRegion.PatchedRegion` | src/fatfs/ff.c:1442-1443 | a change of an entry in its sector changes that entry of the directory and no other |
| `DirectoryRegion.LengthIs` | src/fatfs/ff.c:1456-1515 | the directory has the entries that the object can stand at, and no more |
| `DirectoryRegion.ChainInside` | src/fatfs/ff.c:953-961 | a directory in a chain lies inside the volume and outside the FAT |
| `DirectoryRegion.TableInside` | src/fatfs/ff.c:3053-3068 | so does the static table |
| `DirectorySearch.StoreLong` | src/fatfs/ff.c:2267-2269 | the entry that the object stands at becomes that part of the name, through the window; no other entry, no FAT entry changes |
| `DirectorySearch.DirRegister` | src/fatfs/ff.c:2260-2286 | the name is stored in the entries up to the one at hand, last part first, the short entry behind them; nothing else in the directory or on the volume changes, also when the disk fails |
| `DirectoryGrowth.GrownRegion` | src/fatfs/ff.c:1485-1504 | a directory that has grown has its old entries in their places and zeros behind them |
| `DirectoryGrowth.ExtendedTwice` | src/fatfs/ff.c:1533-1552 | so over any number of clusters |
| `DirectoryGrowth.DirAlloc` | src/fatfs/ff.c:1526-1558 | the first run of that many free entries, in the directory as it is or as it has grown; refused only when there is none and the directory cannot grow |
| `DirectoryGrowth.CountFree` | src/fatfs/ff.c:1544-1545 | the count of free entries in a row, and that there was no run before |
| `DirectoryGrowth.Register` | src/fatfs/ff.c:2257-2286 | the name is stored, long or short only, in entries that were free; every used entry is unchanged, and so is every sector outside the FAT, the directory and its new clusters |
| `DirectoryGrowth.StoredSurvives` | src/fatfs/ff.c:2257-2286 | every name that was stored is stored still |
| `DirectorySearch.DirRead` | src/fatfs/ff.c:2042-2108 | the object stands at the next item of the directory, with its long name in the buffer if it has one; or there is none, or the disk failed |
| `DirectoryItems.ReadStored` | src/fatfs/ff.c:2076-2094 | a stored name is read back whole, order 0 and checksum right, if and only if it has at most 253 characters |
| `DirectoryItems.ReadRest` | src/fatfs/ff.c:2081-2092 | the same from any entry of it on |
| `DirectorySearch.DirFind` | src/fatfs/ff.c:2118-2186 | the object stands at the entry that the directory's bytes determine, or there is none, or the disk failed; nothing logical changes |
| `DirectoryItems.FindStored` | src/fatfs/ff.c:2152-2176 | with and without a long name to look for, the search stops at a stored file if and only if it has the long name, in any case, or the short one; 255 characters are never found by the long name |
| `DirectoryItems.FindAmong` | src/fatfs/ff.c:2118-2186 | in a whole directory of stored files the search finds the first one wanted, and none if and only if there is none |
| `DirectoryItems.AgreesIsSame` | src/fatfs/ff.c:2162-2173 | all entries agree if and only if the names are equal up to case, whatever lies behind the terminator of the searched name |
| `Format.AutoUnit` | src/fatfs/ff.c:5218-5222 | the automatic cluster size is that of the table's row for the volume's size |
| `Format.RowUnique` | src/fatfs/ff.c:5166-5167 | there is only one such row |
| `Format.SelectUnit` | src/fatfs/ff.c:5217-5225 | whatever is asked for, a power of two up to 128 sectors, and what was asked for if it can be had |
| `Format.PlanVolume` | src/fatfs/ff.c:5227-5265 | the layout, in DWORD arithmetic, and when there is none |
| `Format.PlannedBounds` | src/fatfs/ff.c:5233-5265 | the parts of a layout are small, so nothing wraps but a number of sectors that should have been negative |
| `Format.PlannedIsPlan` | src/fatfs/ff.c:5227-5265 | what the arithmetic promises about a layout |
| `Format.FatLargeEnough` | src/fatfs/ff.c:5233-5240 | the FAT sized for all sectors has room for the entries that mounting asks for |
| `Format.PutPartitionTable` | src/fatfs/ff.c:5289-5303 | a sector that is no boot sector, with one partition from sector 63 on, of the volume's size |
| `Format.PutBootSector` | src/fatfs/ff.c:5310-5346 | every field that mounting reads, at its place |
| `Format.FindBase` | src/fatfs/ff.c:2953-2968 | the first boot sector among sector 0 and the partitions |
| `Format.FindVolume` | src/fatfs/ff.c:2953-3069 | mounting finds the boot sector and takes the geometry from it, or refuses |
| `Format.ReadBpb` | src/fatfs/ff.c:3022-3069 | the geometry, or that the sector is refused |
| `Format.FormatThenMount` | src/fatfs/ff.c:3022-3069 | a laid out volume is mounted as a sound one if and only if it is usable; then with its own type, positions and cluster count |
| `Format.UsableIsMounted` | src/fatfs/ff.c:3044-3069 | for every usable layout the FAT holds all entries and all parts lie inside the disk |
| `Format.MountsFormatted` | src/fatfs/ff.c:2953-3069 | the whole way from the formatted disk, with and without partition table, to the geometry |
| `Format.ClustersOfLayout` | src/fatfs/ff.c:953-961 | distinct clusters have disjoint sectors inside the volume and behind the FAT |
| `Format.UsableFits` | src/fatfs/ff.c:5355-5380 | where there is room for a cluster, the FAT and the root directory fit |
| `Format.UnusableFormats` | src/fatfs/ff.c:5245-5265 | which formats succeed and leave nothing to use: exactly those with less than a cluster behind the root directory, or too many clusters for FAT32 |
| `Format.RefusesFormatted` | src/fatfs/ff.c:3044-3069 | without room for a cluster, the formatted disk is not mounted |
| `Format.NoRoomLayout` | src/fatfs/ff.c:5245-5260 | the layout of 128 sectors with erase blocks of 128 has no cluster |
| `FreshVolume.NoRoomExample` | src/fatfs/ff.c:5205-5404 | on that disk formatting succeeds and mounting refuses |
| `FreshVolume.MakeVolume` | src/fatfs/ff.c:5205-5404 | formatting arrives at the planned layout; it succeeds if and only if the FAT and the root directory fit, and then that volume is there; without a plan the disk is unchanged |
| `FreshVolume.WriteVolume` | src/fatfs/ff.c:5281-5404 | it succeeds if and only if the FAT and the root directory fit, and then boot sector, partition table, FAT, root directory and information sector are all there |
| `FreshVolume.FreshTable` | src/fatfs/ff.c:5355-5380 | all clusters are free but the FAT32 root directory's |
| `FreshVolume.FreshIsSound` | src/fatfs/ff.c:5349-5404 | the new volume mounts with a well-formed table, and the free count in its information sector is right |
| `Crypto.Gcd` | src/ctr_crypto_interface.c:388-398 | the greatest common divisor |
| `Crypto.Lcm` | src/ctr_crypto_interface.c:400-403 | the larger of block and sector for sectors that divide a block or are made of blocks |
| `Chunks.Backwards` | src/ctr_crypto_interface.c:266-272 | the sectors before a sector in its block, in bytes |
| `Chunks.Forwards` | src/ctr_crypto_interface.c:275-281 | the sectors that complete the block, in bytes |
| `Chunks.BlockSectors` | src/ctr_crypto_interface.c:286-302 | the sectors that are read for a block hold all of it |
| `Crypto.CryptoInterface.GetMisalignedBlock` | src/ctr_crypto_interface.c:284-308 | the plaintext block that holds the sector, wherever the sectors lie |
| `Crypto.CryptoInterface.ReadSector` | src/ctr_crypto_interface.c:310-386 | exactly the slice of the plaintext disk, through head, middle and tail, the rest of the buffer unchanged; or an overrun, in exactly its cases |
| `Chunks.OverrunsIff` | src/ctr_crypto_interface.c:345-355 | when the head is clipped to the buffer and not to the request |
| `Chunks.OverrunExample` | src/ctr_crypto_interface.c:345-355 | one byte from position 1 into a buffer of sixteen |
| `PlainReads.ShowMiddle` | src/ctr_crypto_interface.c:353-362 | decrypting the middle blocks in place extends what is shown |
| `Crypto.CryptoInterface.SetupWindow` | src/ctr_crypto_interface.c:429-452 | the window starts with its block and holds the bytes before the first sector |
| `Crypto.CryptoInterface.ProcessWindow` | src/ctr_crypto_interface.c:475-515 | one window: the plaintext gets the piece of data in its place, then what stayed in its last block; the next window starts behind it |
| `Crypto.CryptoInterface.UpdateWindow` | src/ctr_crypto_interface.c:455-471 | the bytes not yet used move to the front of the window, the sectors and the block move on; behind a full window the next one starts where it ended |
| `CipherBlocks.WindowEffect` | src/ctr_crypto_interface.c:490-502 | decrypting the head only, storing, encrypting and writing show the data and the undecrypted remainder |
| `CipherBlocks.StoredPlain` | src/ctr_crypto_interface.c:501-507 | encrypting blocks onto the disk shows them to the client, and nothing else changes |
| `CipherBlocks.TailFrame` | src/ctr_crypto_interface.c:475-515 | what stays behind the data does not depend on the windows before |
| `Crypto.CryptoInterface.WriteSector` | src/ctr_crypto_interface.c:517-554 | over any number of windows, the plaintext is the old one with the data and the exact tail laid over it |
| `CleanWrites.CleanIff` | src/ctr_crypto_interface.c:490-502 | the writes that show exactly their data on every disk under every cipher are those that end well |
| `CleanWrites.EndsBadly` | src/ctr_crypto_interface.c:490-502 | all others spoil the byte behind the data of one disk |
| `CleanWrites.WriteShowsData` | src/ctr_crypto_interface.c:517-554 | a finished write that ends well is an overlay of the plaintext |
| `CleanWrites.ReadsBack` | src/ctr_crypto_interface.c:310-554 | write, then read: the data comes back, and what lies outside reads as before |
| `CleanWrites.WholeSectorsEndWell` | src/ctr_crypto_interface.c:517-554 | any number of sectors made of whole blocks ends well |
| `CleanWrites.BadSectorsExample` | src/ctr_crypto_interface.c:517-554 | seventeen sectors of one byte from sector 0 on do not |
| `CipherBytes.Write` | src/ctr_crypto_interface.c:197-200 | the plaintext is the old one with the bytes and the exact tail of section 2 laid over it; it succeeds on a device that does not fail and goes on as far as the transfer reads |
| `CipherBytes.BytesCleanIff` | include/ctr9/io/ctr_io_implementation.c:71-116 | the writes that show exactly their bytes on every disk under every cipher are those whose section 2 is empty or ends well |
| `CipherBytes.BytesSpoiled` | include/ctr9/io/ctr_io_implementation.c:93-103 | any other changes the byte behind the data of one disk |
| `CipherBytes.Spoil` | src/ctr_crypto_interface.c:197-200 | and succeeds on it |
| `CipherBytes.BlockEndsWell` | include/ctr9/io/ctr_io_implementation.c:93-103 | bytes that end with a block are written cleanly |
| `CipherBytes.SpoiledExample` | include/ctr9/io/ctr_io_implementation.c:93-103 | 1032 bytes from position 0 with sectors of 512 are not |
| `CipherBytes.Read` | src/ctr_crypto_interface.c:192-195 | exactly the bytes of the plaintext at that position, the rest of the buffer unchanged; or an overrun, in exactly its cases |
| `CipherBytes.MiddleFits` | include/ctr9/io/ctr_io_implementation.c:44-56 | no read of bytes overruns unless sectors have two or four bytes |
| `CipherBytes.MiddleOverrunExample` | include/ctr9/io/ctr_io_implementation.c:44-56 | nine bytes from position 0 with sectors of four do |
| `ByteIo.Read` | include/ctr9/io/ctr_io_implementation.c:16-69 | exactly the bytes at that position, as many as asked for and as fit, for every sector size; the rest of the buffer unchanged |
| `ByteIo.Write` | include/ctr9/io/ctr_io_implementation.c:71-116 | the device is overlaid with the bytes at that position, and even a failure stays in the sectors it touches |
| `Counters.AddCtr` | src/aes.c:88-118 | addition modulo 2^128 on a big-endian counter |
| `Counters.SubtractCtr` | src/aes.c:120-149 | subtraction modulo 2^128 |
| `Counters.SubtractUndoesAdd` | src/aes.c:88-149 | each undoes the other, byte for byte |
| `Counters.ValueInjective` | src/aes.c:94-97 | the sixteen bytes are determined by the number |
| `Aes.CtrDecrypt` | src/aes.c:174-190 | counter mode of the whole message, and the counter moves on by its blocks, across every run of 0xFFFF |
| `Aes.CtrAt` | src/aes.c:174-190 | block i is xored with the key block of counter + i modulo 2^128 |
| `Aes.CtrAdvance` | src/aes.c:174-190 | advancing the counter by k first decrypts the part from block k on |
| `Aes.CtrInverse` | src/aes.c:174-190 | counter mode is the kind of cipher the encrypted disk needs |
| `Aes.CtrBlocks` | src/ctr_crypto_interface.c:57-105 | input and output are that cipher on numbered blocks, and leave the interface's counter alone |
| `Aes.CryptSplit` | src/aes.c:180-189 | a message can be cut in runs |
| `Aes.CbcDecrypt` | src/aes.c:156-172 | in place, chaining over the whole message, though each run overwrites the block the next one needs |
| `Aes.CbcAt` | src/aes.c:156-172 | block i is its decryption xored with the ciphertext block before it |
| `Aes.CbcSplit` | src/aes.c:162-171 | a message can be cut in runs when the vector is the block before |
| `HashSearch.Ipow` | src/ctr_system.c:138-147 | the power modulo 2^32 |
| `HashSearch.Hash` | src/ctr_system.c:149-157 | the polynomial of sixteen bytes modulo 2^32 |
| `HashSearch.PolySlide` | src/ctr_system.c:159-165 | the polynomial of the next window from that of this one |
| `HashSearch.SlideForward` | src/ctr_system.c:159-165 | sliding gives the hash of the next window, through every wrap-around |
| `HashSearch.Search` | src/ctr_system.c:167-190 | no offset before the one returned is accepted, and the one returned is, unless it is the last |

## Left out

- exFAT, fast seek, file locks, TRIM, DBCS and Unicode builds: compiled out in this configuration.
- f_sync_, f_open_, f_close_, path resolution, labels, attributes, timestamps and string functions: a file starts open on a given chain.
- f_expand_: it does not keep the free counter, and its search can count a run across the end of the table.
- dir_remove, and the numbered short names in the first half of dir_register: the short name to be stored is given.
- DirectorySearch.DirRegister: starts where dir_alloc has found the entries (`DirectoryGrowth.Register` is the whole); a disk error leaves the entries of the new name undetermined.
- DirectoryGrowth.DirAlloc: after a disk error only the consistency of the volume is claimed (`Directory.DirObject.NextStretch` says what one step may touch).
- DirectorySearch.DirRead: for files and directories; the variant for volume labels (vol != 0) is not modelled.
- The geometry is fixed while a volume is mounted: mount identifiers and the validity check of file objects are left out.
- Masks by powers of two (cluster slots, window offsets, erase blocks) are written as division and remainder.
- Registers, the AES and SHA engines, the card driver, interrupts and timers: block devices, ciphers and digests that are parameters.
- CCM, and CBC encryption through the encrypted disk, which is not a function of the block number.
- Upper-case tables for patterns and names are parameters with the properties that are used; the code page itself is left out.
- Directory.DirObject: the pointer into the window is the offset in the sector; pattern and name pointers are suffixes and indices.
- Aes.CtrDecrypt: input and output are the same buffer, which is how the encrypted disk calls it; the general call has two.
- Aes.CbcDecrypt: the same.
- Crypto.CryptoInterface.WriteSector: the result of setup_window is not looked at by the code, so the effect is claimed for a device that does not fail or a write that starts with a block.
- Crypto.CryptoInterface.ReadSector: what an overrun does to memory is not modelled; it is a separate outcome.
- Chunks.Shape: sector sizes that neither divide a block nor are made of blocks are not modelled; the code's windows are not made for them.
- ByteIo.Write: the result of the last write is not looked at by the code, so on a device that fails success does not promise the overlay.
- CipherBytes.Write: claimed for a device that does not fail and goes on behind the bytes as far as the windows read; what an error leaves behind is not described.
- CipherBytes.Read: what an overrun does to memory is not modelled; it is a separate outcome.
- FreshVolume.MakeVolume: the disk does not fail, the copies of the boot and information sectors carry no claim, and the size of an erase block is a power of two as the mask assumes.
- File.FileObject.Seek: the bytes between the old end and a position behind it are whatever the clusters hold, as in the code.
- A transfer that fails leaves its target undetermined; recovery beyond passing the error on is not modelled.
