# Verified model of the file system, the config log and the profile generator

This project models four parts of the motor board firmware in Dafny and proves what they
promise.

**The FAT file system** (`fatfs/src/ff.c`, byte macros and objects of `fatfs/src/ff.h`), in
layers, each proved against a simple meaning:

- `Bits`, `Layout`, `Entries`: words and masks, the geometry of a volume, and the FAT as a
  table of packed 12-, 16- or 28-bit entries.
- `Volume`: the class `FatFs` with its one-sector write-back window. Its meaning is the
  *logical image*, the medium overlaid by the dirty window in all FAT copies, and the FAT
  decoded from it. Two ghost histories record the FAT after every store (`trace`) and on the
  medium after every sector write (`durable`); every entry of the second is one of the
  first, which is what crash safety rests on.
- `FatMap`, `FatRuns`, `Allocator`, `AllocatorRuns`: chains, the search for free clusters, creating, removing
  and cutting chains, on tables and through the window; runs of any length; crash safety at
  every sector write on FAT16/32.
- `FileView`, `FileObject`, `FileRead`, `FileWrite`, `FileSeek`, `FileTruncate`: the class
  `Fil` with its sector buffer and incremental cursor. Its meaning is a sequence of bytes.
  The cursor invariant (`Fil.Valid`) says that `clust` is the cluster of the byte before the
  position and `dsect` the sector of an unaligned position.
- `FileWorld`, `OpenFiles`: any number of files open on one volume, and every interleaving of
  reads, writes, seeks and truncations; when a write or seek gets as far as asked.
- `FreeScan`, `LinkMap`: the raw free-cluster scan and the fast-seek cluster map.
- `DirTable`, `Directory`: the class `Dir`, the directory cursor, its agreement with
  indexing, stretching, and the reservation of entries.
- `LongName`, `DirNames`: long names cut into entries, stored in directory sectors, found and put
  together again.
- `Mount`, `FormatPlan`, `Format`, `FormatMount`: find_volume, f_mkfs, and the round trip
  from one to the other. `MountBytes` and `FormatBytes` say in byte offsets and plain arithmetic
  what is read and written.

**The configuration log** (`src/config_flash_storage.c` over `src/flash/flash.c`) in
`FlashLog` and `ConfigStorage`: checksummed blocks appended to one flash sector whose bytes
can only lose bits until it is erased. Every byte programmed is a step of a ghost history, and
a power cut may come after any step. The checksum is a parameter; `FlashLog.Suitable` and
`FlashLog.QuietBehind` state what is assumed of it and of the memory behind the sector.

**The position profile generator** (`src/motor_controller.c`) in `Profile` and `Settling`, over
the reals.

**What the proofs found.** Where a promise fails, the code is modelled as it is and the exact
condition is proved:

- A name of 254 or 255 characters can be created but is not read back (`NameRoundTrip`), and
  one of 255 characters is never found again by it (`FoundExactly`).
- f_mkfs can succeed with an alignment that leaves no cluster; find_volume then refuses the
  volume, and this is the only case (`FormatThenMount`, `FormatMayLeaveNoCluster`).
- Boot sectors whose 32-bit sums wrap can be accepted with overlapping areas
  (`WrappedSumsOverlap`); an accepted volume has its areas in order exactly if their plain sum
  stays below 2^32 (`InOrderExactly`), and the whole layout exactly if its clusters also end
  on the drive and can be numbered (`SoundExactly`). find_volume checks neither.
- A file truncated at a sector boundary beside other open files may later read an old buffer instead
  of its sector (`StaleRead`); inside a sector, or with no buffer in use, it cannot (`Run`).
- f_getfree counts the reserved entries 0 and 1 if they are zero on FAT16/32, and stores a
  partial count when it meets an error mark on FAT12 (`GetFree`).
- The cluster link map cannot be built when the end mark read is the number following the
  last cluster, which takes a damaged entry in the last cluster (`MappableExactly`).
- config_save is atomic under power cuts exactly if there was no block or the payload fits
  behind the others; otherwise the sector is erased first (`Save`, for whole runs `SaveAll`).
- The profile generator stays in its region but need not settle: it has an eight-tick cycle
  (`NeedNotSettle`). From rest it settles at every distance exactly if
  maxVel <= maxAcc dt, from every start exactly if 2 maxVel <= maxAcc dt (`SettlesFromRest`,
  `SettlesFromAnywhere`).
- The thresholds between the FAT types are the code's, 4086 and 65526, one above those of the
  Microsoft FAT specification, section "FAT Type Determination".

Conventions: sectors have 512 bytes and files their own sector buffer, as configured in
`fatfs/src/ffconf.h`; f_mkfs, fast seek and long names, which are switched off there, are
modelled as the source has them when switched on. A chain is a ghost field of an open file.
Members named `...InPlain` and `...InBytes` state what the functions other contracts refer to come to, in
numbers, byte offsets and quantifiers only.
Helper methods split the C loops where one proof would be too large; each has its own contract.
`Health` collects what no operation may lose: an exact free count if known, safe tables,
agreeing FAT copies.

## Model

| member | source | states |
|---|---|---|
| `Bits.LdWord` | fatfs/src/ff.h:332 | the shifts and ors of LD_WORD read a little-endian 16-bit value |
| `Bits.LdDword` | fatfs/src/ff.h:333-335 | the shifts and ors of LD_DWORD read a little-endian 32-bit value |
| `Bits.StWord` | fatfs/src/ff.h:336-337 | ST_WORD then LD_WORD gives the value cut to 16 bits, all other bytes kept |
| `Bits.StDword` | fatfs/src/ff.h:338-341 | ST_DWORD then LD_DWORD gives the value cut to 32 bits, all other bytes kept |
| `Bits.LittleEndian` | fatfs/src/ff.h:332-341 | the loads as sums of bytes times powers of 256, the stored bytes as quotients |
| `Bits.AndMask` | fatfs/src/ff.c:3166 | for a power of two p, masking with p - 1 is the remainder modulo p, as all boundary tests of the code assume |
| `Bits.AndHighMask` | fatfs/src/ff.c:3756 | masking with the complement of p - 1 rounds down to a multiple of p |
| `Layout.ClustersDisjoint` | fatfs/src/ff.c:1146-1150 | distinct clusters have disjoint sector ranges |
| `Layout.ClusterInside` | fatfs/src/ff.c:1146-1150 | every cluster number in range names sectors inside the data area and the drive |
| `Layout.ClusterInPlain` | fatfs/src/ff.c:1141-1151 | cluster c starts (c - 2) * csize sectors behind the data start |
| `Layout.EntryInBytes` | fatfs/src/ff.c:1161-1206 | the FAT entry of each type from the bytes of the first FAT copy: 12 bits from one and a half bytes by the parity of the cluster, 16 bits from two, 28 bits from four |
| `Layout.FatOfFrame` | fatfs/src/ff.c:1053-1063 | the table depends on the first FAT copy only |
| `Layout.WithSectorMirrors` | fatfs/src/ff.c:1058-1063 | writing one sector back to every copy keeps all FAT copies equal |
| `Layout.WithSectorInPlain` | fatfs/src/ff.c:1045-1064 | a sector of the first FAT copy is stored in the second one too if there is one, every other sector once |
| `Entries.PutEntryLaw` | fatfs/src/ff.c:1230-1273 | after put_fat the FAT, decoded as 12, 16 or 28 bit entries, is the old table with exactly one entry replaced by the value cut to that width; sectors outside the FAT are untouched and agreeing copies still agree |
| `Entries.PutOwn` | fatfs/src/ff.c:1230-1273 | get_fat(c) after put_fat(c, v) is v cut to 12, 16 or 28 bits, also for FAT12 entries that straddle two sectors |
| `Entries.PutOther` | fatfs/src/ff.c:1231-1248 | every other entry keeps its value, also the FAT12 neighbour sharing a byte |
| `Entries.PutNeighbour12` | fatfs/src/ff.c:1238-1247 | the FAT12 entry in the other nibble of a shared byte is unchanged |
| `Entries.PutKeepsReserved32` | fatfs/src/ff.c:1263-1266 | the reserved top four bits of a FAT32 entry survive every store of a 28-bit value |
| `Entries.Merge32Meaning` | fatfs/src/ff.c:1264-1266 | the mask and or of the FAT32 case keep the top nibble and take the low 28 bits of the value |
| `FatMap.ChainDistinct` | fatfs/src/ff.c:1303-1333 | a chain that ends is acyclic |
| `FatMap.ChainUnique` | fatfs/src/ff.c:1303-1333 | the chain from a start cluster is unique |
| `FatMap.ChainExtend` | fatfs/src/ff.c:1397-1400 | marking a free cluster as end and linking it behind the last one extends the chain by it |
| `FatMap.ChainCut` | fatfs/src/ff.c:4129-4133 | an end mark inside a chain splits it into the two chains before and after |
| `FatMap.FreeCountInPlain` | fatfs/src/ff.c:4030-4075 | the free count is the size of the set of free clusters |
| `FatMap.CreateInPlain` | fatfs/src/ff.c:1348-1408 | create_chain behind an end of chain or for a new chain: the search starts behind the cluster given, else behind the last one allocated if that is a cluster number, else at cluster 2; every cluster it passes on its way round is in use and holds no error mark, the one taken gets the end mark and is linked, nothing else changes |
| `FatMap.FollowInPlain` | fatfs/src/ff.c:1362-1372 | create_chain on a cluster with a successor returns it, and rejects a damaged link, changing nothing |
| `FatMap.SearchComplete` | fatfs/src/ff.c:1376-1395 | on a FAT without entries equal to 1 the search of create_chain returns 0 exactly when no cluster is free, and else the first free one in cyclic order after the hint, for every hint |
| `FatMap.SearchSound` | fatfs/src/ff.c:1376-1395 | on any FAT: a cluster returned is free, 1 means an error mark was met, 0 means nothing is free |
| `FatMap.TurnInverse` | fatfs/src/ff.c:1376-1395 | the search visits every cluster exactly once per round |
| `FatMap.FreeFromChain` | fatfs/src/ff.c:1303-1333 | on a well-formed chain remove_chain frees exactly its clusters and no others |
| `FatMap.FreeFromInPlain` | fatfs/src/ff.c:1287-1340 | remove_chain on any table, step by step: done at a free cluster or a number outside, failed at an error mark, else the entry is cleared and the walk goes on |
| `FatMap.FreeFromCount` | fatfs/src/ff.c:1314-1319 | each entry cleared by remove_chain is one more free cluster, on any FAT |
| `FatRuns.CreateIsSafe` | fatfs/src/ff.c:1397-1400 | from a FAT without cross-links or links to free clusters, every table create_chain stores on the way is free of them too |
| `FatRuns.FreeIsSafe` | fatfs/src/ff.c:1303-1333 | freeing from a cluster nothing links to never leaves a link to a free cluster, at any step |
| `FatRuns.CutIsSafe` | fatfs/src/ff.c:4129-4133 | end mark first, then freeing the tail: no intermediate table has a link to a free cluster or a cross-link |
| `FatRuns.StepKeeps` | fatfs/src/ff.c:1303-1406 | one create, extend, remove or cut keeps all chains well-formed and pairwise disjoint, the number of free plus chained clusters constant, and leaks nothing |
| `FatRuns.RunKeeps` | fatfs/src/ff.c:1303-1406 | the same over every run of such calls |
| `FatRuns.RunIsSafe` | fatfs/src/ff.c:1303-1406 | crash safety over every run: when all clusters in use are chained, every table the whole run stores is free of links to free clusters and of cross-links, removals included |
| `FatRuns.UnnamedChainsStay` | fatfs/src/ff.c:1303-1406 | a call leaves every chain it does not name alone, entry by entry |
| `FatRuns.HeadHasNoPredecessor` | fatfs/src/ff.c:1287-1338 | when all clusters in use are chained, nothing links to the head of a chain, so removing it is safe |
| `Volume.FatFs.constructor` | fatfs/src/ff.h:77-107 | a volume just mounted is valid, its window clean |
| `Volume.FatFs.SyncWindow` | fatfs/src/ff.c:1045-1067 | after the write-back the medium is the logical image (medium overlaid by the dirty window, in all FAT copies); after each of its sector writes the medium is the whole logical image up to the further FAT copies, and the FAT seen was the logical FAT at some earlier store |
| `Volume.FatFs.ReflectCopies` | fatfs/src/ff.c:1058-1063 | the mirror loop reaches the image with the sector in all copies |
| `Volume.FatFs.MoveWindow` | fatfs/src/ff.c:1072-1090 | moving the window changes nothing in the logical image and loads the sector as it stands there |
| `Volume.FatFs.StoreWindow` | fatfs/src/ff.c:1230-1273 | a store into the window is a store into the logical image and nothing else |
| `Volume.FatFs.Clust2Sect` | fatfs/src/ff.c:1141-1151 | the first sector of a cluster in range, 0 for any other number, with the unsigned subtraction of the code |
| `Volume.FatFs.GetFat` | fatfs/src/ff.c:1161-1206 | the entry of the decoded table through the window, 1 for a number out of range, the logical image unchanged |
| `Volume.FatFs.PutFat` | fatfs/src/ff.c:1216-1276 | the decoded table with one entry replaced by the value cut to the entry width, error for a number out of range, nothing outside the FAT touched |
| `Volume.FatFs.WriteSectors` | fatfs/src/ff.c:3335-3342 | direct data writes replace exactly those sectors of the logical image and leave the FAT alone |
| `Volume.FatFs.ReadSectors` | fatfs/src/ff.c:3191-3198 | direct data reads deliver the logical image |
| `Allocator.MediumIsSafe` | fatfs/src/ff.c:1045-1090 | ordered write-back: if every FAT stored so far was safe, so was the FAT on the medium after every sector write, and so it is now |
| `Allocator.RemoveChain` | fatfs/src/ff.c:1287-1338 | terminates on every FAT, even cyclic or cross-linked; clears what FreeFrom clears, keeps a known free count exact and the stored tables safe |
| `Allocator.FindFree` | fatfs/src/ff.c:1376-1395 | the search loop finds what the cyclic search specifies and changes nothing |
| `Allocator.CreateChain` | fatfs/src/ff.c:1348-1410 | follows, extends or creates a chain as specified on tables, with hint and free count kept exact and every stored table safe |
| `Allocator.CutTail` | fatfs/src/ff.c:4121-4133 | end mark, then freeing: exactly the tail of the chain becomes free, free count and safety kept |
| `AllocatorRuns.ServeAll` | fatfs/src/ff.c:1287-1406 | a whole run of creating, extending, removing and cutting on a mounted volume: table, hint, chains and stored tables are those of the run on tables, and if no cluster in use was lost every FAT on the medium after every sector write of the run is safe |
| `FileView.LbaInjective` | fatfs/src/ff.c:1146-1150 | different sectors of a file lie in different sectors of the drive |
| `FileView.FlushKeeps` | fatfs/src/ff.c:3216-3222 | writing the dirty sector buffer back does not change the content of the file |
| `FileView.LoadKeeps` | fatfs/src/ff.c:3224-3229 | loading another sector into a clean buffer does not change the content |
| `FileView.CopyWrites` | fatfs/src/ff.c:3377-3389 | copying into the buffer overwrites exactly those bytes of the content |
| `FileView.DirectWrites` | fatfs/src/ff.c:3335-3357 | a direct write of whole sectors, with the buffer refreshed from it, overwrites exactly those bytes |
| `FileView.FetchedBytes` | fatfs/src/ff.c:3191-3212 | a direct read patched with the dirty buffer delivers the content |
| `FileView.OverwriteAt` | fatfs/src/ff.c:3256-3399 | what overwriting means, byte by byte |
| `FileView.ByteInPlain` | fatfs/src/ff.c:3166-3240 | on which sector of which cluster each byte of a file lies, unless the dirty buffer shows it |
| `FileObject.Fil.constructor` | fatfs/src/ff.h:113-136 | an open file at position 0 satisfies the cursor invariant |
| `FileObject.Flush` | fatfs/src/ff.c:3216-3222 | the dirty buffer reaches its sector and nothing else changes |
| `FileObject.StretchOutcome` | fatfs/src/ff.c:3291-3312 | create_chain behind the i-th cluster of a file either follows the chain, extends it by one cluster that was free in the table before, or fails for want of free clusters or because of an error mark |
| `FileObject.FollowOrStretch` | fatfs/src/ff.c:3291-3317 | the same through the window, the content of the file and everything outside it kept, the cluster added free before |
| `FileObject.OtherFileStays` | fatfs/src/ff.c:3256-3399 | a file whose clusters were not the written file's before the call keeps its chain and every byte, and shares none with the grown chain |
| `FileObject.Fil.Bystander` | fatfs/src/ff.c:3256-3399 | another open file of the volume stays valid, with its content, position and cursor, and its clusters stay apart |
| `FileWrite.Write` | fatfs/src/ff.c:3256-3399 | f_write: the content becomes the old one with exactly [fptr, fptr + bw) replaced, the size the maximum; bw < btw only if the position would pass 32 bits (then 0) or at the end of the last cluster when none is free; the chain gets the clusters the position needs, all free before, and no more; the cursor invariant and everything outside the file are kept |
| `FileWrite.WriteLoop` | fatfs/src/ff.c:3286-3391 | the loop over sectors and clusters writes a growing prefix of the data |
| `FileRead.Read` | fatfs/src/ff.c:3133-3246 | f_read delivers exactly min(btr, size - fptr) bytes of the content from fptr on and changes neither content nor anything outside the file |
| `FileSeek.Seek` | fatfs/src/ff.c:3655-3831 | f_lseek reaches the offset with the cursor invariant, clipped to the size when read-only and to the last cluster when the volume is full; the chain gets the clusters the position needs, all free before, and no more; the old content stays, the size becomes the maximum |
| `FileSeek.ClusterStart` | fatfs/src/ff.c:3754-3758 | the masked subtraction of the forward seek finds the start of the current cluster |
| `FileTruncate.Truncate` | fatfs/src/ff.c:4095-4150 | f_truncate keeps the content before fptr, leaves a chain of exactly ceil(fptr / cluster bytes) clusters, frees all others and nothing else, the free count and the FAT copies always, safe tables if nothing links to the first cluster or fptr is not 0 |
| `FileTruncate.OtherFileSurvivesCut` | fatfs/src/ff.c:4095-4150 | after the cut a file in other clusters has its chain and every byte |
| `FileTruncate.ClustersForIsCeiling` | fatfs/src/ff.c:4114-4134 | the number of clusters kept is the ceiling |
| `FileTruncate.CutChain` | fatfs/src/ff.c:4117-4135 | both branches of the cut free exactly the tail |
| `FileWorld.WriteCompletes` | fatfs/src/ff.c:3256-3399 | on a volume without error marks f_write writes all bytes if and only if the clusters of the file and the free ones suffice for them (below the 32-bit limit) |
| `FileWorld.SeekCompletes` | fatfs/src/ff.c:3729-3792 | f_lseek reaches its target if and only if they suffice up to it |
| `FileWorld.HistoryConserves` | fatfs/src/ff.c:3134-4150 | over any history of calls on open files the number of free clusters plus those of the files is constant |
| `FileWorld.HistoryNeverFails` | fatfs/src/ff.c:3134-4150 | without error marks at the start no call of a history fails |
| `OpenFiles.Step` | fatfs/src/ff.c:3134-4150 | f_read, f_write, f_lseek or f_truncate on one of any number of open files does to its content, its clusters and the FAT what it does to a file alone, result code and byte count included, and nothing to the others |
| `OpenFiles.Run` | fatfs/src/ff.c:3134-4150 | every interleaving of such calls shows a history of contents, clusters and FAT in which each call does what it does to a file alone; it starts and ends in what the volume holds, and stops early only behind a cut at a sector boundary |
| `OpenFiles.StaleRead` | fatfs/src/ff.c:4111-4136 | why it may stop: a file cut to nothing that gets its cluster back after another file wrote there is read from its old buffer |
| `FreeScan.GetFree` | fatfs/src/ff.c:4016-4086 | f_getfree: on FAT16/32 the raw sector scan equals counting zero entries plus the reserved entries 0 and 1 if those are zero, even with a FAT sector dirty in the window; on FAT12 it is exact, or stops at an error mark with the partial count stored |
| `FreeScan.ScanVersusCount` | fatfs/src/ff.c:4054-4079 | when entries 0 and 1 are non-zero, counting all zero entries is counting the free clusters |
| `FreeScan.ScanRaw` | fatfs/src/ff.c:4054-4078 | the scan over raw FAT sectors counts the zero entries |
| `FreeScan.ScanEntries` | fatfs/src/ff.c:4040-4053 | the FAT12 loop counts with get_fat and stops at the first error mark |
| `LinkMap.RunIsMaximal` | fatfs/src/ff.c:3681-3693 | a fragment is a maximal run of consecutive clusters |
| `LinkMap.FragmentsUnfold` | fatfs/src/ff.c:3685-3703 | the map lists length and first cluster of one maximal fragment after the other |
| `LinkMap.CreateLinkMap` | fatfs/src/ff.c:3675-3703 | the table holds the fragments of the chain; too small a table is reported with the exact required size 2 + 2 * fragments; building fails exactly when the end mark follows the last cluster number |
| `LinkMap.MappableExactly` | fatfs/src/ff.c:3683-3696 | building fails only for a file that ends in the last cluster of the volume with the entry count itself for an end mark, never with a genuine end mark |
| `LinkMap.DamagedEndFails` | fatfs/src/ff.c:3683-3696 | a table on which it fails |
| `LinkMap.ClmtClust` | fatfs/src/ff.c:1424-1445 | looking an offset up in the map gives the cluster reached by following the FAT that many clusters, 0 behind the end |
| `LinkMap.StoredMap` | fatfs/src/ff.c:3694-3702 | the stored table is a map of the chain |
| `LinkMap.MapSize` | fatfs/src/ff.c:3695-3701 | the table size is two more than twice the number of fragments |
| `Mount.LettersFat` | fatfs/src/ff.c:2675-2680 | the masked 32-bit comparison recognises exactly the letters FAT |
| `Mount.LocateFindsFirst` | fatfs/src/ff.c:2751-2777 | the volume used is sector 0 or else the first partition with a FAT boot sector; one is found exactly when there is one |
| `Mount.SearchPartitions` | fatfs/src/ff.c:2754-2769 | the do-while loop over the partition table is the search |
| `Mount.NeededIsTight` | fatfs/src/ff.c:2837-2851 | the computed FAT size is exactly the end of the last entry, for all three types and odd and even FAT12 counts |
| `Mount.AcceptsExactly` | fatfs/src/ff.c:2780-2851 | unless the sum of the areas wraps, a parameter block is accepted if and only if it is sensible in plain arithmetic |
| `Mount.MountIsSound` | fatfs/src/ff.c:2780-2854 | an accepted volume whose clusters end on the drive: reserved area, FAT copies, root table and clusters follow each other without overlap inside the volume, less than a cluster is lost, and the FAT holds every entry |
| `Mount.InOrderExactly` | fatfs/src/ff.c:2790-2838 | the areas of an accepted volume are in order if and only if start and area sizes, added up as plain numbers, stay below 2^32 |
| `Mount.SoundExactly` | fatfs/src/ff.c:2780-2854 | an accepted volume has the layout every operation relies on if and only if its entry count stays below the FAT32 end mark and its clusters end on the drive |
| `Mount.WrappedSumsOverlap` | fatfs/src/ff.c:2790-2838 | an absurd FAT size is accepted because a sum wraps, and the areas overlap |
| `Mount.FindVolume` | fatfs/src/ff.c:2693-2888 | find_volume mounts exactly when a FAT boot sector with a sensible block is found, reports a drive error exactly when the search ends in one, and yields a valid volume with the FSINFO hints |
| `MountBytes.BootInBytes` | fatfs/src/ff.c:2661-2683 | check_fs by byte values: the signature at 510, the letters FAT at 54 or 82 |
| `MountBytes.PartitionInBytes` | fatfs/src/ff.c:2757-2762 | where each of the four partitions starts, by byte offset |
| `MountBytes.HintsInBytes` | fatfs/src/ff.c:2862-2876 | the FSINFO hints by byte offset, taken only with all three signatures |
| `MountBytes.SearchInPlain` | fatfs/src/ff.c:2751-2777 | sector 0, or the first of the four partitions that starts on the drive with a FAT boot sector, is mounted; when there is none, and when that is a drive error |
| `MountBytes.GeometryInBytes` | fatfs/src/ff.c:2780-2854 | every field of the geometry, FAT copies, cluster size, FAT size, start of FAT, root and data area, entry count and type, from the fields at 13, 14, 16, 17, 19, 22, 32, 36 and 44 of the boot sector |
| `MountBytes.InfoInBytes` | fatfs/src/ff.c:2862-2865 | FSINFO is asked for by the word at 48 |
| `MountBytes.AcceptsInBytes` | fatfs/src/ff.c:2780-2851 | which boot sectors are accepted, by byte offset and in plain arithmetic |
| `MountBytes.TrustedInBytes` | fatfs/src/ff.c:2780-2854 | what mounting relies on, by byte offset: no sum above 2^32 and clusters that end on the drive |
| `FormatPlan.Row` | fatfs/src/ff.c:4846-4851 | the size table is searched for its first row not above the volume |
| `FormatPlan.GapAligns` | fatfs/src/ff.c:4889-4895 | for a power-of-two erase block the gap leads to the next block boundary and is shorter than a block |
| `FormatPlan.FatSectorsSuffice` | fatfs/src/ff.c:4871-4879 | the FAT is large enough for the clusters it was computed from |
| `FormatPlan.PlanLaws` | fatfs/src/ff.c:4861-4907 | a plan has an aligned data start, fits its boot sector fields, and if there is room for a cluster keeps its type and holds all entries |
| `FormatBytes.UnitInPlain` | fatfs/src/ff.c:4846-4859 | the cluster size: au / 512 within 1 to 128, or by volume size with all eleven thresholds and units written out |
| `FormatBytes.SizesInPlain` | fatfs/src/ff.c:4861-4882 | FAT type, FAT size, reserved area and root area for a number of clusters |
| `FormatBytes.PlanInPlain` | fatfs/src/ff.c:4861-4907 | the whole plan in plain arithmetic, and exactly when there is none |
| `Format.ChooseUnit` | fatfs/src/ff.c:4846-4859 | the cluster size in sectors for the caller's wish or the volume size |
| `Format.ClearSectors` | fatfs/src/ff.c:5014-5028 | clears exactly the named sectors and fails only at the end of the drive |
| `Format.WriteVolume` | fatfs/src/ff.c:4928-5048 | every sector of the drive after a complete run; success exactly if all areas lie on the drive |
| `Format.MakeFs` | fatfs/src/ff.c:4772-5050 | f_mkfs with its four results and when each is given; nothing is written before the last check |
| `FormatBytes.BootFields` | fatfs/src/ff.c:4952-4989 | the fields of the boot sector all types have, by byte offset |
| `FormatBytes.Boot32Fields` | fatfs/src/ff.c:4972-4982 | the FAT32 fields of the boot sector, by byte offset |
| `FormatBytes.Boot16Fields` | fatfs/src/ff.c:4983-4991 | the FAT12/16 fields of the boot sector, by byte offset |
| `FormatBytes.MasterInBytes` | fatfs/src/ff.c:4932-4948 | the partition sector by byte offset: one entry with its type, everything else zero |
| `FormatBytes.MasterExtent` | fatfs/src/ff.c:4943-4945 | start and length of the volume, and the signature, in the partition sector |
| `FormatBytes.FatInBytes` | fatfs/src/ff.c:4997-5012 | the first FAT sector, by byte offset |
| `FormatBytes.InfoInBytes` | fatfs/src/ff.c:5039-5048 | the FSINFO sector, by byte offset |
| `FormatBytes.AreasInPlain` | fatfs/src/ff.c:4952-5030 | the areas written lie on the drive if and only if FAT and root directory end on it |
| `FormatBytes.SectorsInPlain` | fatfs/src/ff.c:4928-5048 | which sector holds what after a format; FAT and root directory behind the first FAT sector are zero, all other sectors as before |
| `FormatMount.BootRoundTrip` | fatfs/src/ff.c:4952-4989 | the parameter block written is the block a mount reads |
| `FormatMount.MasterBootFields` | fatfs/src/ff.c:4932-4948 | the partition sector is no FAT boot sector and leads to sector 63 |
| `FormatMount.FoundAgain` | fatfs/src/ff.c:2751-2777 | after a format the search ends at the volume just made |
| `FormatMount.AcceptedIffRoomy` | fatfs/src/ff.c:4902-4907 | a mount accepts the formatted volume if and only if the alignment left room for a cluster |
| `FormatMount.GeometryRecovered` | fatfs/src/ff.c:2780-2854 | type, cluster size, FAT size, data start and cluster count come back as planned |
| `FormatMount.FreshFat` | fatfs/src/ff.c:4997-5020 | the new FAT has its reserved entries, a root directory cluster on FAT32, and all other entries free |
| `FormatMount.InfoHints` | fatfs/src/ff.c:5039-5047 | the FSINFO sector gives back the free count and the hint |
| `FormatMount.FormatThenMount` | fatfs/src/ff.c:4772-5050 | format then mount: accepted exactly if roomy, everything recovered, data area on an erase block, FSINFO free count equal to the number of zero entries |
| `FormatMount.FormatMayLeaveNoCluster` | fatfs/src/ff.c:4889-4907 | a drive for which f_mkfs succeeds although alignment leaves no cluster |
| `DirTable.MovedIsNext` | fatfs/src/ff.c:1511-1590 | moving on entry by entry comes to exactly where the index leads directly, on any FAT |
| `DirTable.NextCases` | fatfs/src/ff.c:1526-1546 | when there is a next entry |
| `DirTable.ChainIsTable` | fatfs/src/ff.c:1481-1491 | on a well-formed FAT the clusters of a directory are its chain |
| `DirTable.WalkInPlain` | fatfs/src/ff.c:1477-1491 | the walk through a directory on any FAT, cluster after cluster while the entry is a cluster number |
| `DirTable.RootInPlain` | fatfs/src/ff.c:1470-1496 | where each entry of the fixed root area stands, and how many there are |
| `DirTable.ChainInPlain` | fatfs/src/ff.c:1466-1497 | where each entry of a directory in clusters stands; the FAT32 root directory starts at the mounted root cluster |
| `DirTable.NextInPlain` | fatfs/src/ff.c:1511-1595 | what dir_next answers without stretching, by index, cluster size and FAT entry |
| `DirTable.BlankInBytes` | fatfs/src/ff.c:1611-1622 | the bytes of an entry, and that it is blank if the first is 0xE5 or 0 |
| `DirTable.RunInPlain` | fatfs/src/ff.c:1611-1622 | a run of blank entries by their first bytes |
| `DirTable.WalkStretched` | fatfs/src/ff.c:1547-1579 | after stretching, the walk reaches the old clusters as before and then the new one |
| `DirTable.StretchUnharmed` | fatfs/src/ff.c:1547-1579 | stretching keeps the table, the links and sectors of every cluster in use, and adds only clusters that were free and are cleared |
| `DirTable.EntriesKept` | fatfs/src/ff.c:1599-1630 | every entry there was keeps its place and its 32 bytes |
| `DirTable.ChainEntriesKept` | fatfs/src/ff.c:1599-1630 | the same for a directory in a well-formed chain |
| `DirTable.NewEntriesEmpty` | fatfs/src/ff.c:1561-1570 | entries a stretch added are all zero |
| `DirTable.SearchMoves` | fatfs/src/ff.c:1611-1624 | the run length counter is exact: a run is complete when it reaches the number wanted, and none was passed over |
| `DirTable.SearchFails` | fatfs/src/ff.c:1623-1629 | when the search ends without success there is no run in the table |
| `Directory.Dir.SetIndex` | fatfs/src/ff.c:1456-1503 | dir_sdi succeeds exactly if the entry exists, on any FAT, with cluster, sector and offset of that entry |
| `Directory.Dir.Next` | fatfs/src/ff.c:1511-1590 | dir_next from entry i stands on entry i + 1, or tells end of table, damage, or a full volume, in exactly those cases; stretching extends the table by one cleared cluster |
| `Directory.Dir.StretchTable` | fatfs/src/ff.c:1547-1570 | the stretching part: a free cluster linked behind the last one and cleared, or nothing changed |
| `Directory.ClearCluster` | fatfs/src/ff.c:1558-1570 | every sector of the new cluster is cleared through the window, the rest of the drive and the FAT kept |
| `Directory.Dir.Alloc` | fatfs/src/ff.c:1599-1630 | dir_alloc ends on the first run of nent blank entries and adds no cluster behind the one it ends in; Denied means that no run exists and none can be made; everything in use is unharmed |
| `LongName.FitLfn` | fatfs/src/ff.c:1755-1786 | an entry holds its 13 characters, terminator and filler, and the last-segment flag also when the length is a multiple of 13 |
| `LongName.SegmentInBytes` | fatfs/src/ff.c:1755-1780 | a long entry by byte offset: number and end flag, attribute, checksum, 13 characters, terminator and filler |
| `LongName.SegmentsIsCeiling` | fatfs/src/ff.c:2067-2071 | a name takes the least number of entries with 13 characters each |
| `LongName.CharInBytes` | fatfs/src/ff.c:1677 | the byte offsets of the 13 characters |
| `LongName.PickLfn` | fatfs/src/ff.c:1716-1750 | the loop computes Pick, with its buffer limits |
| `LongName.PickInPlain` | fatfs/src/ff.c:1716-1750 | pick_lfn on any entry: which characters go where, and what makes it fail |
| `LongName.PickSegment` | fatfs/src/ff.c:1716-1750 | a segment goes back to its place in the buffer unless it is the last one of a name longer than 253 characters |
| `LongName.NameRoundTrip` | fatfs/src/ff.c:1984-2004 | dir_read restores a stored name if and only if it has at most 253 characters, for every name without 0 and 0xFFFF, whatever was read before |
| `LongName.CmpLfn` | fatfs/src/ff.c:1681-1711 | the loop computes Compare, with its buffer limits |
| `LongName.CompareInPlain` | fatfs/src/ff.c:1681-1713 | cmp_lfn on any entry: which characters have to agree, and what has to follow the terminator |
| `LongName.FindsExactly` | fatfs/src/ff.c:1681-1711 | cmp_lfn accepts all entries of a stored name if and only if it differs from the name looked for in case only and has at most 254 characters |
| `LongName.FoundExactly` | fatfs/src/ff.c:1915-1936 | with the order and checksum bookkeeping of dir_find run over the entries, whatever came before: the file is found by its long name under the same condition exactly |
| `LongName.SequenceInPlain` | fatfs/src/ff.c:1915-1936 | the order and checksum machines of dir_find and dir_read on any entry, by byte values |
| `DirNames.PutEntry` | fatfs/src/ff.c:2082-2087 | an entry is written through the window in its place, and the FAT and the rest of the drive stay |
| `DirNames.StoreName` | fatfs/src/ff.c:2077-2091 | the segments are stored in descending order in the directory sectors in front of the short entry, all other entries kept |
| `DirNames.Register` | fatfs/src/ff.c:2067-2106 | dir_register: a run of blank entries is reserved and filled with segments and short entry, every entry in use stays byte for byte, and the directory gets no cluster behind them; refused if no run can be had |
| `DirNames.DirRead` | fatfs/src/ff.c:1960-2020 | dir_read over the sectors: stops at the first entry, by its byte values, that is no deleted, dot, label or long entry, and fails if none stands before the first unused one; order, checksum and characters of the long name seen |
| `DirNames.ReadInBytes` | fatfs/src/ff.c:1972-2013 | by byte values: which entries dir_read passes, at which one it stops, and when there is none |
| `DirNames.ReadsBack` | fatfs/src/ff.c:1960-2106 | a name registered in directory sectors is read back from them if and only if it has at most 253 characters |
| `FlashLog.LogUnique` | src/config_flash_storage.c:176-200 | the blocks found by the scan are determined by the memory |
| `FlashLog.BlockInBytes` | src/config_flash_storage.c:119-148 | a block is valid if the words at 0 and 8 are the checksums of the bytes from 4 to 8 and of the payload from 12 on |
| `FlashLog.HeaderInBytes` | src/config_flash_storage.c:150-167 | the header written: checksum of the length, length, checksum of the payload |
| `FlashLog.LogInPlain` | src/config_flash_storage.c:176-200 | each block stands behind the one before, 12 bytes and its payload long, and none behind the last |
| `FlashLog.ErasedIsNoBlock` | src/config_flash_storage.c:119-148 | erased flash is not a valid block |
| `FlashLog.PayloadPrefixIsOld` | src/config_flash_storage.c:77-90 | with any prefix of the payload programmed the log is still the old one |
| `FlashLog.HeaderPrefixIsOldOrNew` | src/config_flash_storage.c:150-167 | with any prefix of the header programmed the log is the old one or the complete new one |
| `FlashLog.AppendDone` | src/config_flash_storage.c:77-92 | the finished append is the old blocks and the new one, followed by erased bytes |
| `ConfigStorage.Flash.constructor` | src/flash/flash.c:73-102 | the flash as found after a restart, with the bytes that can still be programmed |
| `ConfigStorage.Flash.WriteByte` | src/flash/flash.c:73-81 | programming can only clear bits, and a byte is programmed once between erases |
| `ConfigStorage.Flash.Write` | src/flash/flash.c:83-102 | the medium goes through every prefix of the data, byte by byte |
| `ConfigStorage.Flash.Erase` | src/flash/flash.c:104-123 | the sector becomes 0xFF and may be programmed again |
| `ConfigStorage.BlockIsValid` | src/config_flash_storage.c:119-148 | both checksums match |
| `ConfigStorage.FindLastUsed` | src/config_flash_storage.c:176-188 | the address of the last block of the log, or none |
| `ConfigStorage.FindFirstFree` | src/config_flash_storage.c:190-200 | the address behind the last block |
| `ConfigStorage.Load` | src/config_flash_storage.c:95-117 | the reader gets exactly the last payload |
| `ConfigStorage.WritePayload` | src/config_flash_storage.c:15-25 | the chunks are programmed one after the other behind the header, refused exactly when they do not fit |
| `ConfigStorage.WriteHeader` | src/config_flash_storage.c:150-167 | length checksum, length and data checksum are programmed in this order, byte by byte |
| `ConfigStorage.AppendIsAtomic` | src/config_flash_storage.c:77-92 | after a power cut at any byte of an append, config_load would hand out the old payload or the new one |
| `ConfigStorage.Append` | src/config_flash_storage.c:60-92 | payload first, header last: succeeds exactly if the payload fits, and then atomically |
| `ConfigStorage.SaveOnce` | src/config_flash_storage.c:43-92 | one attempt of config_save: succeeds exactly if the payload fits the room found; at every byte the sector reads as before, as after, or empty |
| `ConfigStorage.Save` | src/config_flash_storage.c:43-93 | config_save: if header and payload (and at least one byte behind the header) fit behind the blocks there are, the payload is appended and a power cut at any byte leaves the old or the new one; otherwise it is stored alone after an erase, which is atomic only if there was no block |
| `ConfigStorage.SavedInPlain` | src/config_flash_storage.c:60-73 | when a payload is appended and when the sector is erased first, in byte counts |
| `ConfigStorage.ErasedIsNotAtomic` | src/config_flash_storage.c:66-71 | an erase with blocks present has a moment at which neither payload can be loaded |
| `ConfigStorage.SaveAll` | src/config_flash_storage.c:43-117 | any sequence of config_save calls and then config_load: the last payload is loaded; at every byte of the k-th save the sector reads as before this save, as after it, or empty, and empty exactly if the save does not fit behind the blocks before |
| `ConfigStorage.RunInPlain` | src/config_flash_storage.c:60-92 | what the k-th save of a run leaves, in byte counts, and when it needs no erasing |
| `Profile.AwayStep` | src/motor_controller.c:253-260 | driving away: turning around keeps speed, stop point and position bounded |
| `Profile.ApproachStep` | src/motor_controller.c:243-252 | approaching: braking, cruising or speeding up keeps them bounded; braking at full rate does not move the stop point |
| `Profile.TickInPlain` | src/motor_controller.c:234-262 | the velocity after a tick in every branch: braking, cruising at the limit, speeding up, stopping, turning round |
| `Profile.MeanVelocity` | src/motor_controller.c:221-231 | the distance driven in a tick is that of the mean velocity |
| `Profile.TickKeeps` | src/motor_controller.c:113-132 | one position tick keeps the speed limit and the region, and never moves the stop point beyond max(its distance, K) |
| `Profile.RunStaysInRegion` | src/motor_controller.c:113-132 | the region is forward invariant over any number of ticks |
| `Profile.RunContainsStopPoint` | src/motor_controller.c:113-132 | from any start within the speed limit the stop point never gets further from the target than max(its start value, K) |
| `Profile.RestsExactlyWhen` | src/motor_controller.c:234-261 | a profile rests if and only if its velocity is zero and the target is within half an acceleration step (or below it with a zero velocity limit) |
| `Profile.NeedNotSettle` | src/motor_controller.c:234-261 | with a velocity limit above one acceleration step the profile at rest 2 maxAcc dt^2 above its target oscillates for ever with period eight |
| `Settling.SettlesFromRest` | src/motor_controller.c:234-261 | from rest the profile comes to rest for every distance to the target if and only if maxVel <= maxAcc dt |
| `Settling.SettlesFromAnywhere` | src/motor_controller.c:234-261 | from every state within the speed limit it comes to rest if and only if 2 maxVel <= maxAcc dt |
| `Profile.CallsAreTicks` | src/motor_controller.c:113-117 | n calls with any divider and any counter, also one that other modes left above the divider, are exactly (phase + n) / divider ticks |
| `Profile.CallsInPlain` | src/motor_controller.c:113-117 | the same with counter and divider written out |
| `Profile.MotorController.ProcessPosition` | src/motor_controller.c:113-140 | the position branch: a tick with the limits set when the divider is due, the error against the new setpoint, and the velocity setpoint from it; otherwise only the counter moves |

## Left out

- Drive and flash errors: transfers inside the drive succeed; outside it they are reported as drive errors where mount and format can meet them.
- Wrapping boot sector sums and FAT32 volumes with more than 0x0FFFFFF7 entries: mounted by the code; `InOrderExactly` and `SoundExactly` say which of them are unusable, and the other operations start from sound volumes (`NoWrap`, `Manageable`).
- Stored tables on FAT12: an entry may be stored in two steps, so the crash-safety claims are made for FAT16 and FAT32.
- Paths, time stamps, attributes, short names and their checksum, the lock table, re-entrancy, f_open, f_sync and f_close: the open file starts from its chain and size, and its directory entry is not updated.
- Files and directories on damaged FATs: the file operations require a well-formed chain for the file itself; allocation, removal and the directory cursor are modelled on every FAT.
- The fast-seek branch of f_lseek: only building the link map and looking offsets up in it are modelled.
- LinkMap.CreateLinkMap: requires a chain that ends; on a cyclic FAT the loop of the code would not.
- Two open objects for one file: each open file has a chain of its own.
- OpenFiles.Run: stops behind a cut at a sector boundary with a buffer in use; what the code does from there on with a buffer that may be stale is shown by `StaleRead` only.
- Mount.MountIsSound: its two conditions are not checked by the code; `SoundExactly` shows that the layout is sound under them only.
- Caller buffers of f_read and f_write: sequences in and out instead of memory that could alias the file system's own.
- The disk_write of whole runs of sectors counts as one step for the FAT history, which it does not touch.
- Mount.FindVolume: requires `Trusted`, which is no wrapping sum and clusters that end on the drive, neither checked by the code; the drive number, the write protection test and an already mounted volume are not modelled.
- Format.MakeFs: GET_BLOCK_SIZE is taken to answer a power of two, as the driver interface demands, or nothing; the multi-partition build and sector erasing are left out; the time stamp is a parameter.
- Numbered short names, the search for collisions, and the code page tables behind ff_wtoupper, which is a parameter.
- Appending over a half-written tail after an earlier power cut: the header checksum is taken from what the flash holds, so the claims start from an erased tail.
- The MessagePack writer: an arbitrary list of chunks; it is taken to stop at the first refused chunk, as its error callback makes config_save start again.
- ConfigStorage.Save: requires that the payload fits an empty sector; otherwise the code would retry for ever, since by `SaveOnce` no attempt succeeds.
- Register access, busy waiting and the sector number of an address in flash.c: erasing is "the configuration sector becomes 0xFF".
- The CRC, PID, parameter tree, message bus and Aseba internals: parameters or not part of this model.
- Floating-point rounding in the motor code, the velocity and current branches, mode switching and the setting of frequencies.
- Encoders, ADC, audio, USB, shell, LEDs, MPU and board tables: interrupt and I/O plumbing, or easy.
