# A verified model of the FAT driver and the stall service

This project models the FAT file system driver `FatPkg/EnhancedFatDxe` and the stall service
`BraswellPlatformPkg/PlatformPei/Stall.c`, and proves what their layers promise. The driver implements
Microsoft's "FAT: General Overview of On-Disk Format", version 1.03. `dafny verify dfyconfig.toml` checks
everything.

The layers, bottom up. Each one is proved against the abstraction that the next one uses.

| module | file | models | abstraction it offers |
|---|---|---|---|
| `DiskCaching` | DiskCache.dfy | DiskCache.c: two direct-mapped write-back caches over one device, mirrored FAT copies, the aligned bypass | the *view*: a plain byte sequence |
| `FatCodec`, `Volumes` | FatCodec.dfy, Volume.dfy | 12, 16 and 28-bit FAT entries; FatDiskIo; reading and setting entries | the *table*: cluster to value |
| `Chains`, `FileSpace`, `Growth`, `SpaceRuns` | same names | FileSpace.c: counting, allocating, freeing, growing, shrinking | disjoint acyclic *chains* and the set of free clusters |
| `FileBytes`, `Neighbours`, `OpenFiles`, `FileHandles` | FileBytes.dfy, Neighbours.dfy, OpenFile.dfy, FileHandle.dfy | seeking with a cached position, contiguous runs, reads, writes, zero fill, truncation | a file is a *byte sequence*, and other files are not touched |
| `LongNames`, `ShortNames`, `NameHash` | same names | long-name slots, 8.3 names, the two hash indexes | a name, a key, an exact index |
| `DirectoryFiles`, `DirectoryLayout`, `DirectoryDisk`, `Directories`, `DirectoryRuns`, `DirectoryStore` | DirectoryFile.dfy, DirectoryLayout.dfy, DirectoryDisk.dfy, Directory.dfy, DirectoryRuns.dfy, DirectoryStore.dfy | lazily loaded directories with a shared read cursor, slot placement, creation, removal | the *whole directory*: an ordered list of entries, loaded or not |
| `Mounting` | Mount.dfy | Init.c: the boot sector checks and the geometry | the geometry the other layers assume |
| `Tasks` | Tasks.dfy | Misc.c: queueing and completing non-blocking requests | one signal and one free per request |
| `OpenTree` | OpenTree.dfy | Open.c, Flush.c: the open-file tree and its reference checks | live OFiles are the needed ones |
| `Stalling` | Stall.dfy | Stall.c | at least the requested time |

`Bytes` and `Lists` hold what several layers share. Shifts and masks by a page or cluster size that is only
known at mount time are written `Mul`, `Div` and `Mod`; `Bytes.ShiftsAreArithmetic` proves that they are
multiplication, quotient and remainder. UINTN is 64 bits wide.

Over runs, the class methods keep invariants: `DiskCache.Valid` (a valid clean page equals the disk, a dirty
page sets the cache-wide flag), `SpaceOk` (the free count is right and no free cluster lies below the hint),
`OFile.Valid` (the cached cluster and position agree with the chain), `ODir.Valid` (order, disjoint slots,
cursor, exact indexes), `ODir.Unique` (unique names), `ODir.Durable` (disk and memory agree), `FileTree.Valid` (an OFile
without handles and children is on the check list) and `TaskQueue.Valid` (the history of every request is
what its caller was promised). `SpaceRuns.RunKeeps`, `DirectoryRuns.ScanOnce` and `Tasks.CompletedOk` state
theorems about whole runs; `DirectoryRuns.Session` ties the runs of a directory to its operations.

## Where the code does not keep a promise

- FatGrowEof leaves a newly linked cluster's own entry free until the next link is written, and a rescan by
  the allocator can hand that cluster out again. When exactly one cluster more than are free is asked for, on
  a volume that is not full, success is reported with one cluster missing, and the seek for its bytes goes astray, to an address in front of
  the first cluster (`OpenFiles.OFile.SeekUncovered`). `SpaceRuns.GrowHonestExactly` shows
  that this is the only such request; `SpaceRuns.GrowShortExample` is an instance. Callers that need the
  clusters (`OFile.ExpandOFile`, `IFile.Write`) therefore carry the hypothesis `Growable`.
- FatOpenDevice accepts a FAT32 volume whose data area starts behind its end, because the subtraction wraps
  (`Mounting.WrappedVolumeAccepted`), and any volume whose FAT is too small for its clusters
  (`Mounting.SmallFatAccepted`). `Mounting.OpenedGeometry` says exactly when an accepted boot sector gives a
  usable geometry. FAT12 and FAT16 volumes of the first kind are rejected by the cluster-count thresholds, and
  FAT32 volumes that do not even hold the start of their FAT by the read of the dirty value.
- FatDeleteFromHashTable unlinks the first entry of the bucket with the same key; with duplicate names that
  can be another entry, which is then no longer found although it is in the child list (`NameHash.HashTable.Delete`,
  `NameHash.DuplicateLost`, `DirectoryLayout.TwinLost`). Removal therefore asks that the entry be
  alone with its names; creation keeps names unique.
- FatCreate8Dot3Name does not end when all four first-form names and all 256 hashed names are in use
  (`ShortNames.AvailableExactly`, `ShortNames.CrowdExhausts`).
- FatFirstFitInsertDirEnt reports a full directory although slots are free when every run that is long enough starts
  at slot 0 or ends behind the scanned part (`DirectoryLayout.FullExactly`, `DirectoryLayout.SlotZeroOverlooked`,
  `DirectoryLayout.TailOverlooked`).
- FatAllocateCluster reports a full volume although clusters are free when a count taken from the info sector is zero
  and no cluster is free from the hint on (`FileSpace.AllocateCluster`, `Mounting.WrongInfoHidesFree`).
- Stall does not end when, with the deadline in the last timer period, reads fall into step with the timer, each
  exactly 2^24 ticks after the one before (`Stalling.EndlessExactly`, `Stalling.PeriodicEndless`); the time bound
  itself holds for such reads too (`Stalling.ExitWaited`).

## Model

| member | source | states |
|---|---|---|
| `DiskCaching.WriteBackKeeps` | FatPkg/EnhancedFatDxe/DiskCache.c:149-177 | Writing a dirty page back to every copy cleans it, keeps the cache invariant and the view of the cached area, and equal copies stay equal. |
| `DiskCaching.LoadKeeps` | FatPkg/EnhancedFatDxe/DiskCache.c:215-233 | Replacing the page in a slot by one read from disk keeps the invariant and the view. |
| `DiskCaching.PokeUpdates` | FatPkg/EnhancedFatDxe/DiskCache.c:278-291 | Writing bytes into a cached page and marking it dirty changes the view at exactly those bytes. |
| `DiskCaching.PeekReads` | FatPkg/EnhancedFatDxe/DiskCache.c:278-291 | Bytes copied out of a cached page are the bytes of the view. |
| `DiskCaching.BypassWrite` | FatPkg/EnhancedFatDxe/DiskCache.c:75-99 | Writing whole pages straight to disk and dropping cached copies of them updates the view at exactly those pages. |
| `DiskCaching.ViewPage` | FatPkg/EnhancedFatDxe/DiskCache.c:82-92 | A page of the view is the disk page, or the dirty cached page where there is one. |
| `DiskCaching.CleanViewIsDisk` | FatPkg/EnhancedFatDxe/DiskCache.c:449-475 | When no cached page is dirty the view is what is on disk. |
| `DiskCaching.OutsideInvisible` | FatPkg/EnhancedFatDxe/DiskCache.c:149-177 | Disk writes outside an area change neither its view nor its invariant, so the FAT cache and the data cache do not disturb each other. |
| `DiskCaching.DiskCache.StorePage` | FatPkg/EnhancedFatDxe/DiskCache.c:149-177 | Write-back: every copy receives exactly the bytes of the page at its own place, no other byte of the disk changes, and the page becomes clean. |
| `DiskCaching.DiskCache.LoadPage` | FatPkg/EnhancedFatDxe/DiskCache.c:142-177 | The slot receives the page from disk, clipped at the end of the area; the disk and the other slots are untouched. |
| `DiskCaching.DiskCache.GetPage` | FatPkg/EnhancedFatDxe/DiskCache.c:211-234 | Hit or miss, afterwards the page is cached and the view is unchanged. |
| `DiskCaching.DiskCache.AccessPage` | FatPkg/EnhancedFatDxe/DiskCache.c:270-295 | An access inside one page reads the view or updates it at exactly its bytes. |
| `DiskCaching.DiskCache.PatchFromCache` | FatPkg/EnhancedFatDxe/DiskCache.c:75-99 | After a read that bypassed the cache, the dirty pages are patched over the buffer: the result is the view. |
| `DiskCaching.DiskCache.DropPages` | FatPkg/EnhancedFatDxe/DiskCache.c:75-99 | After a write that bypassed the cache the cached copies of those pages are invalid. |
| `DiskCaching.DiskCache.AccessAligned` | FatPkg/EnhancedFatDxe/DiskCache.c:385-402 | The aligned bypass reads the view, or updates it at exactly the pages written. |
| `DiskCaching.DiskCache.Access` | FatPkg/EnhancedFatDxe/DiskCache.c:349-417 | FatAccessCache, any offset and length in the area: a read returns the view, a write updates the view at exactly its bytes, through hits, evictions, straddled pages and the bypass. |
| `DiskCaching.DiskCache.Flush` | FatPkg/EnhancedFatDxe/DiskCache.c:446-476 | A flush makes the disk equal to the view without changing the view, writes only inside the area and leaves no dirty page. |
| `Volumes.LayoutsOk` | FatPkg/EnhancedFatDxe/DiskCache.c:506-539 | The two areas of FatInitializeDiskCache are well formed and do not overlap. |
| `Volumes.Volume.DiskIo` | FatPkg/EnhancedFatDxe/Misc.c:374-396 | Accesses that end inside the volume go to the chosen cache and have its contract; others fail with VolumeCorrupted, set the device error and change no byte. |
| `Volumes.Volume.FlushCache` | FatPkg/EnhancedFatDxe/DiskCache.c:446-476 | The first FAT copy and the data area on disk equal their views, which do not change; the other copies too when all copies were equal before. |
| `FatCodec.UnpackPack` | FatPkg/EnhancedFatDxe/FileSpace.c:123-143 | Unpacking the bytes packed for a storable value gives the value back, for FAT12, FAT16 and FAT32. |
| `FatCodec.GetAfterSet` | FatPkg/EnhancedFatDxe/FileSpace.c:204-227 | After an entry is set to free, last or a cluster number, it reads as that value. |
| `FatCodec.OtherEntryKept` | FatPkg/EnhancedFatDxe/FileSpace.c:204-227 | Every other entry reads as before, also the FAT12 neighbour that shares a byte. |
| `FatCodec.Pack32` | FatPkg/EnhancedFatDxe/FileSpace.c:225-227 | The top four bits of a FAT32 entry are kept. |
| `FatCodec.ReadsEven12` | FatPkg/EnhancedFatDxe/FileSpace.c:123-128 | A FAT12 entry of even index is the low twelve bits of its two bytes, with marks from 0xFF7 on. |
| `FatCodec.ReadsOdd12` | FatPkg/EnhancedFatDxe/FileSpace.c:123-128 | One of odd index is the high twelve bits. |
| `FatCodec.ReadsFat16` | FatPkg/EnhancedFatDxe/FileSpace.c:130-134 | A FAT16 entry is two bytes, low byte first, with marks from 0xFFF7 on. |
| `FatCodec.ReadsFat32` | FatPkg/EnhancedFatDxe/FileSpace.c:136-139 | A FAT32 entry is 28 bits of four bytes, low byte first, with marks from 0x0FFFFFF7 on. |
| `FatCodec.WritesEven12` | FatPkg/EnhancedFatDxe/FileSpace.c:204-218 | The bytes written for an even FAT12 entry; the high nibble of the shared byte stays. |
| `FatCodec.WritesOdd12` | FatPkg/EnhancedFatDxe/FileSpace.c:204-218 | The bytes written for an odd FAT12 entry; the low nibble of the shared byte stays. |
| `FatCodec.WritesFat16` | FatPkg/EnhancedFatDxe/FileSpace.c:220-223 | The two bytes written for a FAT16 entry, and no others. |
| `FatCodec.WritesFat32` | FatPkg/EnhancedFatDxe/FileSpace.c:225-227 | The four bytes written for a FAT32 entry; the upper four bits stay, and no other byte changes. |
| `Volumes.EntryReadsTable` | FatPkg/EnhancedFatDxe/FileSpace.c:118-143 | The table that a FAT encodes, entry by entry, over the bytes of the FAT. |
| `Volumes.TableSet` | FatPkg/EnhancedFatDxe/FileSpace.c:200-248 | Setting entry i of the FAT bytes changes the table they encode at i only. |
| `Volumes.TableKeepsDirtyWrite` | FatPkg/EnhancedFatDxe/Misc.c:260-265 | Writing the dirty value into entry 1 changes no cluster entry. |
| `Volumes.Volume.LoadFatEntry` | FatPkg/EnhancedFatDxe/FileSpace.c:50-85 | The buffer holds the bytes of the entry; an index past the last cluster gives all ones and leaves the position stale. |
| `Volumes.Volume.GetFatEntry` | FatPkg/EnhancedFatDxe/FileSpace.c:118-143 | The value of the table for a cluster, which is what the bytes of the FAT at 3/2, 2 or 4 times the index say, low byte first, with large numbers as marks; the last mark for an index past the table. |
| `Volumes.Volume.SetFatEntry` | FatPkg/EnhancedFatDxe/FileSpace.c:178-249 | The table changes at the index only, the data area does not, and count and hint are kept up to date, the count as a 32-bit number that stops at zero. The bytes of the entry are those of the value, low byte first, with the neighbour nibble of FAT12 and the upper four bits of FAT32 kept; a volume not yet marked gets the dirty value in entry 1; no other byte of the FAT changes. |
| `Chains.ChainDistinct` | FatPkg/EnhancedFatDxe/FileSpace.c:278-290 | A chain that ends in an end mark visits no cluster twice. |
| `Chains.ChainUnique` | FatPkg/EnhancedFatDxe/FileSpace.c:426-436 | Two chains of a table with the same first cluster are the same chain. |
| `Chains.WalkComplete` | FatPkg/EnhancedFatDxe/FileSpace.c:278-290 | When following links comes back to a cluster already visited or stops, the clusters visited are exactly the reachable ones. |
| `FileSpace.ComputeFreeInfo` | FatPkg/EnhancedFatDxe/FileSpace.c:795-813 | The count becomes the number of free clusters and the hint the least free cluster; a full volume leaves the hint alone. |
| `FileSpace.AllocateCluster` | FatPkg/EnhancedFatDxe/FileSpace.c:319-350 | From any count and hint: the least free cluster not below the hint, or after a recount the least free one; the last mark exactly when none is free, or none from the hint on while the count forbids the recount. |
| `FileSpace.RightCountRecounts` | FatPkg/EnhancedFatDxe/FileSpace.c:327-331 | With a right count the recount is made unless no cluster is free. |
| `FileSpace.SpaceWithoutInfo` | FatPkg/EnhancedFatDxe/Init.c:402-406 | A volume without valid free-cluster information starts with the invariant of the allocator. |
| `FileSpace.FreeClusters` | FatPkg/EnhancedFatDxe/FileSpace.c:278-290 | On every table whose links are free, marks or cluster numbers in range: ends, also on cycles; frees exactly the clusters reachable from the start; succeeds exactly when the walk ends in an end mark. |
| `Growth.ShrunkChain` | FatPkg/EnhancedFatDxe/FileSpace.c:416-461 | Cutting a chain leaves its prefix as a chain and adds exactly the rest to the free clusters. |
| `Growth.ShrunkOther` | FatPkg/EnhancedFatDxe/FileSpace.c:416-461 | Cutting a chain leaves every disjoint chain alone. |
| `Growth.GrownChain` | FatPkg/EnhancedFatDxe/FileSpace.c:545-580 | Linking fresh clusters behind a chain gives the longer chain and takes exactly those clusters from the free ones. |
| `Growth.GrownOther` | FatPkg/EnhancedFatDxe/FileSpace.c:545-580 | Growing a chain leaves every disjoint chain alone, and disjoint from the longer chain. |
| `Growth.GrowThenShrink` | FatPkg/EnhancedFatDxe/FileSpace.c:585-587 | Growing and cutting back to the old length restores the table, with the end mark normalised. |
| `OpenFiles.SizeToClustersIsCeiling` | FatPkg/EnhancedFatDxe/FileSpace.c:377-384 | The number of clusters is the least that covers the size. |
| `OpenFiles.OFile.ShrinkEof` | FatPkg/EnhancedFatDxe/FileSpace.c:416-461 | Keeps exactly the clusters the size needs and frees the rest; a chain that is too short is reported as corrupt and left alone. |
| `OpenFiles.OFile.GrowEof` | FatPkg/EnhancedFatDxe/FileSpace.c:501-587 | With enough free clusters the chain gains exactly the missing number of fresh clusters behind the old chain; the outcome in every other case is stated too, and count and hint stay right in all of them. |
| `OpenFiles.LinkClusters` | FatPkg/EnhancedFatDxe/FileSpace.c:545-580 | The allocation loop, including the rescan that hands out the last new cluster a second time because its entry still reads as free. |
| `SpaceRuns.GrowHonestExactly` | FatPkg/EnhancedFatDxe/FileSpace.c:552-580 | Growth keeps its promise (all clusters, or VolumeFull because they are not there) exactly when the request is not one more than the number of free clusters on a volume that is not full; otherwise success is reported with one cluster missing. |
| `SpaceRuns.GrowShortExample` | FatPkg/EnhancedFatDxe/FileSpace.c:327-336 | One free cluster, two requested: success with one cluster. |
| `SpaceRuns.StepKeeps` | FatPkg/EnhancedFatDxe/FileSpace.c:416-587 | Growing or shrinking one file keeps all files chains, pairwise disjoint. |
| `SpaceRuns.StepConserves` | FatPkg/EnhancedFatDxe/FileSpace.c:416-587 | Free clusters plus clusters in use is the same number before and after. |
| `SpaceRuns.RunKeeps` | FatPkg/EnhancedFatDxe/FileSpace.c:416-587 | Both hold over every run of growths and shrinks. |
| `FileBytes.AddrInjective` | FatPkg/EnhancedFatDxe/FileSpace.c:666-668 | Different bytes of a file lie in different places of the data area. |
| `FileBytes.WriteRun` | FatPkg/EnhancedFatDxe/ReadWrite.c:541-566 | Writing a run of the disk writes that slice of the file and nothing else of it. |
| `FileBytes.OtherFileKept` | FatPkg/EnhancedFatDxe/ReadWrite.c:541-566 | A file that lies apart, by a disjoint chain or as the fixed root directory, does not see the write. |
| `FileBytes.ConsecutiveRun` | FatPkg/EnhancedFatDxe/FileSpace.c:675-682 | Consecutive clusters hold a contiguous run of file bytes. |
| `Neighbours.ResizedKeeps` | FatPkg/EnhancedFatDxe/FileSpace.c:416-587 | A growth, a cut or an undone growth of one chain leaves every disjoint chain a chain, and disjoint. |
| `Neighbours.OthersKeptBy` | FatPkg/EnhancedFatDxe/ReadWrite.c:541-566 | A file that was resized and written leaves the chain and the bytes of every other file and the fixed root directory as they were. |
| `OpenFiles.CutBackRestores` | FatPkg/EnhancedFatDxe/FileSpace.c:585-587 | A growth that is undone leaves the chain and, up to the kind of end mark, the table. |
| `OpenFiles.OFile.OFilePosition` | FatPkg/EnhancedFatDxe/FileSpace.c:631-687 | Whatever cached cluster it starts from, the disk address is that of the byte in the chain, and every byte of the reported run is the next byte of the file; the cached pair stays consistent. |
| `OpenFiles.ByteInPlace` | FatPkg/EnhancedFatDxe/FileSpace.c:666-668 | Byte x of a file is byte x modulo the cluster size of the cluster at place x / cluster size in its chain, cluster 2 being the first of the data area. |
| `OpenFiles.OFile.AccessOFile` | FatPkg/EnhancedFatDxe/ReadWrite.c:528-575 | A read returns exactly the slice of the file; a write replaces exactly that slice, and no other byte of the data area and no FAT entry changes. |
| `OpenFiles.OFile.WriteZeroPool` | FatPkg/EnhancedFatDxe/ReadWrite.c:643-672 | The file reads as zero from the position to its end; all other bytes are kept. |
| `OpenFiles.OFile.ExpandOFile` | FatPkg/EnhancedFatDxe/ReadWrite.c:603-610 | The old bytes followed by zeros, or nothing but the kind of end mark changes; success exactly when there is room. All other files keep chain and bytes. |
| `OpenFiles.OFile.TruncateOFile` | FatPkg/EnhancedFatDxe/ReadWrite.c:698-699 | The remaining bytes are kept and exactly the clusters behind them become free. All other files keep chain and bytes. |
| `OpenFiles.OFile.GrowSized` | FatPkg/EnhancedFatDxe/FileSpace.c:501-587 | All missing clusters are linked behind the chain, or the chain and, up to the kind of end mark, the table are as before. A success covers the new size exactly when the request is not one cluster more than are free; then exactly one cluster is missing. |
| `OpenFiles.OFile.SeekCluster` | FatPkg/EnhancedFatDxe/FileSpace.c:645-662 | From any cached cluster and for any position: the cluster that holds it; in the cluster behind the last one the end mark itself, without an error; VolumeCorrupted beyond that and for an empty chain. |
| `OpenFiles.OFile.SeekUncovered` | FatPkg/EnhancedFatDxe/FileSpace.c:649-668 | After such a growth the last byte of the file is looked for three clusters below the first one, modulo 2^64. |
| `OpenFiles.StrayBelowClusters` | FatPkg/EnhancedFatDxe/FileSpace.c:666-668 | That address is in front of all clusters when there are as many bytes there. |
| `OpenFiles.OFile.WriteAt` | FatPkg/EnhancedFatDxe/ReadWrite.c:303-328 | Growing if it must and then writing: the buffer is at the position, other old bytes and all other files are kept. |
| `OpenFiles.OtherFileIntact` | FatPkg/EnhancedFatDxe/ReadWrite.c:303-328 | Another open file with a disjoint chain, or the fixed root directory, stays valid with the same bytes across any operation that keeps the other files. |
| `FileHandles.IFile.Read` | FatPkg/EnhancedFatDxe/ReadWrite.c:257-329 | The bytes from the position on, clipped at the end of the file; DeviceError beyond it. |
| `FileHandles.IFile.Write` | FatPkg/EnhancedFatDxe/ReadWrite.c:257-329 | The buffer is at the position, the file grows if it must, all other old bytes are kept; when there is no room nothing is written and the chain is as before. The table is enlarged by exactly the new clusters, and all other files keep chain and bytes. |
| `FileHandles.WriteBeside` | FatPkg/EnhancedFatDxe/ReadWrite.c:303-328 | Two files: a write through a handle on one leaves the other valid, with its chain and its bytes. |
| `Mounting.SizesExactly` | FatPkg/EnhancedFatDxe/Init.c:276-291 | The bit tests and alignment limits accept exactly sector sizes 512 to 4096 and 1 to 128 sectors per cluster, powers of two. |
| `Mounting.AcceptedExactly` | FatPkg/EnhancedFatDxe/Init.c:251-379 | A boot sector is accepted exactly when sizes, counts, media byte and the fields of its kind are sensible, its number of clusters is one of that kind, and on FAT32 the FAT starts inside the volume, so that the dirty value can be read; all of it over the fields of the boot sector, with the status of a rejection. |
| `Mounting.Alignments` | FatPkg/EnhancedFatDxe/Init.c:276-291 | On accepted sizes the shifts by the two alignments multiply by the sector size and by the sectors per cluster. |
| `Mounting.WrappedIsHuge` | FatPkg/EnhancedFatDxe/Init.c:342 | A data area that starts behind the end of the volume gives a wrapped, huge cluster count. |
| `Mounting.OpenedGeometry` | FatPkg/EnhancedFatDxe/Init.c:251-369 | An accepted boot sector gives a usable geometry - FAT large enough, areas inside the volume, no cluster number that is a mark - exactly when the FAT has the bits and, on FAT32 only, the data area starts inside the volume and the cluster numbers stay below the marks; the FAT12 and FAT16 thresholds ensure the latter. |
| `Mounting.OpenedLayout` | FatPkg/EnhancedFatDxe/Init.c:329-369 | Over the fields of the boot sector: positions and sizes of the FATs, the root directory in whole sectors behind them, the clusters behind it with less than one left over, the cluster size, and the FAT type by the limits 4085 and 65525. |
| `Mounting.RootCovered` | FatPkg/EnhancedFatDxe/DirectoryManage.c:1345-1346 | The fixed root directory, 32 bytes for each of its entries, lies in front of the first cluster. |
| `Mounting.FloppyLayout` | FatPkg/EnhancedFatDxe/Init.c:329-369 | The numbers of a floppy disk of 1.44 MB. |
| `Mounting.DirtyValueExactly` | FatPkg/EnhancedFatDxe/Init.c:375-379 | The read of the dirty value, which ends the opening when it fails, fails exactly on FAT32 volumes whose FAT starts behind their end. |
| `Mounting.WrappedVolumeAccepted` | FatPkg/EnhancedFatDxe/Init.c:342 | A FAT32 boot sector of 33 sectors whose data area starts at sector 34 is accepted, and its geometry is not usable. |
| `Mounting.SmallFatAccepted` | FatPkg/EnhancedFatDxe/Init.c:337 | A FAT12 boot sector whose FAT has 341 entries for 2863 clusters is accepted, and its geometry is not usable. |
| `Mounting.MountedInfoUsable` | FatPkg/EnhancedFatDxe/Init.c:386-406 | The hint is in range; without an info sector count and hint are right for every table; with one, only a signed count of zero can keep the allocator from finding free clusters. |
| `Mounting.WrongInfoHidesFree` | FatPkg/EnhancedFatDxe/Init.c:390-396 | Such an info sector and a table with a free cluster that is not found. |
| `LongNames.FatCheckSum` | FatPkg/EnhancedFatDxe/FileName.c:448-455 | The sum ends a sequence of running sums, each the one before moved down one bit with its lowest bit moved to the top, plus the next byte, modulo 256. |
| `LongNames.RunningSumsEnd` | FatPkg/EnhancedFatDxe/FileName.c:451-453 | There is one such sequence for a name. |
| `LongNames.SlotBytes` | FatPkg/EnhancedFatDxe/DirectoryManage.c:122-137 | Which byte of a long-name slot holds what: ordinal, attribute, checksum and the two halves of each of the 13 characters. |
| `LongNames.SlotCharacters` | FatPkg/EnhancedFatDxe/DirectoryManage.c:336-343 | The characters read from any slot, byte by byte. |
| `LongNames.StoredCharacter` | FatPkg/EnhancedFatDxe/DirectoryManage.c:106-150 | Where each character of a stored name lies, with ordinal and checksum of its slot; a terminator and 0xFFFF follow the name. |
| `LongNames.MatchesExactly` | FatPkg/EnhancedFatDxe/DirectoryManage.c:322-328 | Which slots are part o of a long name: ordinal byte o or o + 64, attribute 0x0F, checksum, zero bytes. |
| `LongNames.LfnCountIsCeiling` | FatPkg/EnhancedFatDxe/DirectoryManage.c:794 | The least number of slots of 13 characters that holds the name. |
| `LongNames.NoLongName` | FatPkg/EnhancedFatDxe/DirectoryManage.c:351-361 | An entry with no first part in front of it has one slot and the name its case flag gives. |
| `LongNames.OneByteChangesSum` | FatPkg/EnhancedFatDxe/FileName.c:448-455 | Changing any one byte of a short name changes its checksum. |
| `LongNames.OtherShortNameMismatch` | FatPkg/EnhancedFatDxe/DirectoryManage.c:322-328 | The parts of a long name never fit an entry whose short name differs in one byte from the one they were stored with, so not a deleted one either. |
| `LongNames.SlotRoundTrip` | FatPkg/EnhancedFatDxe/DirectoryManage.c:132-137 | The 13 characters of a slot and its fields are read back. |
| `LongNames.LoadLongNameEntry` | FatPkg/EnhancedFatDxe/DirectoryManage.c:306-363 | The loop computes the name and the slot count that LoadLongName defines, on any directory contents. |
| `LongNames.LoadStable` | FatPkg/EnhancedFatDxe/DirectoryManage.c:316-350 | An entry loads the same way when its own slots are the same and the slot below them did not become part of a name. |
| `LongNames.LongNameRoundTrip` | FatPkg/EnhancedFatDxe/DirectoryManage.c:100-153 | Every name of 1 to 255 characters stored with its long-name slots is loaded with the same characters and slot count, also when the length is a multiple of 13 and no terminator is stored. |
| `NameHash.UnlinkExact` | FatPkg/EnhancedFatDxe/Hash.c:216-217 | Redirecting the link of the first match removes the entry and nothing else exactly when no other entry of its key stands in front of it in the bucket. |
| `NameHash.HashTable.Search` | FatPkg/EnhancedFatDxe/Hash.c:105-115 | The first entry of the bucket with the key, or the end of the bucket. |
| `NameHash.HashTable.Lookup` | FatPkg/EnhancedFatDxe/Hash.c:140-150 | An entry with the key is found exactly when the child list has one. |
| `NameHash.HashTable.Insert` | FatPkg/EnhancedFatDxe/Hash.c:178-191 | The table then indexes exactly the list with the new entry. |
| `NameHash.HashTable.Delete` | FatPkg/EnhancedFatDxe/Hash.c:216-217 | The table then indexes exactly the list without the entry if and only if no other entry of its key stood in front of it; always when the key is its own. |
| `NameHash.DuplicateLost` | FatPkg/EnhancedFatDxe/Hash.c:216-217 | Two entries with one key in a bucket: deleting the second loses the first as well. |
| `DirectoryLayout.TwinLost` | FatPkg/EnhancedFatDxe/Hash.c:216-217 | Two slots with one short name, as a scan loads them: deleting the first entry makes the second one unfindable. |
| `ShortNames.CheckIs8Dot3Name` | FatPkg/EnhancedFatDxe/FileName.c:54-114 | By main part and extension: their FAT characters are at bytes 0 and 8 of the short name, at most eight and three, and the rest is blank; the name is an 8.3 name exactly when the parts have 1 to 8 and at most 3 characters, no other dot, no blank and nothing illegal. |
| `ShortNames.ExtensionsTellApart` | FatPkg/EnhancedFatDxe/FileName.c:108-112 | Names whose extensions have different FAT characters never share a short name. |
| `ShortNames.CaseFlagMeans` | FatPkg/EnhancedFatDxe/FileName.c:357-385 | One slot is enough when each part is all upper or all lower case; bits 0x08 and 0x10 say which part is lower. |
| `ShortNames.SpecShape` | FatPkg/EnhancedFatDxe/FileName.c:233-240 | The first four generated names, byte by byte: at most six characters of the base, a tilde, a digit. |
| `ShortNames.HashedShape` | FatPkg/EnhancedFatDxe/FileName.c:252-268 | The others, byte by byte: at most two characters of the base, four digits of the CRC, a tilde, the counter. |
| `NameHash.SameUpper` | FatPkg/EnhancedFatDxe/Hash.c:110 | Long names are compared character by character, in upper case. |
| `ShortNames.CaseKeepsShort` | FatPkg/EnhancedFatDxe/FileName.c:54-114 | Names that differ only in case are 8.3 names together and have the same short name, for a collation that ignores case. |
| `ShortNames.SomeProbeFree` | FatPkg/EnhancedFatDxe/FileName.c:245-270 | With fewer than 256 entries sharing the hashed form, some counter character gives an unused name. |
| `ShortNames.AvailableExactly` | FatPkg/EnhancedFatDxe/FileName.c:243-270 | The search for a short name ends exactly when one of the four first-form names or of the 256 hashed names is free. |
| `ShortNames.CrowdExhausts` | FatPkg/EnhancedFatDxe/FileName.c:243-270 | A directory of 260 entries on which the search never ends. |
| `ShortNames.FewSharersAvailable` | FatPkg/EnhancedFatDxe/FileName.c:243-270 | Fewer than 256 entries sharing the hashed form leave one free. |
| `ShortNames.Create8Dot3Name` | FatPkg/EnhancedFatDxe/FileName.c:228-271 | Ends whenever one of the names it tries is free, with the first of them: four with a tilde and a digit, then the hashed form with its counter running through all bytes; the extension is kept. |
| `DirectoryLayout.RestList` | FatPkg/EnhancedFatDxe/DirectoryManage.c:437-491 | A scan of any directory contents finds entries in slot order with pairwise disjoint slots. |
| `DirectoryLayout.SkippedMeans` | FatPkg/EnhancedFatDxe/DirectoryManage.c:446-463 | Which slots are passed over, which end the directory and which are entries: first byte 0xE5, first byte 0 and the label bit. |
| `DirectoryLayout.FitsExactly` | FatPkg/EnhancedFatDxe/DirectoryManage.c:932-939 | When a gap is taken: room in front of the child, and the label not among the slots. |
| `DirectoryLayout.FirstFit` | FatPkg/EnhancedFatDxe/DirectoryManage.c:923-948 | The first gap that is large enough and free of the label, or the place behind the last entry, or no room. |
| `DirectoryLayout.FirstFitApart` | FatPkg/EnhancedFatDxe/DirectoryManage.c:923-952 | The place keeps the list in order and slots disjoint, and avoids the label except behind the last entry. |
| `DirectoryLayout.FullExactly` | FatPkg/EnhancedFatDxe/DirectoryManage.c:945-947 | Over all slots of the file, without a label: a full directory is reported exactly when every free run that is long enough starts at slot 0 or ends behind the scanned part. |
| `DirectoryLayout.SlotZeroOverlooked` | FatPkg/EnhancedFatDxe/DirectoryManage.c:923-925 | Slots 1 and 2 of three taken, one wanted: slot 0 is free and the directory is reported full. |
| `DirectoryLayout.TailOverlooked` | FatPkg/EnhancedFatDxe/DirectoryManage.c:945-947 | Sixteen slots, the last entry in slot 12, the scan at 15, three wanted: slots 13 to 15 are free and the directory is reported full. |
| `DirectoryDisk.StoreKeepsOther` | FatPkg/EnhancedFatDxe/DirectoryManage.c:100-153 | Storing one entry leaves every other entry on disk loadable as before. |
| `DirectoryDisk.CoherentAfterCreate` | FatPkg/EnhancedFatDxe/DirectoryManage.c:1202-1226 | Creating keeps disk and memory in agreement. |
| `DirectoryDisk.CoherentAfterRemove` | FatPkg/EnhancedFatDxe/DirectoryManage.c:1258-1275 | Removing keeps disk and memory in agreement. |
| `DirectoryDisk.Reopened` | FatPkg/EnhancedFatDxe/DirectoryManage.c:437-491 | Scanning the directory anew finds the entries in memory: positions, short names, attributes, first cluster and size, and the long names and slot counts of those that have one. |
| `DirectoryFiles.AccessEntry` | FatPkg/EnhancedFatDxe/DirectoryManage.c:53-66 | Through the file layer: one slot is read, or written with no other slot, no FAT entry and no byte outside the directory changed; behind the end an end mark is read. |
| `DirectoryFiles.ExpandDirectory` | FatPkg/EnhancedFatDxe/DirectoryManage.c:821 | Through the file layer: one cluster of end marks is appended exactly when a cluster is free, otherwise the slots are as before; other files are kept. |
| `Directories.ODir.constructor` | FatPkg/EnhancedFatDxe/DirectoryCache.c:85-95 | Nothing is loaded and the whole directory is what a scan of the slots finds. |
| `Directories.ODir.LoadNextDirEnt` | FatPkg/EnhancedFatDxe/DirectoryManage.c:437-497 | The first slot that is not deleted, a label or part of a name becomes an entry, with all its bytes but the high half of the first cluster on FAT12 and FAT16, and joins list and indexes; or the end is noted. The whole directory is the same. |
| `Directories.ODir.GetNextDirEnt` | FatPkg/EnhancedFatDxe/DirectoryManage.c:701-731 | The cursor moves on by one entry, loading it if need be. |
| `Directories.ODir.ReadDir` | FatPkg/EnhancedFatDxe/ReadWrite.c:160-199 | The entry of least position not below that of the handle, or the end, whatever other handles did to the shared cursor; a buffer that is too small leaves the handle where it was. |
| `Directories.ODir.SearchODir` | FatPkg/EnhancedFatDxe/DirectoryManage.c:606-643 | On a partly loaded directory: found exactly when some entry of the whole directory matches; the answer of a full scan when at most one does; not found means fully loaded. |
| `Directories.OneMatch` | FatPkg/EnhancedFatDxe/DirectoryManage.c:611-636 | With unique long and unique short names no name matches two entries, not even one by each. |
| `Directories.ODir.StoreDirEnt` | FatPkg/EnhancedFatDxe/DirectoryManage.c:100-153 | The slots of the entry hold its encoding, all others are as before. |
| `Directories.ODir.RemoveDirEnt` | FatPkg/EnhancedFatDxe/DirectoryManage.c:1258-1275 | The directory loses exactly that entry and its slots are marked deleted; order, indexes, uniqueness, cursor and agreement with the disk are kept. The entry must be alone with its names. |
| `Directories.ODir.Removable` | FatPkg/EnhancedFatDxe/DirectoryManage.c:1258-1275 | With unique names every entry can be removed. |
| `Directories.ODir.NewEntryPos` | FatPkg/EnhancedFatDxe/DirectoryManage.c:981-1023 | Slots for the entry that nothing else uses, after growing by one cluster if need be; VolumeFull only when the volume has no cluster, or, without a label, every free run of the file that is long enough starts at slot 0 or ends behind the scanned part. |
| `Directories.NameCrcMeans` | FatPkg/EnhancedFatDxe/FileName.c:251 | The CRC of a name goes over its characters, low byte first, and the terminator. |
| `Directories.ODir.SetEntryCount` | FatPkg/EnhancedFatDxe/DirectoryManage.c:763-796 | Short name not in use, and as many slots as the name needs. |
| `Directories.ODir.CreateDirEnt` | FatPkg/EnhancedFatDxe/DirectoryManage.c:1196-1226 | After a failed lookup: one new entry with that name in slots of its own, names stay unique, order, indexes and cursor are kept, and so is agreement with the disk when the name has no terminator in it, its first FAT character is neither 0x00 nor 0xE5 and the attributes are not those of a label; VolumeFull leaves the directory as it was. |
| `Directories.ODir.FindOrCreate` | FatPkg/EnhancedFatDxe/Open.c:140-158 | A search followed by creation when the name is not found: what the search leaves behind is what creation demands, so a new name is created exactly once and an existing one is returned with the directory unchanged. |
| `Directories.ODir.AllOrdered` | FatPkg/EnhancedFatDxe/DirectoryManage.c:389-393 | The whole directory is strictly ordered with disjoint slots at all times. |
| `Directories.ODir.ReopenFinds` | FatPkg/EnhancedFatDxe/DirectoryManage.c:437-491 | At all times reopening the directory finds the same entries. |
| `Directories.OwnShortAfterCreate` | FatPkg/EnhancedFatDxe/DirectoryManage.c:780-786 | Creation keeps: an 8.3 file name is its own short name. |
| `DirectoryRuns.RunOrdered` | FatPkg/EnhancedFatDxe/DirectoryManage.c:389-393 | The entries stay in slot order over every run of reads, creations and removals. |
| `DirectoryRuns.ScanOnce` | FatPkg/EnhancedFatDxe/ReadWrite.c:160-199 | A full scan by one handle, interleaved with reads of others, creations and removals, returns every entry that stays present exactly once. |
| `DirectoryRuns.Session.Read` | FatPkg/EnhancedFatDxe/ReadWrite.c:160-199 | A read through a handle is such a step: the recorded run stays one of the runs the theorems are about and ends in the present state. |
| `DirectoryRuns.Session.Rewind` | FatPkg/EnhancedFatDxe/ReadWrite.c:106-124 | So is setting a handle back to the start. |
| `DirectoryRuns.Session.Create` | FatPkg/EnhancedFatDxe/DirectoryManage.c:1196-1226 | So is a creation; one that finds no room is no step. |
| `DirectoryRuns.Session.Remove` | FatPkg/EnhancedFatDxe/DirectoryManage.c:1258-1275 | So is a removal. |
| `DirectoryRuns.NeverTwice` | FatPkg/EnhancedFatDxe/ReadWrite.c:160-199 | A handle gets entries in increasing position and no slot twice, whatever happens in between. |
| `DirectoryStore.StoreOnFile` | FatPkg/EnhancedFatDxe/DirectoryManage.c:100-153 | FatStoreDirEnt through the file layer: the slots of the file hold the entry, and nothing but the bytes of the directory changed. |
| `DirectoryStore.OthersIntact` | FatPkg/EnhancedFatDxe/ReadWrite.c:541-566 | Changes within the directory leave every other file, and for the fixed root directory the table, as they were. |
| `DirectoryStore.FileDirectory.Create` | FatPkg/EnhancedFatDxe/DirectoryManage.c:1196-1226 | Directory and file together: after a failed lookup the entry is in memory and in the slots of the file, which grew by one cluster if it had to and one was free; otherwise VolumeFull and the same entries. Other files are untouched. |
| `DirectoryStore.FileDirectory.Remove` | FatPkg/EnhancedFatDxe/DirectoryManage.c:1258-1275 | Directory and file together: the entry is gone from both, and other files are untouched. |
| `Tasks.LogStep` | FatPkg/EnhancedFatDxe/Misc.c:308-337 | Each completion keeps history and state of a task in agreement. |
| `Tasks.CompletedOk` | FatPkg/EnhancedFatDxe/Misc.c:308-337 | For every order and outcome of completions: one signal with the first failure or else success, one free, neither too early; none for a refused task. |
| `Tasks.TaskQueue.SubmitSubtasks` | FatPkg/EnhancedFatDxe/Misc.c:178-206 | Requests go to the device up to the first it refuses, whose status is returned. |
| `Tasks.TaskQueue.QueueTask` | FatPkg/EnhancedFatDxe/Misc.c:163-234 | A task without subtasks is signalled at once; an accepted one waits for all its requests; a refused one never signals and is freed at once or with its last submitted request. |
| `Tasks.TaskQueue.OnAccessComplete` | FatPkg/EnhancedFatDxe/Misc.c:308-337 | The completed request leaves the device list; no other task is affected. |
| `Tasks.TaskQueue.Settled` | FatPkg/EnhancedFatDxe/Misc.c:308-337 | A freed task was freed once and signalled exactly once if accepted, never otherwise. |
| `Tasks.TaskQueue.NoOutstanding` | FatPkg/EnhancedFatDxe/Misc.c:99-103 | An empty list means that the device has no request of this handle. |
| `OpenTree.ReferencedNeeded` | FatPkg/EnhancedFatDxe/Flush.c:343-362 | If every OFile has a handle or a child, each has a handle on itself or a descendant. |
| `OpenTree.NeededKept` | FatPkg/EnhancedFatDxe/Flush.c:395-410 | Freeing OFiles without handles, children first, frees nothing that is needed. |
| `OpenTree.FileTree.OpenDirEnt` | FatPkg/EnhancedFatDxe/DirectoryManage.c:1305-1338 | The new OFile is on the check list; the invariant holds. |
| `OpenTree.FileTree.AllocateIFile` | FatPkg/EnhancedFatDxe/Open.c:72-76 | One more handle; the invariant holds. |
| `OpenTree.FileTree.IFileClose` | FatPkg/EnhancedFatDxe/Flush.c:220-235 | One handle less; an OFile without handles and children is on the check list. |
| `OpenTree.FileTree.CheckOFileRef` | FatPkg/EnhancedFatDxe/Flush.c:343-362 | Freed exactly when it has neither handle nor child; only its parent may then be missing from the list. |
| `OpenTree.FileTree.CheckVolumeRef` | FatPkg/EnhancedFatDxe/Flush.c:395-410 | Ends with an empty list, and the live OFiles are exactly those with an open handle on themselves or a descendant. |
| `Stalling.TimeFromWraps` | BraswellPlatformPkg/PlatformPei/Stall.c:71-77 | Counting reads that did not move the register forward recovers the absolute time, for reads up to 2^24 ticks apart. |
| `Stalling.ExitWaited` | BraswellPlatformPkg/PlatformPei/Stall.c:79-82 | When the loops end the requested time has passed, for reads up to 2^24 ticks apart. |
| `Stalling.EndlessExactly` | BraswellPlatformPkg/PlatformPei/Stall.c:79-82 | The second loop goes on for ever exactly when up to some read the register rises without reaching the remaining ticks, and from then on every read comes exactly 2^24 ticks after the one before. |
| `Stalling.CountedOnce` | BraswellPlatformPkg/PlatformPei/Stall.c:71-77 | The first loop ends at one read only. |
| `Stalling.EndlessNeverEnds` | BraswellPlatformPkg/PlatformPei/Stall.c:79-82 | On the clocks that Stall excludes, the second loop never ends. |
| `Stalling.NotInStepEnds` | BraswellPlatformPkg/PlatformPei/Stall.c:79-82 | A clock that never falls into step with the timer period is not excluded. |
| `Stalling.Stall` | BraswellPlatformPkg/PlatformPei/Stall.c:44-84 | For every clock whose reads are 1 to 2^24 ticks apart, except exactly those on which the second loop never ends: it ends, only after at least the requested microseconds, and at the first read at which its second loop can end. |
| `Stalling.PeriodicEndless` | BraswellPlatformPkg/PlatformPei/Stall.c:79-82 | With reads exactly 2^24 ticks apart a request for one microsecond never ends. |

## Left out

- I/O errors, media change and out-of-memory paths below the modelled operations: device transfers inside the volume succeed. A failed load leaves a tag with the number of a page that was not read, so the cache invariant does not survive it.
- Non-blocking accesses through the cache: the dirty-page patch runs before a queued read completes, so the cache is modelled for blocking accesses. `Tasks` models the requests themselves, with completions after the submission loop.
- Volumes.Volume.SetFatEntry: indices above MaxCluster + 1 are left out, because the code then writes at the stale position of the entry loaded before.
- FileSpace.FreeClusters: links are taken to be free, marks or cluster numbers in range; a link to entry 1 that links to itself is never freed, so the code does not end on it.
- OpenFiles.OFile.ExpandOFile: carries the hypothesis `Growable`, because FatGrowEof reports success one cluster short exactly without it, and takes the chain to match the size.
- OpenFiles.OFile.WriteAt: the same.
- FileHandles.IFile.Write: carries the same hypothesis. The bytes between the old end and the position of the handle are those of the new clusters, as in the code, which does not zero them.
- Directories.ODir.NewEntryPos: whether the volume has a cluster for the directory is a parameter, and the slots are a field; `DirectoryStore.FileDirectory` joins them to the file layer.
- Directories.ODir.CreateDirEnt: the same parameter; the entry fits in one cluster, since the driver adds exactly one; a short name is available, because the code does not end otherwise.
- Directories.ODir.FindOrCreate: the same; names "." and ".." do not come here, path lookup handles them itself.
- Directories.ODir.RemoveDirEnt: the entry is alone with its names; `NameHash.HashTable.Delete` says what happens to the index otherwise.
- DirectoryLayout.FirstFitApart: says nothing about the volume label in the gap behind the last entry, where the code does not look at it.
- Directories.ODir.ReopenFinds: what is said of `DirectoryDisk.Reopened`.
- DirectoryDisk.Reopened: says nothing about the file name of an entry without long-name slots; it comes from the case flag and the collation, and a stray long-name slot in front of the entry could be taken for its own. Slots behind the end mark are taken to be end marks, because the driver writes no new one.
- Directories.ODir.SearchODir: names are compared by upper-casing each character; collation, conversion to FAT characters, CRC32 and the name made from case flags are parameters about which nothing is assumed, except where `CaseBlind` is named.
- Stalling.Stall: the clocks on which the code does not end are left out, and no others; the tick arithmetic fits UINTN, whose width is a parameter.
- Mounting.OpenedGeometry: the contents of the dirty value are not modelled, and the info sector is taken to lie inside the volume.
- OpenFiles.OFile.GrowEof: from a count or a hint that is wrong, what the allocator does is stated and what a whole growth does is not.
- OpenTree.FileTree.CheckVolumeRef: renaming a file to another directory is not a step, because it does not put the old parent on the check list.
- Flushing of OFiles, the order of writes in FatCleanupVolume, the free-info sector and permanent error codes.
- Path parsing and FatFileNameIsValid: they would only add easy members.
- Timestamps, attributes, volume labels, GetInfo and SetInfo marshalling: field copies.
- The directory cache of closed directories, deletion beyond truncating, removing and closing, and debug output.
- Driver binding, protocol installation, component names and locks: plumbing around the modelled operations, which run with the lock held.
- All other packages of the repository: register setup, tables, headers and build scripts.
