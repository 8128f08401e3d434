# FDPP kernel: file store, allocators and transfers

A Dafny model of the parts of FDPP, a port of the FreeDOS kernel, that move data and hand out memory, with proofs of
what they promise. `dafny verify dfyconfig.toml` checks all of it.

**The FAT file store** is a stack of refinements. Each layer is an imperative model of one source file, proved
against a specification on values, about which the next layer's facts are lemmas.

- `Disks`: the raw disk, a total map from (unit, block) to sectors, and where the copies of a FAT lie.
- `CacheSpec`, `BlockIO` (kernel/blockio.c): a circular doubly linked LRU list of write-back sector buffers. What a
  user of the cache sees (`View`) is a plain disk: the valid buffer if there is one, for a later copy of a FAT
  sector the pending write of its first copy, else the disk.
- `CacheRuns`: whole runs of the cache's operations refine the same runs on a plain disk.
- `FatFormat`, `FatTab` (kernel/fattab.c): cached sectors as an array of 12-bit or 16-bit entries, with the counter of
  free clusters and the hint where to look for one.
- `Chains`, `FatFs` (kernel/fatfs.c): that array as a heap of cluster chains that grow, are walked, cut and freed.
- `FatRuns`: runs of those operations over all files of a volume at once.
- `FileBytes`, `RwBlock` (`rwblock`): one chain as an array of bytes, read and written through buffers or by direct
  transfers of runs of sectors that coalesce clusters which lie next to each other on the disk.
- `ByteRuns`: runs of reads, writes and truncations over all files, each refining an array of bytes.
- `FatSizing` (kernel/initdisk.c, kernel/fatfs.c): the sizes of a volume; `LayOut` shows just which volumes laid out by the
  kernel satisfy what all the layers above assume (`Geometry.Ok`).

**The allocators.** `PoolSpec`, `Smalloc` (fdpp/smalloc.c): a pool as a linked list of areas over memory indexed by
address. `McbSpec`, `MemMgr` (kernel/memmgr.c): the DOS arena, whose control blocks lie in the memory they manage;
results are described relative to the blocks with all runs of free ones merged.

**Transfers and wrappers.** `LbaTransfer` (kernel/dsk.c): splitting a request into BIOS calls. `SymSpec`, `SymWrp`
(fdpp/objlock.cpp, fdpp/farptr.hpp): copy-in and copy-back of objects in DOS memory under a lock count.

The runs are runs of the calls: `CacheRuns.Call`, `ByteRuns.Call`, `MemMgr.Call`, `Smalloc.AllocCall`, `FreeCall` and
`ReallocCall`, and the contracts of `SymWrp.Memory` say that every call is a step.

What the model takes from the code where a comment says otherwise: `ISFAT12` is true of a size of 0, because the
unsigned short is promoted before 1 is subtracted (hdr/fat.h:105; the comment at hdr/fat.h:106 says the opposite).
Two more things the code does that a reader may not expect: a buffer at offset 0 is never preferred by the two
sentinels of `searchblock`, and a write past the end of a file leaves the bytes in between unspecified.

Four statements are false of the code on some inputs; each is proved with an input and the exact condition.

- `LBA_Transfer` puts the number of sectors of an LBA call into a byte (hdr/device.h:191). On a drive that is addressed by
  such calls and handles 64K boundaries itself, a request of 256 sectors or more into conventional memory is reported done
  although only its size modulo 256 has been transferred (`NoneArrive`); success means full coverage just if `Carries`.
- A volume too large for the FATs it is laid out with can come out as one of another type. For 12-bit entries and 32737
  sectors the size stands for 16-bit entries, which do not fit, and `bpb_to_dpb` lets that through (`LetThrough`, `FitsIff`);
  `Suits12` and `Suits16` say when it does not happen.
- A block in use keeps its memory while others are freed just if no free is of a segment inside it that looks like a control
  block in use (`FreeInside`, `FreeHoldsIff`), because `DosMemFree` takes any such segment.
- `smrealloc` follows a null pointer just if the last block of the pool is to grow and the area before it is free
  (`NullNext`, `NullNextReachable`; the outcome `fault` of `SmRealloc`).

## Model

| member | source | states |
|---|---|---|
| `Disks.CopiesAreMirrors` | kernel/blockio.c:306-339 | writing a sector of the first FAT copy with the stride of the copies reaches that sector and exactly the sectors of later copies that repeat it |
| `CacheSpec.VictimIsNotFront` | kernel/blockio.c:81-156 | a miss recycles a buffer of the list, and never the one just returned while its UNCACHE bit is clear |
| `CacheSpec.FrontPermutes` | kernel/blockio.c:68-156 | moving a buffer to the front permutes the list |
| `CacheSpec.SearchKeeps` | kernel/blockio.c:81-156 | searching never changes what anybody sees, nor the invariants of the contents |
| `CacheSpec.Flush1Keeps` | kernel/blockio.c:306-339 | writing a buffer back, in all FAT copies if it is a FAT sector, never changes what anybody sees |
| `CacheSpec.GotKeeps` | kernel/blockio.c:213-244 | after getting a block its buffer holds it and is not up for recycling; nothing that is seen changes unless the block is to be overwritten; at most one valid buffer per (unit, block) |
| `CacheSpec.FrontStays` | kernel/fattab.c:247-257 | getting another block leaves the buffer got before it, and its contents, alone |
| `CacheSpec.FlushIsComplete` | kernel/blockio.c:286-301 | a flush changes nothing that is seen and brings the disk up to it, for all units or the one flushed |
| `CacheSpec.DirectWrite` | kernel/fatfs.c:1412-1426 | dropping the buffers of a run and writing the run directly is seen as just that write: nothing stale is left, nothing else lost |
| `CacheSpec.DirectRead` | kernel/fatfs.c:1412-1426 | after the buffers of a run are written back the disk holds what is seen of the run, and nothing that is seen has changed |
| `CacheSpec.StoredKeepsMirrors` | kernel/fattab.c:65-88 | a write of a FAT sector through the cache, or of any other sector, keeps the copies of the FATs in agreement as seen |
| `CacheSpec.DifferingCopiesArePending` | kernel/blockio.c:306-339 | while the copies agree as seen, a FAT sector whose copies differ on the disk has a valid dirty FAT buffer |
| `CacheSpec.FlushedCopiesAgree` | kernel/blockio.c:344-362 | hence after a flush all copies agree on the disk |
| `CacheRuns.RunRefines` | kernel/blockio.c:81-362 | at every point of every run of gets, overwrites, stores, write-backs, passes and direct writes, what is seen is what the same run leaves on a disk without a cache |
| `CacheRuns.RunPending` | kernel/blockio.c:306-339 | if all FAT copies agree at first, then at every point of every run a sector on which they differ has a valid dirty FAT buffer |
| `CacheRuns.RunThenFlush` | kernel/blockio.c:344-362 | after any run and a flush the disk is what the run leaves on a plain disk, and all FAT copies on it agree |
| `CacheRuns.Call` | kernel/blockio.c:81-362 | every call of the routines of the cache is a step of such a run |
| `BlockIO.BlockCache.constructor` | kernel/config.c:2512-2547 | the buffer pool starts as a consistent circular list of at least three buffers, showing the disk |
| `BlockIO.Surgery` | kernel/blockio.c:68-79 | the six link assignments of `move_buffer` turn a circular doubly linked list into the one with that buffer moved to the front |
| `BlockIO.BlockCache.MoveBuffer` | kernel/blockio.c:68-79 | carries those assignments out |
| `BlockIO.BlockCache.ToFront` | kernel/blockio.c:88-156 | the buffer is moved to the front of a list that stays consistent, unless it is there already |
| `BlockIO.BlockCache.SearchBlock` | kernel/blockio.c:81-156 | returns the buffer of the block or the buffer to recycle, at the front of a consistent list, and tells a miss by UNCACHE |
| `BlockIO.BlockCache.Flush1` | kernel/blockio.c:306-339 | the loop over the copies writes what the specification of a write-back says |
| `BlockIO.BlockCache.GetBlk` | kernel/blockio.c:213-244 | refines the above on the linked buffers; the block asked for is in a valid buffer at the front, and what is seen is as before |
| `BlockIO.BlockCache.DeleteBlockInBufferCache` | kernel/blockio.c:158-181 | visits every buffer once: buffers of the range are written back before a read, thrown away before a write |
| `BlockIO.BlockCache.ReadRun` | kernel/fatfs.c:1412-1426 | a direct read returns what is seen of the run |
| `BlockIO.BlockCache.WriteRun` | kernel/fatfs.c:1412-1426 | a direct write changes what is seen in exactly the run |
| `BlockIO.BlockCache.Flush` | kernel/blockio.c:344-362 | afterwards the disk is what was seen, all units |
| `BlockIO.BlockCache.FlushBuffers` | kernel/blockio.c:286-301 | afterwards the disk of the unit is what was seen, and nothing that is seen has changed |
| `FatFormat.PackUnpack` | kernel/fattab.c:280-330 | a stored 12-bit entry reads back, and the nibble of the byte it shares is kept |
| `FatFormat.WriteEntryRaw` | kernel/fattab.c:280-352 | writing entry c changes entry c to the value stored and no other, 12-bit neighbours that share a byte included |
| `FatFormat.DecodeEncode` | kernel/fattab.c:286-350 | FREE, cluster numbers, LONG_BAD and LONG_LAST_CLUSTER survive storing and reading |
| `FatTab.EntryPlace12` | kernel/fattab.c:190-246 | the sector and nibble arithmetic of a 12-bit entry finds the byte it starts in |
| `FatTab.Dpb.LinkFat` | kernel/fattab.c:161-376 | reads the entry, or stores the value so that it and no other entry reads differently, in the first copy and as seen in all; refuses bad arguments; keeps the free counter exact or unknown; entries may straddle two sectors |
| `FatTab.Dpb.UpdateCount` | kernel/fattab.c:353-374 | the adjustment keeps the counter equal to the number of free entries |
| `FatTab.Dpb.NextCluster` | kernel/fattab.c:381-408 | the next cluster, the end mark, or 0 or 1 for a chain that is not in order; nothing changes |
| `FatTab.Dpb.IsFreeCluster` | kernel/fattab.c:411-414 | whether the entry is free; nothing changes |
| `Chains.ChainDistinct` | kernel/fatfs.c:1020-1099 | a chain closed by the end mark never comes back to a cluster |
| `Chains.FindFreeFinds` | kernel/fatfs.c:754-818 | the search finds a free cluster exactly when there is one, whatever the hint |
| `Chains.AppendGrows` | kernel/fatfs.c:941-977 | appending a free cluster to a chain gives a chain, and touches no entry outside it |
| `Chains.GrowsApart` | kernel/fatfs.c:941-977 | growth neither changes another chain nor makes it share a cluster |
| `Chains.GrowsTransitive` | kernel/fatfs.c:1072-1098 | growing again is growing |
| `Chains.WipeRound` | kernel/fatfs.c:628-667 | each round of the wipe turns one entry that is not free into a free one, on any table |
| `Chains.WipeOutChain` | kernel/fatfs.c:628-667 | on a chain the wipe frees exactly its clusters |
| `Chains.CutByWipe` | kernel/fatfs.c:1880-1916 | ending a chain, or freeing its first cluster, and wiping out the rest is cutting it |
| `Chains.ShrinksApart` | kernel/fatfs.c:1863-1918 | cutting a chain leaves every other chain as it was |
| `FatFs.FindFatFree` | kernel/fatfs.c:754-818 | the loop goes once round from the hint and returns what the search specifies; the hint stays unknown or a cluster |
| `FatFs.Extend` | kernel/fatfs.c:941-977 | nothing on a full disk; a first cluster; one more cluster; behind a cluster that is not the last, a lost cluster |
| `FatFs.ExtendsLast` | kernel/fatfs.c:941-977 | behind the last cluster it appends and uses up one free cluster, or there is none |
| `FatFs.MapCluster` | kernel/fatfs.c:1020-1099 | whatever the cached cluster, success leaves the cluster of the position, chain[offset / cluster size]; a read fails exactly when the chain is too short and changes nothing; a write only appends, and fails only on a full disk |
| `FatFs.WipeOutClusters` | kernel/fatfs.c:628-667 | ends on every table, even a cyclic one, with the table and hint of the specification |
| `FatFs.ShrinkFile` | kernel/fatfs.c:1863-1918 | leaves exactly the first ceil(size / cluster size) clusters and frees the others, or fails, changing nothing, when the chain is shorter than that |
| `FatFs.DosFree` | kernel/fatfs.c:1507-1559 | returns the number of free clusters and establishes the counter; the first free cluster becomes the hint |
| `FatRuns.RunKeepsWellFormed` | kernel/fatfs.c:941-1099 | in every run of growing, cutting, creating and failing operations all chains stay closed, acyclic and pairwise disjoint |
| `FatRuns.RunSparesFile` | kernel/fatfs.c:941-1099 | a file no operation of a run is about keeps its chain and every entry of it |
| `FatRuns.RunLoses` | kernel/fatfs.c:958-974 | the clusters in use by no file after a run are those before and those its failures lost: nothing else leaks, and nothing lost is used again |
| `FatRuns.ExtendIsStep` | kernel/fatfs.c:941-977 | `extend` behind any cluster of a file changes nothing, or is a growth, or loses a cluster |
| `FatRuns.WipeIsStep` | kernel/fatfs.c:628-679 | wiping out a file from its first cluster is a cut to nothing |
| `FatRuns.WriteIsStep` | kernel/fatfs.c:1366-1504 | the growth of a writing call is a step, and keeps the volume in order |
| `FatRuns.TruncateIsRun` | kernel/fatfs.c:1279-1306 | a truncating write is a growth and then a cut, and keeps the volume in order |
| `FileBytes.ClustersApart` | kernel/fatfs.c:76-84 | no sector belongs to two clusters |
| `FileBytes.ClusterOutsideFat` | kernel/fatfs.c:76-84 | no sector of a cluster is one of a FAT |
| `FileBytes.WriteSector` | kernel/fatfs.c:1448-1487 | overwriting part of one sector of a file overwrites those bytes of the file and no others |
| `FileBytes.WriteRunBytes` | kernel/fatfs.c:1410-1429 | overwriting a run of adjacent sectors overwrites those bytes of the file and no others |
| `FileBytes.ReadRunBytes` | kernel/fatfs.c:1410-1429 | a run of adjacent sectors holds those bytes of the file |
| `FileBytes.ContiguousMore` | kernel/fatfs.c:1393-1408 | a cluster whose first sector follows the run on the disk continues the run in the file |
| `FileBytes.OtherContent` | kernel/fatfs.c:1248-1504 | a file with other clusters keeps its bytes |
| `FileBytes.SplitsAgree` | kernel/fatfs.c:1368-1487 | however a write was split into direct and buffered transfers, the bytes of the file are the same |
| `RwBlock.SectorMask` | kernel/fatfs.c:1361-1366 | cutting the sector number to a byte before masking loses nothing |
| `RwBlock.Coalesce` | kernel/fatfs.c:1373-1408 | the sectors chosen for one direct transfer are adjacent both in the file and on the disk; on the way a write only appends clusters |
| `RwBlock.Direct` | kernel/fatfs.c:1368-1429 | the position moves on by whole sectors, which have been read or written at their place in the file |
| `RwBlock.Buffered` | kernel/fatfs.c:1432-1487 | the position moves on by at least one byte inside one sector, read or written at its place in the file |
| `RwBlock.DosExtend` | kernel/fatfs.c:1108-1166 | the file is extended to its position, or there is no cluster for that and none left |
| `RwBlock.ReadFile` | kernel/fatfs.c:1248-1504 | returns exactly content[offset..min(offset + count, size)], as far as the chain reaches; file, volume and the rest of the user's memory are unchanged |
| `RwBlock.WriteFile` | kernel/fatfs.c:1248-1504 | writes as many bytes as the file's clusters and all free ones have room for, at the position; all other bytes are kept, the chain only grows, the size is the larger of the old one and the new position |
| `RwBlock.Truncate` | kernel/fatfs.c:1290-1306 | a write of nothing ends the file at its position, with just the clusters it needs |
| `RwBlock.RwBlock` | kernel/fatfs.c:1248-1504 | the three together |
| `RwBlock.WritesAllIff` | kernel/fatfs.c:1248-1504 | all bytes are written if and only if the clusters needed are at most those of the file and the free ones |
| `RwBlock.OtherFileKept` | kernel/fatfs.c:1248-1504 | writing a file leaves the chain and the bytes of every other file as they were |
| `RwBlock.TruncateSparesOther` | kernel/fatfs.c:1863-1918 | truncating a file leaves the chain and the bytes of every other file as they were |
| `RwBlock.ResizeKeepsBytes` | kernel/fatfs.c:1863-1918 | truncating keeps the bytes that are still there |
| `RwBlock.WriteThenRead` | kernel/fatfs.c:1248-1504 | going back and reading gives the bytes just written |
| `RwBlock.PositionsFit` | kernel/fatfs.c:1248-1504 | positions inside a file stay below 2^32 |
| `ByteRuns.RunShows` | kernel/fatfs.c:1248-1504 | at every point of every run over the files of a volume, each file holds what the writes to it leave, in order, of the bytes known at first, cut by its truncations |
| `ByteRuns.RunSparesBytes` | kernel/fatfs.c:1248-1504 | through every run a file that is only read keeps chain, size and every byte |
| `ByteRuns.RunInOrder` | kernel/fatfs.c:1248-1504 | every run keeps all chains closed, acyclic and disjoint |
| `ByteRuns.Call` | kernel/fatfs.c:1248-1504 | every call of `rwblock` on an open file is a step of such a run |
| `FatSizing.CalculateFatData` | kernel/initdisk.c:424-567 | the loop stops at the first number of sectors per cluster that makes neither too many nor too few clusters |
| `FatSizing.Fat16Holds` | kernel/initdisk.c:519-527 | the computed FAT has an entry for every cluster and the two reserved ones, exactly when there are two sectors for FATs at all |
| `FatSizing.Fat12Holds` | kernel/initdisk.c:436-471 | the same for 12-bit entries |
| `FatSizing.OnlyTheTypeLimits` | kernel/initdisk.c:528-536 | so only the limit of the type can make the clusters too many |
| `FatSizing.BpbToDpb` | kernel/fatfs.c:1636-1686 | the drive parameter block, with the size corrected for a FAT that is too short |
| `FatSizing.FitsIff` | kernel/fatfs.c:1664-1681 | after that every entry lies inside one FAT if and only if the FAT is not empty and the case let through does not apply |
| `FatSizing.LetThrough` | kernel/fatfs.c:1670-1672 | a volume of that case that the kernel lays out itself for 12-bit entries, and that one sector less fits |
| `FatSizing.FoundIff` | kernel/initdisk.c:507-539 | a number of sectors per cluster is found for 16-bit entries just if four of them do not make too few clusters |
| `FatSizing.LargestTaken` | kernel/initdisk.c:507-539 | the most sectors that FATs of 16-bit entries are made for take the largest clusters |
| `FatSizing.LayOut` | kernel/initdisk.c:424-567 | whatever the number of sectors, a volume laid out and read back is of the type asked for with a FAT that holds every cluster just if it suits the type and a cluster size is found; then all clusters lie inside the volume |
| `PoolSpec.PlacedKeeps` | fdpp/smalloc.c:258-386 | placing a block in its room keeps the areas a gap-free tiling without adjacent free ones, adds just that block, and accounts for the free bytes |
| `PoolSpec.FreedKeeps` | fdpp/smalloc.c:432-460 | the same for taking a block away |
| `PoolSpec.OtherOutside` | fdpp/smalloc.c:166-200 | every other block lies outside the room |
| `PoolSpec.TakenIs` | fdpp/smalloc.c:283-295 | cutting, marking and cutting again places a block |
| `PoolSpec.TakenBelowCut` | fdpp/smalloc.c:357-380 | so does cutting off the top first |
| `PoolSpec.FreeSteps` | fdpp/smalloc.c:443-459 | marking a block free and joining it with both neighbours gives the one free area |
| `PoolSpec.SlideIs` | fdpp/smalloc.c:470-493 | the steps of sliding a block into the area before it give the block resized there |
| `PoolSpec.LiveDetermines` | fdpp/smalloc.c:166-200 | two coalesced tilings of the pool with the same blocks are the same |
| `PoolSpec.BytesAccounted` | fdpp/smalloc.c:117-163 | free and used bytes add up to the pool |
| `Smalloc.MemPool.MnTruncate` | fdpp/smalloc.c:166-200 | one helper shrinks, grows, splits or joins nodes of the list |
| `Smalloc.MemPool.AllocFixed` | fdpp/smalloc.c:258-296 | allocates at the address exactly when a free area has the room there; the block is cleared and apart from all others, no other byte changes |
| `Smalloc.MemPool.AllocAligned` | fdpp/smalloc.c:298-331 | allocates an aligned block from the first free area of size + align - 1 bytes, exactly when there is one |
| `Smalloc.MemPool.SMalloc` | fdpp/smalloc.c:388-394 | for a positive size fails exactly when no free area is large enough |
| `Smalloc.MemPool.AllocAlignedTopdown` | fdpp/smalloc.c:338-381 | allocates an aligned block below `top` from the last area that fits, as high as alignment allows, exactly when there is one |
| `Smalloc.MemPool.SmFree` | fdpp/smalloc.c:432-460 | frees the block that starts at the address, and fails exactly when there is none |
| `Smalloc.MemPool.ReallocAllocMn` | fdpp/smalloc.c:464-504 | slides the block into the free area before it, with or without the one after it, or relocates it; fails exactly when neither is possible, and reads through null exactly behind a free area at the end of the pool |
| `Smalloc.MemPool.SmRealloc` | fdpp/smalloc.c:506-547 | in all its cases keeps the first min(old, new) bytes, clears the rest, leaves all other blocks alone and changes the free bytes by old minus new; fails exactly when there is no space; reads through null exactly when the last block is to grow and the area before it is free |
| `Smalloc.MemPool.SmFreeAll` | fdpp/smalloc.c:639-650 | ends, with one free area |
| `Smalloc.RunKeepsBlock` | fdpp/smalloc.c:258-547 | through every run a block neither freed nor resized stays in use, byte for byte |
| `Smalloc.AllocCall` | fdpp/smalloc.c:258-394 | every allocation is a step of such a run, or changes nothing |
| `Smalloc.FreeCall` | fdpp/smalloc.c:432-460 | so is every free |
| `Smalloc.ReallocCall` | fdpp/smalloc.c:506-547 | so is every resize; of nothing it is an allocation, and to nothing a free |
| `Smalloc.NullNextReachable` | fdpp/smalloc.c:469-471 | a run after which `smrealloc` would follow a null pointer |
| `McbSpec.MergedIs` | kernel/memmgr.c:58-92 | merging leaves a tiling without adjacent free blocks |
| `McbSpec.JoinAllIs` | kernel/memmgr.c:58-92 | joining from a free block changes nothing up to merging |
| `McbSpec.OwnedOnce` | kernel/memmgr.c:231-291 | no paragraph belongs to two blocks in use |
| `McbSpec.LiveMerged` | kernel/memmgr.c:58-92 | merging touches no block in use |
| `McbSpec.Rewritten` | kernel/memmgr.c:231-291 | rewriting the control blocks inside some blocks keeps the chain in memory in order, ending in one last block |
| `McbSpec.ChangedLive` | kernel/memmgr.c:360-433 | resizing leaves all other blocks as they are |
| `MemMgr.Arena.JoinMCBs` | kernel/memmgr.c:58-92 | joins all free blocks that follow, writing only control blocks of free blocks and its own |
| `MemMgr.Arena.DosMemAlloc` | kernel/memmgr.c:137-291 | grants the first, the smallest, the largest or the last merged run that fits, by mode, at its start or end; fails with DE_NOMEM exactly when no run can be granted, storing the largest size; no paragraph of a block in use is written |
| `MemMgr.GrantedLive` | kernel/memmgr.c:231-291 | a granted request adds just the new block, apart from all others |
| `MemMgr.GrantableIff` | kernel/memmgr.c:218-233 | a request for at least one paragraph can be granted exactly when some merged run fits |
| `MemMgr.NothingFromNothing` | kernel/memmgr.c:169-221 | a request for none is met by first fit if any run is free, else only if the run chosen, the largest, the smallest or the last, has paragraphs |
| `MemMgr.Arena.DosMemFree` | kernel/memmgr.c:323-348 | frees the block of that control block and changes no other paragraph, whatever the segment |
| `MemMgr.Arena.DosMemChange` | kernel/memmgr.c:360-433 | succeeds exactly up to the block's room, with the rest free; else the block gets its room and that is reported; the other blocks and the block's own kept paragraphs are not written |
| `MemMgr.ParasAccounted` | kernel/memmgr.c:58-92 | the sum of size + 1 over the chain is constant |
| `MemMgr.RunHolds` | kernel/memmgr.c:137-433 | through every run, frees of any segment included, a block neither freed nor resized keeps its control block, and each of its paragraphs that no free of a segment inside it hits |
| `MemMgr.FreeHoldsIff` | kernel/memmgr.c:323-348 | a free leaves a block in use and its paragraph alone just if it is not of that block, nor of that paragraph when it looks like a control block in use |
| `MemMgr.FreeInside` | kernel/memmgr.c:323-348 | a free of a segment inside a block in use that overwrites it |
| `MemMgr.Call` | kernel/memmgr.c:137-433 | every call is a step of such a run |
| `LbaTransfer.ChsMapsBack` | kernel/dsk.c:913-941 | cylinder, head and sector lie inside the geometry and map back to the address |
| `LbaTransfer.RegistersCarryIff` | kernel/drivers/floppy.asm:108-134 | the registers of a BIOS call carry every address of a geometry just if it has at most 63 sectors to a track and 256 heads |
| `LbaTransfer.DmaStaysInside` | kernel/dsk.c:946-954 | the sectors allowed do not cross a 64K boundary |
| `LbaTransfer.CoversOnce` | kernel/dsk.c:1024-1139 | a covering has every sector of the range in exactly one transfer |
| `LbaTransfer.Drive.LbaTransfer` | kernel/dsk.c:984-1142 | on success all sectors are covered once and in order, by runs each of which a successful call transferred, and one that followed verified where that was asked for, exactly when every call can say how many sectors it is for; else only the first total modulo 256 are. Of those memory and disk hold the same, and nothing else has changed; on success the drive can address all of them; on failure either as many calls have failed as there are attempts, the last of them with the error returned, or the next sector lies beyond cylinder 1023, and the rest holds of the sectors reported. The user's memory may be the transfer buffer, for one sector. Every call lies inside the request and one track, a direct one inside one 64K window if the drive needs that |
| `LbaTransfer.Drive.NoneArrive` | kernel/dsk.c:1060 | 256 sectors asked of a DMA-transparent LBA drive are reported done, and none is transferred |
| `SymWrp.ObjLock.Lock` | fdpp/objlock.cpp:56-62 | takes note of a copy-back, and fails exactly when there has been another since |
| `SymWrp.Memory.Create` | fdpp/farptr.hpp:425-444 | a step: the wrapper's copy and snapshot are what memory holds; the entry counts it |
| `SymWrp.Memory.Modify` | fdpp/farptr.hpp:425-444 | a step: only the copy changes |
| `SymWrp.Memory.CopyMods` | fdpp/farptr.hpp:405-410 | succeeds exactly when the wrapper has not been left behind; then memory is found to be its snapshot and left as its value |
| `SymWrp.Memory.Destroy` | fdpp/farptr.hpp:412-419 | a step, or fails and changes nothing exactly when the wrapper is to be copied back and has been left behind |
| `SymWrp.TwoWriters` | fdpp/farptr.hpp:405-444 | of two changed wrappers of one object only the first destroyed is copied back |
| `SymSpec.Begin` | fdpp/objlock.cpp:29-32 | memory without wrappers or entries, where every run starts, is in order |
| `SymSpec.RunFindsSnapshots` | fdpp/farptr.hpp:405-410 | every copy-back of every run finds its wrapper's snapshot in memory and leaves its value there |
| `SymSpec.RunIsSerial` | fdpp/objlock.cpp:34-62 | between the making of a wrapper and its copy-back nobody else copies back at its address: no update is lost |
| `SymSpec.BehindIff` | fdpp/objlock.cpp:34-62 | a wrapper has been left behind exactly when somebody has copied back at its address since it was made |
| `SymSpec.LastCopyStays` | fdpp/farptr.hpp:405-444 | memory at an address is what was last copied back there |
| `SymSpec.RestStays` | fdpp/farptr.hpp:405-444 | memory that no copy-back covers never changes |
| `SymSpec.RunInOrder` | fdpp/objlock.cpp:34-62 | in every run refcnt is the number of wrappers that exist at the address |

## Assumptions

- Device calls do not fail, except in `LbaTransfer`, where which BIOS calls fail is open and a failing call does nothing.
- Integers are unbounded. Widths are written out where they matter: the free counter and `dpb_size` (16 bits), the ULONG
  differences of the sizing code, `nsector` (8 bits), the block count of an LBA packet (8 bits), the MCB size 0xffff.
  Positions in files fit 32 bits (`PositionsFit`), MCB sizes fit 16 because the arena ends by paragraph 0x10000, pool sizes fit an `int` because they are below 2^31.
- Bit operations are written as arithmetic: shifts as repeated halving and doubling, masks as remainders.
- Far pointers are linear addresses. `maxsecsize` is at least 512, its initial value, which nothing lowers. An LBA call for no
  sectors transfers none.
- Buffers are addressed by offset in one segment; `b_next`, `b_prev` and the buffers are maps from offsets.
- One file is open once; nobody else changes the volume meanwhile.

## Left out

- BlockIO.BlockCache.GetBlk: a failing read, after which the buffer keeps its old tag, is not modelled; nor are retries and
  critical errors. Blocks inside a later copy of a FAT are excluded: the kernel asks for sectors of the first copy only.
- FatTab.Dpb.LinkFat: FAT32 entries and the free counter of the FSInfo sector are not modelled.
- FatFs.MapCluster: directories, whose first cluster is kept elsewhere, and `clear_dir` and `extend_dir` are not modelled.
- RwBlock.WriteFile: attributes, dates, the clean flag and the merging of changes between open instances are not modelled; the bytes
  between the old end of a file and a write behind it are left open, as the code leaves them.
- FatRuns: directory entries are not modelled; a file is its chain.
- FatSizing.BpbToDpb: the extended fields of FAT32 are not modelled.
- FatSizing.CalculateFatData: the FAT32 branch and the type strings are not modelled.
- Smalloc.MemPool.MnTruncate: `commit` and `uncommit` are NULL, as `sminit` sets them; a failing commit is not modelled.
- Smalloc.MemPool.SmRealloc: what happens after a null pointer has been read through is not modelled.
- Smalloc.MemPool.AllocAligned: `align` need not be a power of two here; the bit operations of the code agree with the remainders only if it is.
- MemMgr.Arena.DosMemAlloc: upper memory is not linked, and block names are not modelled.
- MemMgr.Arena.DosMemChange: a segment that is no control block but looks like a valid one is excluded, and so from the runs.
- LbaTransfer.Drive.constructor: a drive addressed by track has at most 63 sectors to a track and 256 heads, because the
  registers carry no more (`RegistersCarryIff`).
- LbaTransfer.Drive.LbaTransfer: memory of the user's that overlaps the transfer buffer in part is excluded; formatting, the drive letter
  exchange and the sector count of the diskette table are not modelled.
- SymWrp.Memory.Create: objects that overlap at different addresses, which the lock counts do not relate, variable-length
  objects, move construction and the magic string of a wrapper are not modelled.
- `smrealloc_aligned`, `DosMemLargest`, the size queries of smalloc: they would add little to the members here.
- `setinvld` and media change, which discard buffers on purpose.
- kernel/hmamgr.c, the INT 21h and 2Fh dispatchers, configuration, character devices, FCBs, name conversion.
