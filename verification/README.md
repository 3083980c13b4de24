# Verified model of MimicOS memory management and FAT, and of three smaller algorithms

This project models, in Dafny 4.11, the algorithms of the repository that decide who owns which
memory and which disk space, and proves what they promise. `dafny verify dfyconfig.toml` checks it.

## What is modelled

**Memory stack of MimicOS.**

* `PhysicalPages` (with `Bits`): the page allocator. A bitmap with one bit per 4 KB frame, most
  significant bit first, two zones, and its construction from a Multiboot memory map (section 3.3 of
  the Multiboot Specification). It refines a set of taken frames.
* `PageTables`, `FrameOwnership`, `AddressSpaces`: two-level 32-bit paging (section 4.3 of the Intel
  SDM, volume 3A): the walk, the directory that maps itself in its last slot, and page tables created
  on demand by two mutually recursive routines. Every frame handed out has one owner: a directory, a
  page table of one slot, a page of the heap, or a client.
* `HeapGrowth`, `HeapLayout`, `KernelHeap`: the kernel heap, a first-fit list of 12-byte headers in
  address order, grown by pages that the layers below allocate and map.
* `FrameRuns`, `KernelMemory`, `Boot`: starting the stack, and runs of all of it, in any order.

**FAT.** `FatTable` is the table as bytes with 12-, 16- and 32-bit entries (laid out as in section
"FAT Type Determination" of Microsoft's FAT32 File System Specification), `FatChains` the chains on
the entries' values, `ClusterDevice` clusters over sectors, `FatVolume` reading, writing and growing
files, and `FatRuns` sequences of requests on several files. `ByteSeqs` holds the byte strings they
share, `Counting` how many elements sequences hold, and `Machine` the sizes of the machine.

**Smaller members.** `MmuEmulator` (the stand-alone two-level page table), `DiskBlocks` (the on-disk
bitmap search) and `BitPermutation` (the 16-bit permutation).

Code that updates state in place is a class whose methods equate the new state with a function of the
old one; the proofs are lemmas about those functions, on values. Ghost fields record what the code
itself does not store: the owners of frames, the heap's items in address order, the chains of files.

## Where the code does not do what it is meant to do

Each of these is stated as it is, with the exact condition under which the code meets its purpose.

| code | what happens | stated by |
|---|---|---|
| heap growth does not link the new region (mm.c:129-145) | the list never reaches it, so its blocks cannot be freed. The heap carries a flag `links`; false is the code as written, and both are proved | `KernelHeap.GrowReaches`, `KernelHeap.GrowReachesAt`, `KernelMemory.KernelMemory.RunThenFreeAll` |
| a block's header stores the unrounded size (mm.c:143) | kept; items then end at or before the next one, and exactly at it while sizes are multiples of 8 | `HeapLayout.SplitPacked`, `HeapLayout.GrowPacked` |
| the leftover size can wrap below zero (mm.c:138) | kept; it does exactly for the sizes of `Overflows` | `KernelHeap.TotalArithmetic`, `KernelHeap.KernelHeap.Kmalloc`, `KernelHeap.DefectsAt` |
| rounding a request near 4 GB wraps (mm.c:113) | kept; such a request breaks the heap | `KernelHeap.RequestsExactly`, `KernelHeap.KernelHeap.Kmalloc` |
| a new page table is initialised from the faulting address on (paging.c:56-59) | kept; it runs into the next slot unless the address is at a slot's start, and from the last ordinary slot, through the self-mapping one, into the directory itself | `FrameOwnership.KeepsOthersExactly`, `FrameOwnership.KeepsOthersFailsAt`, `FrameOwnership.LookupAfterSet` |
| a request for an address in the self-mapping slot writes the directory itself (paging.c:67-80) | kept; done where it keeps the ownership of frames | `FrameOwnership.SelfMapWriteExactly`, `FrameOwnership.SelfMapWriteFailsAt` |
| the walk over a memory region compares with a wrapped end (physical.c:116) | excluded where it never ends | `PhysicalPages.WalkEndsExactly`, `PhysicalPages.WalkNeverEndsAt` |
| setting a FAT entry stores one byte, and for wide entries in another cluster's entry (fat.c:12-25) | modelled as the inverse of reading | `FatTable.PutByteExactly`, `FatTable.PutByteReaches`, `FatTable.PutByteFailsAt` |
| clusters are counted from one behind the root directory, whatever the reserved sectors (fat.c:109-116) | kept | `ClusterDevice.PlacedExactly`, `ClusterDevice.PlacedAt` |
| sectors drift apart in the cluster buffer (fat.c:136) | modelled with sector i at i sectors from the start | `ClusterDevice.DriftingExactly`, `ClusterDevice.DriftingAt` |
| a chunk is clipped against the position in the file (fat.c:498-501) | modelled as clipped at the end of the cluster, as the comment above it says | `FatVolume.ChunkAsWrittenExactly`, `FatVolume.ChunkAsWrittenLater`, `FatVolume.ChunkAsWrittenAt` |
| a cluster is not marked before the next one is searched for, and `prev_cluster` takes an undeclared name (fat.c:468-477) | modelled as marked, and `prev_cluster` as the cluster just linked | `FatChains.ExtendUnmarkedHalves`, `FatChains.ExtendUnmarkedAt` |
| a growing write relinks behind the cluster it starts in, not behind the last one (fat.c:467-474) | kept; it drops clusters of the file | `FatVolume.GrowingDropsExactly`, `FatVolume.GrowingDropsAt` |
| a growing write that runs out of clusters has relinked the chain already (fat.c:468-473) | kept; the end of the file is lost or replaced by what the clusters linked hold | `FatVolume.FailedWriteKeepsExactly`, `FatVolume.FailedWriteLosesAt` |
| a growing write asks for a cluster more than its size is whole ones, whatever the file has (fat.c:465) | kept; so it can fail though it fits | `FatVolume.AskedExactly`, `FatVolume.FitsButFails` |
| the test whether a request reaches beyond the file wraps at 4 GB (fat.c:461) | kept; a read is then not cut off at the end of the file | `FatVolume.ClippedExactly`, `FatVolume.ClippedAt` |
| at the end of a file that fills its clusters, reading fails instead of returning nothing (fat.c:453-459) | kept | `FatVolume.ReadRefines` |
| a write there fails too, however many clusters are free, so such a file cannot be appended to (fat.c:453-459) | kept | `FatVolume.WriteFailsExactly` |
| signed bytes never equal 0xff, and the wrong bit is set (block.c:114, 130) | modelled with unsigned bytes and the bit that was found | `DiskBlocks.SearchAsWrittenRepeats`, `DiskBlocks.SearchAsWrittenFreeExactly`, `DiskBlocks.SearchAsWrittenTakenAt` |

## Model

| member | source | states |
|---|---|---|
| Bits.MarkOne | MimicOS/include/kernel/mm/physical.h:14-18 | setting the bit of a frame adds exactly that frame to the set the bitmap stands for; with `ClearOne`, frame to (byte, bit) is injective and in bounds |
| Bits.ClearOne | MimicOS/src/kernel/mm/physical.c:86-88 | clearing the bit of a frame removes exactly that frame |
| PhysicalPages.PhysicalMemory.IsPageFree | MimicOS/src/kernel/mm/physical.c:20-25 | free iff the frame is not in the set of taken frames |
| PhysicalPages.PhysicalMemory.PageAllocLimit | MimicOS/src/kernel/mm/physical.c:31-42 | takes the lowest free frame of [low, high) and no other; 0 iff there is none |
| PhysicalPages.PhysicalMemory.PageAllocHigh | MimicOS/src/kernel/mm/physical.c:45-55 | the lowest free frame from 16 MB on, 0 iff all are taken or there are none |
| PhysicalPages.PhysicalMemory.PageAllocLow | MimicOS/src/kernel/mm/physical.c:57-67 | the lowest free frame below 16 MB and below the end of memory, never frame 0 |
| PhysicalPages.PhysicalMemory.PageAlloc | MimicOS/src/kernel/mm/physical.c:71-80 | 0 iff every frame from 1 on is taken; a low frame only if all frames from 16 MB on are taken; for every memory size |
| PhysicalPages.NextFreeUnique | MimicOS/src/kernel/mm/physical.c:71-80 | which frame an allocation takes is determined by the frames taken before |
| PhysicalPages.PhysicalMemory.PageFree | MimicOS/src/kernel/mm/physical.c:82-90 | frees exactly one frame, and nothing for address 0 or beyond memory |
| PhysicalPages.BitmapCovers | MimicOS/src/kernel/mm/physical.c:100-102 | the bitmap has one bit for each frame of the first megabyte and the upper memory in whole megabytes, and one for every frame below the maximum address, which is that size in 32 bits |
| PhysicalPages.WalkEndsExactly | MimicOS/src/kernel/mm/physical.c:116-118 | the walk over a region in 32-bit arithmetic ends iff the stated guard holds |
| PhysicalPages.WalkNeverEndsAt | MimicOS/src/kernel/mm/physical.c:116-118 | a region on which the walk never ends |
| PhysicalPages.OfferedOnMap | MimicOS/src/kernel/mm/physical.c:109-122 | the frames offered, on the base and length of the regions of the map |
| PhysicalPages.WrappedOffersNothing | MimicOS/src/kernel/mm/physical.c:116 | a region that reaches 4 GB offers nothing |
| PhysicalPages.FreeRegion | MimicOS/src/kernel/mm/physical.c:115-119 | frees exactly the frames its steps visit, but not at address 0 or beyond memory |
| PhysicalPages.FreeRegions | MimicOS/src/kernel/mm/physical.c:111-122 | with a memory map, the free frames are those some available region visits |
| PhysicalPages.ReserveKernel | MimicOS/src/kernel/mm/physical.c:127-130 | takes exactly the frames of the kernel image and the bitmap behind it |
| PhysicalPages.PhysicalInit | MimicOS/src/kernel/mm/physical.c:92-132 | fails iff there is no memory information; else the maximum address is the first megabyte and the upper memory in whole megabytes, and a frame is free iff offered by the map (or, without one, not the VGA frame) and not the kernel's |
| PageTables.IndicesOfPage | MimicOS/include/kernel/mm/paging.h:36-38 | directory and table index together are the page number |
| PageTables.Decompose | MimicOS/include/kernel/mm/paging.h:29-38 | every (slot, index, offset) is reached by exactly the address built from it |
| PageTables.PageAlignExactly | MimicOS/include/kernel/mm/paging.h:11 | addresses are rounded up to the next page, in the last page to 0 |
| PageTables.SelfMap | MimicOS/include/kernel/mm/paging.h:33-34 | through the self-mapping slot, walking GET_PDE(v) yields the address of v's directory entry, and GET_PTE(v) that of v's table entry iff v's table is present, for every 32-bit v |
| PageTables.RoundInside | MimicOS/src/kernel/mm/paging.c:56-59 | one round of the initialising loop clears one more entry of the new table |
| PageTables.RoundBeyond | MimicOS/src/kernel/mm/paging.c:56-59 | past the slot's end a round clears an entry of the next slot's table, and behind the last ordinary slot one of the directory |
| PageTables.RoundCreating | MimicOS/src/kernel/mm/paging.c:52-60 | the first round past the end makes a table for an empty next slot |
| FrameOwnership.InstallKeeps | MimicOS/src/kernel/mm/paging.c:32-45 | installing a fresh table in a slot keeps the ownership invariant |
| FrameOwnership.WriteKeeps | MimicOS/src/kernel/mm/paging.c:67-80 | writing table entries keeps it |
| FrameOwnership.DirectoryKeeps | MimicOS/src/kernel/mm/paging.c:112-129 | a fresh self-mapped directory keeps it |
| FrameOwnership.FreeKeepsExactly | MimicOS/src/kernel/mm/physical.c:82-90 | freeing a frame, whatever it served as, keeps the ownership invariant iff it is not reserved and no other directory refers to it |
| FrameOwnership.SelfMapWriteExactly | MimicOS/src/kernel/mm/paging.c:67-80 | an entry set through the self-mapping slot is one of the directory itself; that keeps the ownership invariant iff the slot ends up empty, with its own table, or, for the last one, with the directory |
| FrameOwnership.SelfMapWriteFailsAt | MimicOS/src/kernel/mm/paging.c:67-80 | a request for which it does not |
| FrameOwnership.SelfMapKeepsOthers | MimicOS/src/kernel/mm/paging.c:67-80 | it changes no mapping of any other directory |
| FrameOwnership.RoundAddress | MimicOS/src/kernel/mm/paging.c:56-58 | which slot and index each round of the loop addresses |
| FrameOwnership.NextRound | MimicOS/src/kernel/mm/paging.c:56-59 | a recursive call of the loop takes the state of n rounds to that of n + 1 rounds |
| FrameOwnership.LookupAfterSet | MimicOS/src/kernel/mm/paging.c:49-80 | what every page of every directory maps to after one entry below the self-mapping slot is set, including what an unaligned creation leaves behind, and clears in the next slot or the directory |
| FrameOwnership.KeepsOthersExactly | MimicOS/src/kernel/mm/paging.c:49-60 | all other pages keep their mappings iff the slot had a table, or the frame that is handed out next holds no present entry below the index, where that is reached, and nothing is mapped where the rounds beyond the slot clear |
| FrameOwnership.KeepsOthersFailsAt | MimicOS/src/kernel/mm/paging.c:49-60 | a request after which another page is mapped too |
| FrameOwnership.SetKeepsFrames | MimicOS/src/kernel/mm/paging.c:49-80 | setting an entry, with all the tables it makes, takes no frame from its owner and writes to no heap or client page |
| FrameOwnership.AlignedCreation | MimicOS/src/kernel/mm/paging.c:52-60 | at a slot's start exactly one table is made, all its 1024 entries are initialised whatever the frame held, and no other frame but the directory changes |
| AddressSpaces.AddressSpaces.SetPageDirectoryEntry | MimicOS/src/kernel/mm/paging.c:32-45 | writes that one entry; the table gets the slot as its owner |
| AddressSpaces.AddressSpaces.GetPageTableEntry | MimicOS/src/kernel/mm/paging.c:49-65 | for every address: terminates, with the slot and whether it has a table as measure; makes no table if the slot has one, one if the address is at a slot's start or the next slot has one, else two, the first from the frame an allocation takes next; keeps the ownership invariant; fails only when no frame is left |
| AddressSpaces.AddressSpaces.InitialiseTable | MimicOS/src/kernel/mm/paging.c:56-59 | the memory after the loop, entry by entry |
| AddressSpaces.AddressSpaces.SetPageTableEntry | MimicOS/src/kernel/mm/paging.c:67-80 | the resolved memory with exactly the one entry written, for every address below the self-mapping slot, and in that slot wherever the ownership invariant can be kept |
| AddressSpaces.AddressSpaces.CreateDirectory | MimicOS/src/kernel/mm/paging.c:99-133 | a fresh frame becomes a directory that maps itself in the last slot and is empty elsewhere |
| AddressSpaces.AddressSpaces.AllocPage | MimicOS/src/kernel/mm/mm.c:64 | the frame an allocation takes next gets the stated owner |
| AddressSpaces.AddressSpaces.FreePage | MimicOS/src/kernel/mm/physical.c:82-90 | a frame that is neither reserved nor in use as a table is free again and without owner, the others stay as they are |
| HeapGrowth.FirstTouchAligned | MimicOS/src/kernel/mm/mm.c:58-68 | growing from the 4 MB-aligned base first touches each directory slot at its start |
| HeapGrowth.GrowOnePage | MimicOS/src/kernel/mm/mm.c:62-68 | one page of growth maps the new page to its own frame, changes no other mapping of any directory, and writes to no page in use |
| HeapGrowth.PageAdded | MimicOS/src/kernel/mm/mm.c:62-68 | after it, every heap page is still backed by a frame of its own |
| HeapLayout.PayloadsDisjoint | MimicOS/src/kernel/mm/mm.c:104-150 | payloads of live blocks overlap neither each other nor any header |
| HeapLayout.PayloadsUntouched | MimicOS/src/kernel/mm/mm.c:74-150 | what an operation writes lies outside the payload of every block live before and after |
| HeapLayout.SplitPacked | MimicOS/src/kernel/mm/mm.c:122-126 | splitting keeps items in address order without overlap, and exactly adjacent iff they were and the size needs no rounding |
| HeapLayout.SplitBroken | MimicOS/src/kernel/mm/mm.c:122-149 | a block larger than what is cut off for it breaks the order |
| HeapLayout.SplitKeeps | MimicOS/src/kernel/mm/mm.c:122-149 | splitting a fitting free item keeps all of the heap's invariant, adds exactly the one live block, and loses only the rounding |
| HeapLayout.GrowPacked | MimicOS/src/kernel/mm/mm.c:129-145 | the fresh region is cut into two items that keep the order iff the leftover header and payload end by the new top, and exact adjacency iff there was and they fill the region |
| HeapLayout.GrowLinked | MimicOS/src/kernel/mm/mm.c:129-145 | the list stays well linked, without two free neighbours |
| HeapLayout.MergeKeeps | MimicOS/src/kernel/mm/mm.c:89-92 | merging neighbours keeps order and links, and items are exactly adjacent afterwards iff they were before |
| HeapLayout.MergeLive | MimicOS/src/kernel/mm/mm.c:89-92 | merging free neighbours changes no live block |
| HeapLayout.MergeWeight | MimicOS/src/kernel/mm/mm.c:90 | merging conserves what headers and payloads take up together |
| HeapLayout.WeightSpans | MimicOS/src/kernel/mm/mm.c:122-145 | what the items take up lies between the base and the next item, and fills that if there are no gaps |
| HeapLayout.FirstFitOnHeaders | MimicOS/src/kernel/mm/mm.c:114-120 | on the headers, the first fit is the first listed item that is unused and at least as large as the total |
| HeapLayout.AllFree | MimicOS/src/kernel/mm/mm.c:88-93 | a list without live blocks and without free neighbours is one item, which spans the heap |
| KernelHeap.TotalArithmetic | MimicOS/src/kernel/mm/mm.c:112-138 | for requests of up to 2^32 - 16 bytes the total is never a multiple of the page size; the leftover fills the last page exactly, and fits at all, iff the rounded size is not 16 below a multiple of it |
| KernelHeap.RequestsExactly | MimicOS/src/kernel/mm/mm.c:112-113 | the 32-bit total holds the request and a header iff the request is at most 2^32 - 16 |
| KernelHeap.DefectsAt | MimicOS/src/kernel/mm/mm.c:112-138 | a request whose leftover wraps, and one whose total does |
| KernelHeap.GrowKeeps | MimicOS/src/kernel/mm/mm.c:127-145 | growing keeps the invariant iff neither the total nor the leftover wraps; a list that reached all items still does iff the region is linked or is the first |
| KernelHeap.GrowReaches | MimicOS/src/kernel/mm/mm.c:129-145 | after growing, the list reaches every item iff the new region is linked or is the first |
| KernelHeap.GrowReachesAt | MimicOS/src/kernel/mm/mm.c:129-145 | a heap whose second region the list does not reach |
| KernelHeap.KernelHeap.AddPage | MimicOS/src/kernel/mm/mm.c:62-68 | one round of the growth |
| KernelHeap.KernelHeap.MoreCore | MimicOS/src/kernel/mm/mm.c:54-71 | returns the old top, moves the top by whole pages, maps each new page to a frame of its own, and disturbs no other mapping, owner or page in use; fails only when no frame is left |
| KernelHeap.KernelHeap.FirstFit | MimicOS/src/kernel/mm/mm.c:114-120 | the first listed free item that can hold block and header, or none |
| KernelHeap.KernelHeap.Kmalloc | MimicOS/src/kernel/mm/mm.c:104-150 | for every request: splits the first listed free item that is at least as large as the total, or grows by whole pages iff there is none; the block is disjoint from all live ones and only headers are written, and the invariant is kept, iff neither the total nor the leftover wraps |
| KernelHeap.KernelHeap.Kfree | MimicOS/src/kernel/mm/mm.c:74-100 | frees exactly the block at the address if the list reaches it, else changes nothing; afterwards no two listed neighbours are free; conserves space, and gaps |
| KernelHeap.KernelHeap.Coalesce | MimicOS/src/kernel/mm/mm.c:87-93 | one pass over the list merges all free neighbours |
| KernelHeap.KernelHeap.FreeAll | MimicOS/src/kernel/mm/mm.c:74-100 | freeing all live blocks in any order leaves one listed free item; it is the whole heap iff the list reached every item, and then spans it iff items were exactly adjacent |
| FrameRuns.PageGrown | MimicOS/src/kernel/mm/mm.c:62-68 | a page of growth at any address is mapped to a fresh frame of its own, and no frame in use changes owner or content |
| FrameRuns.FrameClients.Map | MimicOS/include/kernel/mm/paging.h:94 | sets any entry below the self-mapping slot, and through that slot empties one of the directory or sets it to the table it has; the resulting memory and owners |
| FrameRuns.FrameClients.GrowPage | MimicOS/src/kernel/mm/mm.c:62-68 | maps the frame an allocation takes next at the address, as a heap page, and zeroes it |
| FrameRuns.FrameClients.Run | MimicOS/src/kernel/mm/paging.c:49-133 | any sequence of directory creations, mappings, page growth, and client allocations and frees, table creation that runs into the next slot or the directory included, keeps the ownership invariant: owned frames are taken, never frame 0, never reserved, and keep owner and content unless given back; it stops only when no frame is left |
| KernelMemory.TablesAreExclusive | MimicOS/src/kernel/mm/paging.c:49-80 | no two directory slots share a table, and no slot refers to a frame with another use |
| KernelMemory.HeapFramesDistinct | MimicOS/src/kernel/mm/mm.c:62-68 | different heap pages have different frames |
| KernelMemory.MappingKeepsHeap | MimicOS/src/kernel/mm/paging.c:49-80 | an entry of another directory, or one outside the heap whose table's initialisation does not reach it, leaves the heap mapped |
| KernelMemory.KernelMemory.OrdinaryHarmless | MimicOS/include/kernel/mm/paging.h:94 | below the self-mapping slot, any entry of another directory, and well below the heap also of the kernel's, harms no page of the heap |
| KernelMemory.GrowthStep | MimicOS/src/kernel/mm/mm.c:127-149 | an allocation that grows the heap leaves every frame with its owner and content, every heap page with its frame, and every live block live |
| KernelMemory.OneMore | MimicOS/src/kernel/mm/mm.c:54-150 | what two parts of a run leave alone, the whole leaves alone, up to what is given back and released |
| KernelMemory.RunUndisturbed | MimicOS/src/kernel/mm/mm.c:54-150 | over any run frames not given back keep owner and content, heap pages their frames, blocks not released stay live, and if all requests are multiples of 8 items are exactly adjacent iff they were |
| KernelMemory.PayloadNeverWritten | MimicOS/src/kernel/mm/mm.c:74-150 | no header written in any step of a run overlaps the payload of a block live before it and not released in it |
| KernelMemory.PayloadStays | MimicOS/src/kernel/mm/mm.c:54-150 | over any run, every byte of a block not released stays live, at the same place of the same frame, which stays the heap's and which neither table creation nor growth writes to |
| KernelMemory.KernelMemory.MapPage | MimicOS/include/kernel/mm/paging.h:94 | sets any entry exactly if no page of the heap depends on it; the resulting memory and owners |
| KernelMemory.KernelMemory.Allocate | MimicOS/src/kernel/mm/mm.c:104-150 | serves a request iff some listed item fits or growing for it neither wraps nor leaves the heap's range; the block is disjoint from all live ones |
| KernelMemory.KernelMemory.Run | MimicOS/src/kernel/mm/mm.c:54-150 | the same with the heap's calls, for mappings that do not harm the heap: also the heap's invariant is kept, step by step and over the whole run; it stops only when no frame is left |
| KernelMemory.KernelMemory.RunThenFreeAll | MimicOS/src/kernel/mm/mm.c:74-150 | after any run from an empty heap, freeing every block leaves one free item, which is the whole heap iff new regions are linked or it grew once, and then spans it iff all requests served were multiples of 8 |
| Boot.MmInit | MimicOS/src/kernel/mm/mm.c:15-33 | the stack starts with exactly the unusable frames of memory reserved, and fails only without memory information or without a usable frame |
| Boot.BootAndRun | MimicOS/src/kernel/mm/physical.c:92-132 | from boot over any run, every owned frame is one the memory map offers, within memory, and not the kernel's |
| FatTable.PutThenRaw | MimicOS/src/kernel/fs/fat.c:12-61 | reading an entry after setting it yields the masked value, and every other entry is unchanged, for all three widths and both parities |
| FatTable.PutOnBytes | MimicOS/src/kernel/fs/fat.c:12-31 | the bytes of an entry after it is set, and no other byte changes |
| FatTable.PutByteExactly12 | MimicOS/src/kernel/fs/fat.c:14-16 | storing one byte makes a 12-bit entry read back as the value iff the bits it misses agree already |
| FatTable.PutByteExactlyWide | MimicOS/src/kernel/fs/fat.c:17-22 | storing one byte at the cluster's number makes a wide entry read back as the value iff it did before, or for cluster 0 iff its higher bytes agree already |
| FatTable.PutByteReaches | MimicOS/src/kernel/fs/fat.c:17-22 | of the wide entries it changes exactly that of cluster c / 2 or c / 4, unless the byte was the same |
| FatTable.PutByteExactly | MimicOS/src/kernel/fs/fat.c:12-25 | storing one byte sets the entry and leaves every other one alone iff a condition on the bytes and the value holds, for all widths, clusters and values |
| FatTable.PutByteFailsAt | MimicOS/src/kernel/fs/fat.c:12-22 | tables in which the entry reads back as set, but another entry changes |
| FatTable.PutByteFails | MimicOS/src/kernel/fs/fat.c:17-19 | so it leaves a free entry free when told to end a chain there |
| FatTable.FatTable.GetFATCluster | MimicOS/src/kernel/fs/fat.c:34-61 | 0 iff the cluster is free, -1 iff its entry is the end mark or 32 ones, otherwise the next cluster as a signed number; for each width, on the bytes stored |
| FatTable.FatTable.SetFATCluster | MimicOS/src/kernel/fs/fat.c:12-31 | changes exactly one entry, for each width on the bytes stored, and the committed table iff asked to |
| FatTable.FatTable.GetFreeCluster | MimicOS/src/kernel/fs/fat.c:63-71 | the lowest free cluster, -1 iff there is none |
| FatChains.Acyclic | MimicOS/src/kernel/fs/fat.c:453-459 | an end-marked chain visits no cluster twice, so following it ends |
| FatChains.LinkKeeps | MimicOS/src/kernel/fs/fat.c:468-480 | linking a free cluster into a chain keeps all chains end-marked and disjoint |
| FatChains.FreeListed | MimicOS/src/kernel/fs/fat.c:63-71 | lists exactly the free clusters, in ascending order |
| FatChains.TakeLowest | MimicOS/src/kernel/fs/fat.c:468-480 | linking the lowest free cluster leaves the rest of the free ones, in order |
| FatChains.ExtendUnmarkedHalves | MimicOS/src/kernel/fs/fat.c:468-480 | without marking, n searches add (n + 1) / 2 clusters, so all of them iff n is at most 1 |
| FatChains.ExtendUnmarkedAt | MimicOS/src/kernel/fs/fat.c:468-480 | asked for two clusters, it adds one |
| ClusterDevice.BlocksApart | MimicOS/src/kernel/fs/fat.c:109-116 | different clusters lie in different sectors |
| ClusterDevice.BehindTables | MimicOS/src/kernel/fs/fat.c:109-116 | no cluster from 1 on reaches into the sectors of the tables and the root directory behind the hidden ones |
| ClusterDevice.PlacedExactly | MimicOS/src/kernel/fs/fat.c:109-116 | clusters lie where the FAT specification has them iff the reserved sectors are one less than the hidden ones and two clusters |
| ClusterDevice.PlacedAt | MimicOS/src/kernel/fs/fat.c:109-116 | a floppy disk on which they do, and a disk on which they do not |
| ClusterDevice.DriftingExactly | MimicOS/src/kernel/fs/fat.c:135-140 | advancing the pointer by i sectors in round i puts every sector in its place iff a cluster has at most two |
| ClusterDevice.DriftingAt | MimicOS/src/kernel/fs/fat.c:135-140 | with three sectors the third lands behind the buffer |
| ClusterDevice.ClusterDevice.RwCluster | MimicOS/src/kernel/fs/fat.c:119-142 | reading yields the cluster's sectors in order, from the sector computed of the boot sector's fields on; writing changes those sectors and no other, and so no other cluster |
| FatVolume.ChunkAsWrittenExactly | MimicOS/src/kernel/fs/fat.c:490-501 | the size of the first chunk as written is right iff nothing is clipped, or the position is in the first cluster and at most a cluster is asked for |
| FatVolume.ChunkAsWrittenLater | MimicOS/src/kernel/fs/fat.c:490-501 | from a cluster's start it is always right |
| FatVolume.ChunkAsWrittenAt | MimicOS/src/kernel/fs/fat.c:490-501 | a first chunk that reaches past its cluster |
| FatVolume.FatFile.Seek | MimicOS/src/kernel/fs/fat.c:568-589 | the position stays in the file; inside it, seeking is plain arithmetic, and a move out of it leaves the position |
| FatVolume.FatVolume.FollowChain | MimicOS/src/kernel/fs/fat.c:448-459 | the i-th cluster of the chain, -1 iff the chain is shorter |
| FatVolume.FatVolume.Extend | MimicOS/src/kernel/fs/fat.c:461-480 | succeeds iff enough clusters are free before the call; adds the lowest ones, in order, behind the given one, keeps all chains well formed, changes no other entry, and commits the table; otherwise adds those that were free and commits nothing |
| FatVolume.FatVolume.Transfer | MimicOS/src/kernel/fs/fat.c:484-537 | moves exactly the bytes from the position on, up to the size or the end of the chain |
| FatVolume.FatVolume.Rw | MimicOS/src/kernel/fs/fat.c:440-544 | a read fills the buffer with exactly the file's bytes and changes nothing; a write replaces exactly its slice of the chain's bytes, extending the chain as needed, and fails iff the position is beyond the chain or fewer clusters are free before than it needs; the table is committed iff the chain was extended; the position advances by the count |
| FatVolume.FatVolume.FatRead | MimicOS/src/kernel/fs/fat.c:546-548 | the same, for reading |
| FatVolume.FatVolume.FatWrite | MimicOS/src/kernel/fs/fat.c:551-565 | the same, for writing; the file's size becomes the larger of the old one and the end of what was written |
| FatVolume.ReadRefines | MimicOS/src/kernel/fs/fat.c:440-544 | a read returns what reading a flat byte file would, for positions and sizes that do not wrap together, and fails iff the position is the end of a file that fills its clusters |
| FatVolume.ClippedExactly | MimicOS/src/kernel/fs/fat.c:461-482 | a read is cut off at the end of the file iff the position after it is a 32-bit number |
| FatVolume.ClippedAt | MimicOS/src/kernel/fs/fat.c:461-482 | a read that is not |
| FatVolume.WriteFailsExactly | MimicOS/src/kernel/fs/fat.c:440-480 | a write fails iff the position is the end of a file that fills its clusters, or it grows the file and fewer clusters are free before the call than it adds |
| FatVolume.AskedExactly | MimicOS/src/kernel/fs/fat.c:465 | the clusters asked for exceed those the write goes on to behind its first by none, one or two, depending on how its incomplete parts add up |
| FatVolume.FitsButFails | MimicOS/src/kernel/fs/fat.c:461-473 | a write that makes the file longer fails without free clusters, also where it fits into the file's |
| FatVolume.WriteRefines | MimicOS/src/kernel/fs/fat.c:440-565 | a write that does not fail writes everything, and does to the content what writing a flat byte file would |
| FatVolume.WriteKeepsOthers | MimicOS/src/kernel/fs/fat.c:440-544 | every other file keeps its chain and its bytes, also if the write fails |
| FatVolume.WriteThenRead | MimicOS/src/kernel/fs/fat.c:440-565 | what is written is read back |
| FatVolume.GrowingDropsExactly | MimicOS/src/kernel/fs/fat.c:467-480 | a growing write drops clusters of its file, which stay marked as used, iff it does not start in the last one |
| FatVolume.GrowingDropsAt | MimicOS/src/kernel/fs/fat.c:467-480 | a write after which a cluster of the file is marked as used and in no file |
| FatVolume.FailedWriteKeepsExactly | MimicOS/src/kernel/fs/fat.c:468-473 | a write that runs out of clusters keeps the content of its file iff no cluster was free, or the file ends with the cluster the write started in, or the free clusters reach as far and hold the same bytes |
| FatVolume.FailedWriteLosesAt | MimicOS/src/kernel/fs/fat.c:468-473 | a write after which the file has a byte of a cluster that was free |
| FatRuns.ReadStepRefines | MimicOS/src/kernel/fs/fat.c:546-548 | a read does to the open files, and returns, what it would for plain byte strings with positions |
| FatRuns.WriteStepRefines | MimicOS/src/kernel/fs/fat.c:551-565 | a write does to all open files what it would to plain ones, or fails, exactly when stated, and then does to the others; the chains' first clusters stay |
| FatRuns.CarriedOut | MimicOS/src/kernel/fs/fat.c:440-589 | requests that stay within 2 GB are carried out, and what that comes to for plain files |
| FatRuns.FileSystem.Perform | MimicOS/src/kernel/fs/fat.c:440-589 | one seek, read or write on one of several files, against plain files; false exactly where a write fails |
| FatRuns.FileSystem.Run | MimicOS/src/kernel/fs/fat.c:440-589 | any sequence of seeks, reads and writes on several files, failing writes included: of the files on which none failed, it reads and leaves what the same sequence on plain byte strings would |
| MmuEmulator.IndicesArePage | kernal/mem_management/mm/mmu.c:35-43 | (directory index, table index) determines the page number and conversely |
| MmuEmulator.SetEntry | kernal/mem_management/mm/mmu.c:66-95 | writing an entry of a slot's table maps that page and no other, and keeps tables distinct |
| MmuEmulator.AddressSpace.AllocatePage | kernal/mem_management/mm/mmu.c:56-64 | a page not in use, zeroed, which maps nothing |
| MmuEmulator.AddressSpace.Insert | kernal/mem_management/mm/mmu.c:79-95 | updates the partial map from pages to frames at exactly one page, or aborts without change when memory is exhausted |
| MmuEmulator.AddressSpace.Get | kernal/mem_management/mm/mmu.c:97-107 | the mapped frame's address, none iff the page is not mapped |
| MmuEmulator.AddressSpace.InsertAll | kernal/mem_management/mm/mmu.c:79-95 | a sequence of inserts is the sequence of updates of the map, and ends early only when memory is exhausted |
| MmuEmulator.LastInsertWins | kernal/mem_management/mm/mmu.c:79-107 | a page maps to the frame inserted for it last, and as before if none was |
| DiskBlocks.Disk.GetBlock | kernal/file_system/block.c:104-134 | the lowest free data block, marked and no other; -1 iff all data blocks are taken |
| DiskBlocks.GetBlocks | kernal/file_system/block.c:104-134 | over a run the blocks are distinct, were free data blocks in 2516..102399 and are the only ones taken; as many as asked for or as were free, whichever is less |
| DiskBlocks.SearchAsWrittenRepeats | kernal/file_system/block.c:104-134 | the search as written returns the same block on every call |
| DiskBlocks.SearchAsWrittenFreeExactly | kernal/file_system/block.c:112-130 | it does not mark its block, which is free iff one of the first nine blocks is |
| DiskBlocks.SearchAsWrittenTakenAt | kernal/file_system/block.c:112-130 | with only the first nine blocks taken, it returns a taken one |
| BitPermutation.Permute | thread_implemention/test.py:22-26 | masking, shifting and or-ing bit by bit on 16-bit words: a bit of the result is set iff some table entry sends a set bit there |
| BitPermutation.InverseUndoes | thread_implemention/test.py:22-26 | permuting by the inverse table undoes permuting |
| BitPermutation.PermuteBack | thread_implemention/test.py:22-26 | permuting a word and then by the inverse table gives back the word |
| BitPermutation.ComposePermutes | thread_implemention/test.py:22-26 | permuting twice is permuting by the composed table |
| BitPermutation.PermutePreservesCount | thread_implemention/test.py:22-26 | the number of set bits stays the same |

## Left out

- PhysicalPages.PhysicalInit: requires a page-aligned kernel start, the kernel and its bitmap to lie below 4 GB and in memory that the bitmap has bits for, and every available region's walk to end; the step from one map entry to the next by its size field is not modelled, the map is the list of entries.
- AddressSpaces.AddressSpaces.SetPageTableEntry: not where an entry set through the self-mapping slot would break the ownership of frames, which FrameOwnership.SelfMapWriteExactly states.
- FrameRuns.FrameClients.Map: the same requests are skipped, and those that set a directory entry to a table made for its slot but no longer in it.
- FrameRuns.FrameClients.GrowPage: growth in the last page of the last ordinary slot while that has no table is skipped: the page would not get mapped.
- AddressSpaces.AddressSpaces.FreePage: not for reserved frames and tables in use, where freeing breaks the ownership, by FrameOwnership.FreeKeepsExactly.
- AddressSpaces.AddressSpaces.AllocPage: where the source panics for lack of memory, methods return 0 or a false `ok` and a run stops.
- KernelHeap.KernelHeap.MoreCore: requires the heap to stay below the self-mapping slot.
- KernelHeap.KernelHeap.Kmalloc: the same, when it grows; headers are records at addresses, apart from the bytes of the heap's frames, so where a total wraps to 4 bytes it does not show how the two headers overlap.
- KernelHeap.KernelHeap.Kfree: freeing before the first allocation, which would read an unmapped page, is excluded.
- KernelMemory.KernelMemory.MapPage: entries that a page of the heap depends on, and the kernel's own directory entries, are skipped in runs with the heap; FrameRuns.FrameClients.Run has them.
- KernelMemory.KernelMemory.Allocate: requests that would break the heap are skipped in runs; what they do is KernelHeap.KernelHeap.Kmalloc.
- Boot.MmInit: stops where the page allocator finds no memory information, where the code goes on; the routine that makes the kernel's directory is not part of the repository, and is taken to be the one that makes any directory.
- FatVolume.FatVolume.Rw: a write whose position plus size is 2 GB or more, a read that goes on to 2 GB, and files without a start cluster; device errors and a failing allocation of the cluster buffer are not modelled.
- FatVolume.FatVolume.FatWrite: the directory entry on disk that holds the file's size is not modelled, so updating it always succeeds.
- FatTable.FatTable.SetFATCluster: the copy of the table on the device is a field, not sectors.
- FatRuns.FileSystem.Run: requests for files that do not exist, and those that Rw leaves out or whose position and size wrap together, are skipped; nothing is said of a file after a write to it failed, which may cut off or replace its end.
- ClusterDevice.ClusterDevice.RwCluster: the device is an array of sectors; the byte added to every seek offset is not modelled.
- BitPermutation.Permute: for words of 16 bits and tables of 16 entries in 1..16; shifting by a negative amount fails.
- Flag bits of page entries that are always written as zero, privilege checks, the quick-map window (taken as the identity), the TLB and control registers.
- Locks: each public call is atomic.
- DMA, interrupts, segmentation, page-fault handling: hardware effects without an algorithm.
- The virtual and device file systems: dispatch through tables.
- FAT path lookup, mounting, creating, deleting, renaming and listing: string handling, or unfinished in the source.
- The simulated disk's file and inode operations: unfinished; the inode search repeats the block search.
- The pthread and vulnerability demonstrations and the table printing in test.py.
