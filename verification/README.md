# A verified model of the gloworm kernel

gloworm is a small Unix-like kernel for the Motorola 68000 family. This project models the parts of it in which
state is spread over tables, lists and bitmaps, and proves what those parts are for: that page tables translate as
asked, that forked processes cannot see each other's writes, that the heap tiles the pages it owns, that a cached
disk answers like a disk, that a file in zones is a byte sequence, that the scheduler loses no process, and that
what the network layer takes apart it puts together again.

| file | subsystem |
|---|---|
| PageTable.dfy, Mmu.dfy | the MMU's translation trees, and map, unmap, copy and single-page lookups on them |
| Obstruction.dfy | when a fixed mapping is refused although nothing is mapped |
| Sparing.dfy | what a mapping leaves alone, on ranges that are mapped already too |
| CopyOnWrite.dfy | demand paging, fork's lazy copies and page reference counts |
| Paging.dfy | the two together: lazily copied memory in translation trees |
| KernelHeap.dfy | kmalloc and kmfree on the address-ordered list of free blocks |
| BufferCache.dfy, BlockAccess.dfy | the block cache between file systems and devices, and a file system's use of it |
| MinixBitmap.dfy, MinixZones.dfy | the bitmap of Minix zones, indirect zones and their lookup |
| MinixFile.dfy, MinixSpace.dfy | files in zones: read, write and seek, and how far a write gets |
| MinixTruncate.dfy, MinixRuns.dfy | truncation, and runs over open files |
| MinixVolume.dfy | the volume updated in place |
| Segments.dfy | the list of segments of an address space, munmap and sbrk |
| Munmap.dfy | munmap on the list and in the paging machine |
| PageAllocator.dfy | the page bitmap and reference counts |
| Queues.dfy, Scheduler.dfy | the intrusive queues and the process states kept in them |
| RingBuffer.dfy, Iovec.dfy | byte queues and scatter/gather cursors |
| Checksum.dfy, Slip.dfy, TcpReassembly.dfy, TcpHandshake.dfy | the network layer |
| Common.dfy, Flags.dfy | shared types, arithmetic and flag sequences |

Each module has the same three layers. Functions on values say what an operation does, branch by branch as the C
code does it. Lemmas prove what that means against an independent definition: a map of translations, memory that is
never shared, a plain disk, byte sequences, a queue. A class holds the fields the C code updates in place, and its
methods, with the loops of the C code, are proved to do what the functions say. A class that refines a value keeps
it in a ghost field (`h`, `c`, `fs`, `p`, `s`) that `Valid()` ties to the real fields.

Integers are unbounded except where the source's width is seen: 32-bit addresses, offsets and sequence numbers wrap
explicitly, page counts have 16 bits, zone numbers have 16 bits. `offset_t` is unsigned in the source, so a negative
seek is a large one.

## Where the code does not do what it is meant to

The model follows the code. Where a property fails, a lemma or the contract of a method says exactly when it
holds; where a lemma gives an input at which it fails, that lemma is named too.

- A page at or below PAGE_SIZE that is absent is taken for one at physical address 0: `CopyOnWrite.LowLoad`,
  `CopyOnWrite.LowStoreIff`. Unmapping from address 0 leaves the page tables alone, so that what was loaded there can
  still be read: `CopyOnWrite.UnmapShownIff`, `CopyOnWrite.ReadAfterUnmap`.
- Page reference counts wrap at 16 bits: `CopyOnWrite.CopyKeepsInvIff`, `PageAllocator.RefKeepsInvIff`.
- A fixed mapping is refused part of the way, although nothing is mapped there, if it steps from one slot of a table
  onto the next and that still holds a table: `Mmu.Mmu.MapRange`, `Obstruction.LeftoverObstructs`.
- A page at physical address 0 is taken for no page and is mapped over. A fixed mapping that begins inside a large one
  then steps from page to page between their starts, and may succeed although addresses of its range are mapped; every
  other mapping succeeds only if none is: `Mmu.Mmu.MapRange`, which also says that one no longer than that page succeeds
  if and only if it is as long, and `Sparing.InsideZeroBacked`.
- A large request wraps when it is rounded up to a block, and again when it is rounded up to pages, of which none are
  then asked for: `KernelHeap.BlockSizeIff`, `KernelHeap.RunSizeIff`, `KernelHeap.LargeRequest`. Freeing the only
  free block again is not noticed: `KernelHeap.KernelHeap.FreedAgain`.
- A changed block 0 is dropped when its buffer is recycled, and a failed read leaves a buffer that the next call
  hands out: `BufferCache.RecycleKeepsIff`, `BufferCache.GetKeepsInvIff`, `BufferCache.UnreadIsHandedOut`.
- Freeing a zone whose flag is not in the first block of the bitmap writes past the end of a buffer:
  `MinixBitmap.FreeBitIff`, `MinixTruncate.TruncateInsideIff`, `MinixTruncate.DistantStrays`. A data zone after a hole
  is not freed: `MinixTruncate.AllReturnedIff`.
- When there is no zone for a table, zone_lookup goes on in block 0, and a write may then go to a block that is not
  the file's: `MinixSpace.WriteEnding`, `MinixSpace.FullVolumeLost`.
- A truncation leaves positions behind that are past the end. A read from there returns what its zones have left
  instead of nothing: `MinixFile.ReadPastEnd`. A write from there leaves a hole unless the position is in the last zone
  or the next: `MinixFile.WriteRefines`. It fills the gap with whatever the zones hold: `MinixFile.HeldPaddedIff`.
- Segments and ranges that reach the top of the address space have end 0: `Segments.UnmapExactIff`,
  `Segments.InsertSortedIff`. A segment cut at its front keeps its file offset: `Segments.BackingKeptIff`.
  The starts of code, data and heap are moved if they are behind the range, and not if they are in one that reaches the
  top: `Segments.MarkerMovesIff`.
- A move of the break that a resize refuses has moved one segment already: `Segments.RefusedUnchangedIff`. One below
  the heap is not refused at all: `Segments.SbrkMovesIff`, `Segments.SbrkTooLow`.
- A page block is started by clearing as many bytes as its bitmap and counts have 16-bit words, which is half of
  them: `PageAllocator.InitialInvIff`. An allocation of no pages marks one: `PageAllocator.AllocKeepsInvIff`,
  `PageAllocator.AllocOfNone`.
- Ending a stopped process empties the run queue: `Scheduler.ExitGoodIff`. Moving a process behind one that is not
  queued leaves a queue in which its head does not lead to it: `Scheduler.MoveGoodIff`, `Queues.Queue.InsertAfter`.
- A ring buffer filled exactly to its end while its first byte is next to be taken reads as empty, and an empty one
  is read all the same: `RingBuffer.PutIterIff`, `RingBuffer.GetIterIff`, `RingBuffer.StaleRead`. A TCP socket reads
  it without looking, and the application is given bytes that were not sent: `TcpReassembly.EveryRunDeliversIff`,
  `TcpReassembly.StaleAtOnce`.
- Empty packets do not survive SLIP: `Slip.ChoppedRoundTrip`.
- A SYN queued twice can be accepted twice, and the second endpoint is then established with a number that is not
  its own: `TcpHandshake.SecondAccept`. That is so exactly if an acknowledgement is taken that is not one of the
  endpoint's own number: `TcpHandshake.EveryRunOwnNumbersIff`. It cannot be if only one endpoint was accepted:
  `TcpHandshake.SingleAccept`. `TcpHandshake.Agreement` has what holds in any case.

## Model

| member | source | states |
|---|---|---|
| Mmu.Mmu.CreateTable | src/kernel/arch/m68k/mm/mmu.c:135-151 | hanging an empty table in an unused slot changes no translation of any address space, and the walk to the address now passes through it |
| Mmu.Mmu.GetTable | src/kernel/arch/m68k/mm/mmu.c:102-160 | the slot found is on the walk of the address, at a level whose chunk the range covers unless any size will do; ENOENT only for an address whose walk ends above the leaves, EEXIST only for one with a page larger than the range; no translation changes, and without create nothing at all |
| Mmu.Mmu.MapStep | src/kernel/arch/m68k/mm/mmu.c:170-263 | one turn leaves every backed address of every space as it was, and extends the part of the range that translates as asked by the chunk it writes, moving nothing outside it and passing nothing that was backed; on a clean range it fails only with EEXIST, for a fixed map that steps onto the second slot of the first obstruction |
| Mmu.Mmu.WriteTurn | src/kernel/arch/m68k/mm/mmu.c:196-252 | the descriptor written, and where that leaves the run among what was mapped and among obstructions |
| Mmu.Mmu.NextSlot | src/kernel/arch/m68k/mm/mmu.c:189-194 | the table is looked up afresh exactly when it has run out or its chunks are too large, and the slot is then the one that ends the walk of the address; else it is the next one; either it holds an address or its chunk begins at the address |
| Mmu.Mmu.MapRange | src/kernel/arch/m68k/mm/mmu.c:170-263 | whatever the range and the outcome, a map leaves every address that translated to a page not at 0 with the same translation, and an unmap gives none a new one. Unless it is fixed and begins inside a page at 0, a map that succeeds found no such address in its range and makes all of it translate as asked; one that fails returns EEXIST and has done so up to some address. On a clean range a map or unmap never panics and, unless it is a fixed map, succeeds; a fixed map succeeds if and only if the tree was not obstructed, and otherwise has granted exactly what is before the second slot of the first obstruction. Every other address, and every other address space, translates as before; and small pages get their leaf tables, with the cache bit asked for |
| Mmu.Mmu.MapLoop | src/kernel/arch/m68k/mm/mmu.c:187-260 | the loop, with how each outcome leaves the trees |
| Mmu.Mmu.WriteChunk | src/kernel/arch/m68k/mm/mmu.c:250-259 | the store of one descriptor: what is backed is spared, the chunk translates as asked, and the next slot of the table begins where it ends |
| Sparing.StoreSpares | src/kernel/arch/m68k/mm/mmu.c:213-214 | a store in a slot that holds no address changes no translation to a page not at 0, and one of no page gives none |
| Sparing.SparedStore | src/kernel/arch/m68k/mm/mmu.c:213-251 | so it is for every root, over any number of stores |
| Sparing.EvenSlot | src/kernel/arch/m68k/mm/mmu.c:102-160 | the slot a map comes to holds an address or begins where it was looked up, unless that is inside a page at 0 |
| Sparing.UnbackedOn | src/kernel/arch/m68k/mm/mmu.c:213-214 | no address of a chunk is backed if its slot holds no address |
| Sparing.EvenOn | src/kernel/arch/m68k/mm/mmu.c:250-259 | after a chunk that was written, no page begins before the address that follows it |
| Sparing.OnwardStore | src/kernel/arch/m68k/mm/mmu.c:196-259 | a turn of the loop passes nothing that was backed and comes to the start of a page |
| Sparing.InsideZeroBacked | src/kernel/arch/m68k/mm/mmu.c:189-214 | in every configuration with large pages, a tree and a fixed map of one page's size from inside the page at 0, in whose range an address is backed |
| Obstruction.TurnMeets | src/kernel/arch/m68k/mm/mmu.c:187-260 | a chunk that is mapped does not reach past an obstruction ahead, and if it begins there is its first slot |
| Obstruction.TurnTracks | src/kernel/arch/m68k/mm/mmu.c:187-260 | so no obstruction is passed, and one whose first slot was mapped is stepped onto next |
| Obstruction.TurnStops | src/kernel/arch/m68k/mm/mmu.c:211-215 | a table that is stepped onto was there before the run, behind a slot that was empty then, and no obstruction comes before it |
| Obstruction.GraftLooked | src/kernel/arch/m68k/mm/mmu.c:135-151 | a lookup hangs new tables only on its way, and only where it could not map the whole chunk |
| Obstruction.LeftoverObstructs | src/kernel/arch/m68k/mm/mmu.c:187-260 | an empty table left in the second slot of the root obstructs a fixed map of the first two chunks, although nothing at all is mapped |
| PageTable.GrantedEdges | src/kernel/arch/m68k/mm/mmu.c:170-263 | the pages that serve a mapped range do not stick out of it |
| PageTable.UnmapUndoesMap | src/kernel/arch/m68k/mm/mmu.c:170-263 | unmapping what was mapped into unmapped space is always clean, and brings back the translation of every address |
| PageTable.Aliased | src/kernel/arch/m68k/mm/mmu.c:102-160 | addresses a whole tree apart translate alike |
| PageTable.StoreSetsChunk | src/kernel/arch/m68k/mm/mmu.c:250-251 | a descriptor stored in the slot of an address changes the translation of exactly the addresses of that chunk |
| PageTable.GraftSameViews | src/kernel/arch/m68k/mm/mmu.c:135-151 | a new empty table changes no translation of any address space |
| PageTable.RootViews | src/kernel/arch/m68k/mm/mmu.c:56-64 | nothing translates from a new root, and the trees stay in order |
| PageTable.RootOthers | src/kernel/arch/m68k/mm/mmu.c:56-64 | a new root changes no translation of any address space |
| PageTable.SameViewsLeaves | src/kernel/arch/m68k/mm/mmu.c:102-160 | a lookup takes no leaf table away |
| PageTable.LeafTurn | src/kernel/arch/m68k/mm/mmu.c:187-260 | a turn that comes to a leaf table adds that of one page and takes none away |
| Mmu.Mmu.AllocRoot | src/kernel/arch/m68k/mm/mmu.c:56-64 | a root nothing else uses, from which nothing translates; every other translation is as it was |
| PageTable.CopyEntryCopies | src/kernel/arch/m68k/mm/mmu.c:313-331 | copying one entry extends the copied range by one page: the same page frame on both sides, protected on both for copy-on-write, nothing else changed |
| Mmu.Mmu.NextTables | src/kernel/arch/m68k/mm/mmu.c:294-311 | the tables looked up when the current ones run out are those of the next page, in both trees |
| Mmu.Mmu.CopyStep | src/kernel/arch/m68k/mm/mmu.c:292-330 | one turn shares one page, and leaves both sides a leaf table for it |
| Mmu.Mmu.CopyRange | src/kernel/arch/m68k/mm/mmu.c:274-335 | the whole range translates alike in both address spaces, write protected in both if copy-on-write, and nothing else has changed |
| Mmu.Mmu.GetPage | src/kernel/arch/m68k/mm/mmu.c:337-356 | finds page and size of a translation, denied exactly if it is at physical 0 and the address beyond its size; an absent page is reported as present exactly if it is at or below PAGE_SIZE and the walk ends in a leaf table |
| Mmu.Mmu.SetPage | src/kernel/arch/m68k/mm/mmu.c:358-386 | exactly the addresses of the page translate to the new one, with the cache bit of the page or of the empty leaf descriptor that was there; EFAULT changes no translation and does not occur for a page of the size already there |
| Mmu.Mmu.StorePage | src/kernel/arch/m68k/mm/mmu.c:376-384 | the descriptor stored in the slot found |
| PageTable.FoundBit | src/kernel/arch/m68k/mm/mmu.c:363-378 | a lookup that ends in a leaf table finds the status bits that were there |
| PageTable.MarkTurn | src/kernel/arch/m68k/mm/mmu.c:196-251 | the cache bit that a mapping without pages was asked for stands in its leaf descriptors |
| Mmu.Mmu.WalkTables | src/kernel/arch/m68k/mm/mmu.c:102-160 | the walk of the hardware finds what the tree translates the address to |
| Paging.CopyShares | src/kernel/mm/map.c:558-596 | after a fork exactly the descriptors of the range are shared, protected on both sides if the segment can be written |
| Paging.UnmapDrops | src/kernel/arch/m68k/mm/mmu.c:238-251 | after an unmap exactly the descriptors of the range are gone |
| Paging.FaultInstalls | src/kernel/mm/map.c:126-192 | a resolved fault changes one descriptor, to name the page frame handed out; any other changes nothing |
| Paging.InstallRealises | src/kernel/arch/m68k/mm/mmu.c:358-386 | setting a page in the tree realises that change |
| Paging.CopyRealises | src/kernel/arch/m68k/mm/mmu.c:274-335 | copying a range of the tree realises the fork |
| Paging.DropRealises | src/kernel/arch/m68k/mm/mmu.c:170-263 | mapping a range of the tree for later, and unmapping it, realise the loss of its descriptors |
| Paging.RangeClean | src/kernel/arch/m68k/mm/mmu.c:170-263 | a range of whole pages can always be unmapped, and reserved if none of it is loaded, without cutting a page |
| Paging.AllSmall | src/kernel/arch/m68k/mm/mmu.c:274-335 | such trees serve every range by pages of PAGE_SIZE, which a copy needs |
| Paging.HardwareShows | src/kernel/arch/m68k/mm/mmu.c:102-160 | where the trees realise a machine, the hardware finds in them the very bytes of memory that is never shared, faults exactly on pages that are not loaded, and lets a process write only to a page frame that is its own |
| Paging.PagedSpaces.NewSpace | src/kernel/arch/m68k/mm/mmu.c:56-64 | a new address space, in which nothing is loaded |
| Paging.PagedSpaces.MapSegment | src/kernel/mm/map.c:386-469 | the pages of a segment are mapped, none loaded, and there is a leaf table for each |
| Paging.PagedSpaces.CopySegment | src/kernel/mm/map.c:558-596 | copies every page of the segment, no other, counts the references, and the trees realise the machine afterwards |
| Paging.PagedSpaces.UnmapRange | src/kernel/mm/map.c:537-541 | releases every page of the range, no other, and none of a range from address 0 on; the trees realise the machine afterwards |
| Paging.PagedSpaces.SetTranslation | src/kernel/arch/m68k/mm/mmu.c:358-386 | a page of the size that is there is always set |
| Paging.PagedSpaces.InstallPage | src/kernel/mm/map.c:138-181 | a page set for a fault is set in the machine, and in no other tree |
| Paging.PagedSpaces.PageFree | src/kernel/mm/pages.c:198-214 | one reference fewer, and the page is gone with the last |
| Paging.PagedSpaces.PageMakeRef | src/kernel/mm/pages.c:217-226 | one reference more, modulo 16 bits |
| Paging.PagedSpaces.GetPage | src/kernel/arch/m68k/mm/mmu.c:337-356 | what mmu_table_get_page finds for a page of a segment is the page frame of its descriptor; low pages are never absent |
| Paging.PagedSpaces.ConvertCopy | src/kernel/mm/map.c:126-146 | a copy of its own for a page, and one reference fewer to the old one |
| Paging.PagedSpaces.ResolveFault | src/kernel/mm/map.c:149-192 | the fault handler of the refinement, deciding by what mmu_table_get_page finds in the tree: absent pages are zeroed, protected ones copied even from their last owner, other accesses refused, and nothing changes when no page frame is left |
| Paging.PagedSpaces.LoadByte | src/kernel/mm/map.c:149-192 | a load through the tree, tried again after a fault, is that of the machine |
| Paging.PagedSpaces.StoreByte | src/kernel/mm/map.c:149-192 | so is a store |
| Paging.PagedSpaces.Perform | src/kernel/mm/map.c:149-192 | so is every step, and the trees realise the machine after it |
| Paging.PagedSpaces.Execute | src/kernel/mm/map.c:149-192 | over every run the trees that the code builds realise the machine, all replies are those of memory that is never shared, and through the trees the hardware shows that memory |
| Paging.ExecuteFromStart | src/kernel/mm/map.c:149-192 | the same from power-on |
| CopyOnWrite.StepRefines | src/kernel/mm/map.c:126-192 | every step of map, load, store, fork and unmap that is safe answers as memory that is never shared does, and keeps every count equal to the number of descriptors that name the page |
| CopyOnWrite.RunRefines | src/kernel/mm/map.c:126-192 | over every run all replies are those of memory that is never shared, so no process sees another's writes |
| CopyOnWrite.EveryRunRefines | src/kernel/mm/map.c:126-192 | the same from power-on |
| CopyOnWrite.CopyKeepsInvIff | src/kernel/mm/pages.c:217-226 | a fork keeps the counts right if and only if none of them is at its 16-bit limit |
| CopyOnWrite.LowLoad | src/kernel/arch/m68k/mm/mmu.c:337-356 | a load from an absent page at or below PAGE_SIZE is never answered as it should be |
| CopyOnWrite.LowStore | src/kernel/mm/map.c:126-146 | a store there starts from a copy of physical address 0 |
| CopyOnWrite.LowStoreIff | src/kernel/mm/map.c:126-146 | such a store goes right if and only if the byte stored hides every difference between physical address 0 and a page of zeros |
| CopyOnWrite.CopyPagesRunIff | src/kernel/mm/map.c:558-596 | fork's copy of a segment is a run of the machine, so that the refinement covers it, if and only if 16 bits can count what each page frame is shared |
| CopyOnWrite.MapPagesRun | src/kernel/mm/map.c:386-469 | so is the mapping of a segment in a gap |
| CopyOnWrite.UnmapShownIff | src/kernel/mm/map.c:474-556 | unmapping a piece of a segment goes right if and only if it does not begin at address 0, or nothing in it is loaded |
| CopyOnWrite.ReadAfterUnmap | src/kernel/mm/map.c:537-541 | a page loaded in a piece from address 0 on is still read after it was unmapped |
| CopyOnWrite.UnloadedUnmaps | src/kernel/mm/map.c:537-541 | with nothing loaded there is nothing to release |
| CopyOnWrite.UnmapPagesRefines | src/kernel/arch/m68k/mm/mmu.c:238-251 | releasing a range of pages is forgetting it, and keeps every count right |
| KernelHeap.BlockSizeIff | src/kernel/mm/kmalloc.c:84-86 | a block has room for its request and header if and only if rounding up does not wrap; it is then the next multiple of a word |
| KernelHeap.HeaderFitsIff | src/kernel/mm/kmalloc.c:84-86 | it has room for its own header if and only if adding that does not wrap |
| KernelHeap.RunSizeIff | src/kernel/mm/kmalloc.c:116-117 | the pages asked for have room for the block if and only if rounding up to pages does not wrap, and are then as few as can be; if it does, none are asked for |
| KernelHeap.LargeRequest | src/kernel/mm/kmalloc.c:116-117 | a request for which it does |
| KernelHeap.InsertOrdered | src/kernel/mm/kmalloc.c:142-199 | freeing keeps the list ordered by address with no two blocks touching |
| KernelHeap.InsertTotal | src/kernel/mm/kmalloc.c:142-199 | merging on both sides conserves bytes |
| KernelHeap.InsertHolds | src/kernel/mm/kmalloc.c:142-199 | the list then holds exactly the bytes it held and those of the block, for any list and block |
| KernelHeap.InsertApart | src/kernel/mm/kmalloc.c:142-199 | and stays disjoint from every live block |
| KernelHeap.ReleaseInv | src/kernel/mm/kmalloc.c:142-199 | kmfree keeps free and live blocks a tiling of the pages, and the counters their sums; exactly the block freed is no longer live, and exactly its bytes join the free list |
| KernelHeap.TakeBlockInv | src/kernel/mm/kmalloc.c:88-112 | so does allocating from a free block; the block is the front of it, by less than a header and 8 bytes larger than needed, and exactly its bytes leave the free list |
| KernelHeap.TakePagesInv | src/kernel/mm/kmalloc.c:114-139 | so does allocating from fresh pages; the block is the front of them, by at most a header and 8 bytes larger than needed, and exactly the bytes behind it join the free list |
| KernelHeap.AcquireInv | src/kernel/mm/kmalloc.c:78-140 | kmalloc keeps the tiling and returns a live block with room for request and header and at most a header and 8 bytes more, from the first free block that is large enough, or from new pages if there is none; it panics, and changes nothing, if and only if there are neither; large requests included if a free block serves them |
| KernelHeap.RunInv | src/kernel/mm/kmalloc.c:78-199 | every run of kmalloc and kmfree keeps it |
| KernelHeap.EveryRunInv | src/kernel/mm/kmalloc.c:78-199 | starting from an empty heap |
| KernelHeap.KernelHeap.constructor | src/kernel/mm/kmalloc.c:57-64 | the heap starts empty |
| KernelHeap.KernelHeap.Walk | src/kernel/mm/kmalloc.c:156-189 | the walk over the links stops at the block to merge with or insert before, and panics if and only if another block of the list links to the block |
| KernelHeap.KernelHeap.MergeBlock | src/kernel/mm/kmalloc.c:161-171 | the headers after merging into a block and with its successor |
| KernelHeap.KernelHeap.LinkBlock | src/kernel/mm/kmalloc.c:173-198 | the headers and head after linking a block in |
| KernelHeap.KernelHeap.Kmfree | src/kernel/mm/kmalloc.c:142-199 | the linked headers realise the release of a live block, without a panic |
| KernelHeap.KernelHeap.FreedAgain | src/kernel/mm/kmalloc.c:142-159 | freeing a free block again is noticed if and only if it is not the only free block |
| KernelHeap.KernelHeap.Search | src/kernel/mm/kmalloc.c:88-89 | finds the first block that is large enough |
| KernelHeap.KernelHeap.TakeFrom | src/kernel/mm/kmalloc.c:89-111 | the linked headers realise the split or the removal |
| KernelHeap.KernelHeap.AddPages | src/kernel/mm/kmalloc.c:116-129 | fresh pages become one live block |
| KernelHeap.KernelHeap.CutLast | src/kernel/mm/kmalloc.c:130-134 | which is cut in two |
| KernelHeap.KernelHeap.TakeFresh | src/kernel/mm/kmalloc.c:114-139 | and whose rest goes through kmfree, as in `TakePagesInv` |
| KernelHeap.KernelHeap.Kmalloc | src/kernel/mm/kmalloc.c:78-140 | the linked headers realise every allocation of `AcquireInv`; the address returned is that of the block |
| BufferCache.GetRefines | src/kernel/fs/bufcache.c:54-70 | get_block finds the block as last written, or panics when it is not cached and all buffers are in use |
| BufferCache.SyncInv | src/kernel/fs/bufcache.c:45-52 | sync changes nothing but dirty marks and the device |
| BufferCache.SyncAgrees | src/kernel/fs/bufcache.c:45-52 | after a sync the device holds every block as last written and announced |
| BufferCache.StepRefines | src/kernel/fs/bufcache.c:45-205 | the cache and a plain disk answer every step alike |
| BufferCache.RunRefines | src/kernel/fs/bufcache.c:45-205 | and every run |
| BufferCache.EveryRunRefines | src/kernel/fs/bufcache.c:45-205 | from an empty cache no client can tell it from the bare disk |
| BufferCache.NeverRebound | src/kernel/fs/bufcache.c:121-146 | a buffer that is held is never given to another block |
| BufferCache.RecycleKeepsIff | src/kernel/fs/bufcache.c:121-146 | what a recycled buffer held is on the device if and only if it was not a changed block 0 |
| BufferCache.GetKeepsInvIff | src/kernel/fs/bufcache.c:94-119 | asking for a block keeps the cache in order if and only if the device can read it or the call panics |
| BufferCache.UnreadLeft | src/kernel/fs/bufcache.c:94-119 | a failed read leaves its number on a buffer that was not read |
| BufferCache.UnreadIsHandedOut | src/kernel/fs/bufcache.c:54-70 | which the next get_block of that number hands out |
| BlockAccess.NeverFull | src/kernel/fs/bufcache.c:54-70 | with no block held, get_block never panics |
| BlockAccess.AccessRefines | src/kernel/fs/bufcache.c:54-87 | a block read or written through the cache, and released, is that of the plain map from numbers to blocks on which the Minix volume is built |
| BlockAccess.CacheIsBlocks | src/kernel/fs/bufcache.c:45-205 | so is every run of accesses, and nothing is held at the end |
| BufferCache.Buf.constructor | src/kernel/fs/bufcache.c:148-167 | a new buffer holds nothing |
| BufferCache.BlockCache.constructor | src/kernel/fs/bufcache.c:22-29 | a new cache has no buffers |
| BufferCache.BlockCache.MoveToFront | src/kernel/fs/bufcache.c:54-70 | the buffer moves to the front, the others keep their order |
| BufferCache.BlockCache.WriteEntry | src/kernel/fs/bufcache.c:183-205 | a dirty buffer is on the device and clean afterwards |
| BufferCache.BlockCache.CreateEntry | src/kernel/fs/bufcache.c:148-167 | a fresh buffer in front of the others |
| BufferCache.BlockCache.Recycle | src/kernel/fs/bufcache.c:121-146 | writes back unless it holds block 0, and moves to the front |
| BufferCache.BlockCache.FindFreeEntry | src/kernel/fs/bufcache.c:121-146 | a new buffer, or the least recently used one not held, or none |
| BufferCache.BlockCache.LoadBlock | src/kernel/fs/bufcache.c:94-119 | objects realise the load, failed reads included |
| BufferCache.BlockCache.GetBlock | src/kernel/fs/bufcache.c:54-70 | objects realise the lookup, with the buffer handed out in front |
| BufferCache.BlockCache.ReleaseBlock | src/kernel/fs/bufcache.c:72-87 | one holder fewer, never below none, dirty added |
| BufferCache.BlockCache.Sync | src/kernel/fs/bufcache.c:45-52 | writes every dirty buffer back, in place |
| MinixBitmap.FlatUpdate | src/kernel/fs/minix/bitmaps.h:70-112 | one bit changed in one byte of one block changes exactly one flag of the bitmap |
| MinixBitmap.BitSetIs | src/kernel/fs/minix/bitmaps.h:85-88 | a flag of a byte is its bit of that weight |
| MinixBitmap.FlagIs | src/kernel/fs/minix/bitmaps.h:76-112 | flag number n of the bitmap is bit n % 8 of byte n / 8, counted through the blocks |
| MinixBitmap.AllocTakesOne | src/kernel/fs/minix/bitmaps.h:70-97 | an allocation takes one clear flag, and fails only if there is none |
| MinixBitmap.FreeBitIff | src/kernel/fs/minix/bitmaps.h:99-112 | the flag given, and nothing else, is cleared if it is in the first block; otherwise, and only then, the write is past the end of the buffer |
| MinixBitmap.FreeUndoesAllocIff | src/kernel/fs/minix/bitmaps.h:70-112 | freeing what was allocated gives back the bitmap if and only if it is in the first block |
| MinixBitmap.ByteFlags | src/kernel/fs/minix/bitmaps.h:85-86 | the search for a flag through a byte |
| MinixBitmap.FullByte | src/kernel/fs/minix/bitmaps.h:83-91 | a full byte can be skipped |
| MinixBitmap.FirstBlock | src/kernel/fs/minix/bitmaps.h:99-112 | a byte index below the size of a block is that of a flag in the first block |
| MinixBitmap.Bitmap.BitAlloc | src/kernel/fs/minix/bitmaps.h:70-97 | three nested loops over blocks, bytes and bits take the first clear flag |
| MinixBitmap.Bitmap.ClearIn | src/kernel/fs/minix/bitmaps.h:85-86 | the lowest clear bit of a byte |
| MinixBitmap.Bitmap.TakeFlag | src/kernel/fs/minix/bitmaps.h:87-89 | sets that flag and no other |
| MinixBitmap.Bitmap.DropFlag | src/kernel/fs/minix/bitmaps.h:99-112 | clears that flag and no other |
| MinixBitmap.Bitmap.BitFree | src/kernel/fs/minix/bitmaps.h:99-112 | realises the release, and says exactly when it writes past its buffer |
| MinixZones.PlaceBijective | src/kernel/fs/minix/zones.h:51-75 | zone numbers and places in the inode and its tables correspond one to one |
| MinixZones.TableGetIs | src/kernel/fs/minix/zones.h:96-119 | zone numbers in a table are 16 bits, the low byte first |
| MinixZones.AllocZoneFresh | src/kernel/fs/minix/zones.h:21-40 | a new zone is zeroed, and named by no place of any file |
| MinixZones.FilledZones | src/kernel/fs/minix/zones.h:77-122 | filling a place changes the zone number there and nowhere else |
| MinixZones.FilledGood | src/kernel/fs/minix/zones.h:77-122 | and no zone is ever in two places |
| MinixZones.EnsureEffect | src/kernel/fs/minix/zones.h:103-114 | one tier finds its zone or takes one free zone, leaving every other place alone |
| MinixZones.DescendEffect | src/kernel/fs/minix/zones.h:77-122 | zone_lookup with create finds a zone if and only if there are as many free zones as places missing on the way, and uses exactly that many; if a table is missing for want of zones, what it returns is exactly what block 0, read as that table, leads to |
| MinixZones.StraySame | src/kernel/fs/minix/zones.h:89-115 | what block 0 leads to is not changed by the lookup that comes to it |
| MinixFile.LookupKeeps | src/kernel/fs/minix/zones.h:77-122 | looking a zone up, creating it or not, changes no byte of any file |
| MinixFile.WriteEffect | src/kernel/fs/minix/minix.c:368-396 | unless a lookup is lost in block 0, the loop of minix_write writes a prefix of the data, all of it unless zones run out, and no other byte of any file |
| MinixFile.RoundMapsFirst | src/kernel/fs/minix/minix.c:372-396 | a round goes well if and only if there is a zone where it begins, or there are free zones enough for one |
| MinixSpace.MissingOnPath | src/kernel/fs/minix/zones.h:77-122 | the places missing for a zone are those on the way to it that are empty |
| MinixSpace.FoundFills | src/kernel/fs/minix/zones.h:77-122 | a lookup that finds its zone has filled these and no others |
| MinixSpace.RoundUses | src/kernel/fs/minix/minix.c:372-396 | a round uses the zones missing for its own, and leaves exactly those missing for the rest |
| MinixSpace.WriteCompleteIff | src/kernel/fs/minix/minix.c:368-396 | a write is complete if and only if it ends within the zones a file can have and there are as many free zones as the tables and zones missing, and then uses exactly these |
| MinixSpace.RoundShort | src/kernel/fs/minix/minix.c:372-396 | the first zone for which there is no room stays the same from round to round |
| MinixSpace.WriteAccepts | src/kernel/fs/minix/minix.c:368-396 | a write accepts exactly the bytes before the first zone for whose tables and data the free zones do not suffice |
| MinixSpace.RoundLostIff | src/kernel/fs/minix/minix.c:372-396 | a round is lost if and only if a table it needs is missing for want of zones and block 0, read as that table, leads to a block that can be read; without such a number it ends with ENOSPC, with one that cannot be read with EIO |
| MinixSpace.TablesCovered | src/kernel/fs/minix/zones.h:89-115 | with zones for all tables no round is lost |
| MinixSpace.WriteEnding | src/kernel/fs/minix/minix.c:368-396 | how every write ends: it is complete if and only if there is room for all of it; else it ends at the first zone for which there is no room, with ENOSPC if the file is at its largest, if only that zone is lacking, or if block 0, read as the missing table, holds no number, with EIO if it holds one that is no block, and otherwise comes to a block that is not the file's |
| MinixSpace.NoBlockZero | src/kernel/fs/minix/zones.h:96-100 | if block 0 cannot be read, a write that is not complete ends with ENOSPC |
| MinixSpace.FullVolumeLost | src/kernel/fs/minix/zones.h:96-105 | on a full volume a write to the first zone that needs a table is lost if and only if the first two bytes of block 0, low byte first, name a block |
| MinixFile.ReadStops | src/kernel/fs/minix/minix.c:325-348 | the loop of minix_read returns the bytes of the zones up to the first hole |
| MinixFile.WriteRefines | src/kernel/fs/minix/minix.c:354-410 | from any position, and unless it is lost, a write splices the bytes accepted into the bytes its file has up to there, and leaves every other file alone; the files stay in order if and only if no zone is left out before the position |
| MinixFile.WriteWrote | src/kernel/fs/minix/minix.c:354-410 | exactly the bytes accepted are written, and there is a zone at the position afterwards if and only if there was one or there were free zones enough for one |
| MinixFile.WroteContent | src/kernel/fs/minix/minix.c:354-410 | the bytes of every file after that, on any volume |
| MinixFile.HeldPaddedIff | src/kernel/fs/minix/minix.c:398-402 | a gap before the position is filled with zeros if and only if the zones hold nothing there; up to the end of the file there is none |
| MinixFile.WroteTails | src/kernel/fs/minix/minix.c:354-410 | zones that hold nothing past the end of their files stay so |
| MinixFile.WroteOkIff | src/kernel/fs/minix/minix.c:398-402 | the file is in order afterwards if and only if the position was in its zones, or in the next one if there is one to be had |
| MinixFile.InsideReaches | src/kernel/fs/minix/minix.c:398-402 | as every position up to the end of the file is |
| MinixFile.ReadRefines | src/kernel/fs/minix/minix.c:308-352 | a read returns the bytes there are from the position on, up to the number asked for |
| MinixFile.ReadPastEnd | src/kernel/fs/minix/minix.c:321-348 | from past the end a read returns what the zones of the file have left there, since the bytes left wrap around |
| MinixFile.PositionBound | src/kernel/fs/minix/minix.c:308-410 | neither reading nor writing takes a position past the longest file there can be |
| MinixFile.SizeBound | src/kernel/fs/minix/zones.h:51-75 | no file is longer than its zones, so offsets within it never wrap |
| MinixFile.WriteThenRead | src/kernel/fs/minix/minix.c:308-410 | what was accepted is read back, unless the write was lost or left a hole |
| MinixTruncate.FreedPlacesHas | src/kernel/fs/minix/zones.h:124-166 | exactly the tables, and the data zones before the first hole, are freed |
| MinixTruncate.FreedPlacesOnce | src/kernel/fs/minix/zones.h:124-166 | once each |
| MinixTruncate.TruncateInsideIff | src/kernel/fs/minix/zones.h:124-166 | a truncation writes only where it should if and only if the flag of every zone it frees is in the first block of the bitmap |
| MinixTruncate.TruncateFlags | src/kernel/fs/minix/zones.h:124-166 | the flag of a zone is cleared if and only if the zone is freed |
| MinixTruncate.TruncateKeepsFlags | src/kernel/fs/minix/zones.h:124-166 | no flag changes that is not of a zone of the file |
| MinixTruncate.TruncateGood | src/kernel/fs/minix/minix.c:269-278 | the volume stays in order |
| MinixTruncate.AllReturnedIff | src/kernel/fs/minix/zones.h:124-166 | every zone of the file returns to the bitmap, and nothing else is written, if and only if none comes after a hole and all their flags are in the first block |
| MinixTruncate.DistantStrays | src/kernel/fs/minix/bitmaps.h:99-112 | a volume in order whose file cannot be truncated without a write past the buffer |
| MinixTruncate.HoleFreeIff | src/kernel/fs/minix/zones.h:134-137 | all zones of a file are freed if and only if it has no hole |
| MinixTruncate.TruncateConserves | src/kernel/fs/minix/zones.h:124-166 | as many zones become free as were freed |
| MinixTruncate.TruncateRefines | src/kernel/fs/minix/minix.c:269-278 | the file is empty and every other as it was |
| MinixRuns.StepRefines | src/kernel/fs/minix/minix.c:269-439 | a sound step on any open file, from any position, is one on byte sequences |
| MinixRuns.WriteSoundIff | src/kernel/fs/minix/minix.c:354-410 | a write is sound if and only if it is not lost, leaves the files in order, and fills no gap with anything but zeros |
| MinixRuns.TailsSound | src/kernel/fs/minix/minix.c:308-410 | where zones hold nothing past the end, every read is sound, and a write if it is not lost and leaves no hole |
| MinixRuns.StepTails | src/kernel/fs/minix/minix.c:269-439 | which stays so |
| MinixRuns.StepCounted | src/kernel/fs/minix/minix.c:308-410 | the bytes a write accepts and a read past the end returns are as many as the volume before the step says |
| MinixRuns.RunRefines | src/kernel/fs/minix/minix.c:269-439 | so is every run of seeks, reads, writes and truncations over any open files, as long as writes are not lost and leave no hole and truncations stay in the bitmap; how many bytes each write accepts is told by the volume before it |
| MinixVolume.MinixVolume.NewZone | src/kernel/fs/minix/zones.h:21-40 | realises the allocation |
| MinixVolume.MinixVolume.FreeZone | src/kernel/fs/minix/zones.h:42-48 | realises the release, and says exactly when it writes past its buffer |
| MinixVolume.MinixVolume.CalculateTier | src/kernel/fs/minix/zones.h:51-75 | the indexes computed lead to the place of the zone number, and -1 is returned only for numbers that have none |
| MinixVolume.MinixVolume.LookupTier | src/kernel/fs/minix/zones.h:89-115 | realises one tier, with and without create |
| MinixVolume.MinixVolume.FillPlace | src/kernel/fs/minix/zones.h:103-108 | fills an empty place in the inode or in a table |
| MinixVolume.MinixVolume.StrayTier | src/kernel/fs/minix/zones.h:93-115 | one tier in a block that is no table of the file: with no zone left it writes nothing |
| MinixVolume.MinixVolume.CreateTier | src/kernel/fs/minix/zones.h:89-115 | one tier on the way to its place or off it |
| MinixVolume.MinixVolume.CreateZone | src/kernel/fs/minix/zones.h:77-122 | realises the lookup with create, through block 0 as well |
| MinixVolume.MinixVolume.FindZone | src/kernel/fs/minix/zones.h:77-122 | without create nothing changes, and a zone missing, or behind a missing table, is reported |
| MinixVolume.MinixVolume.WriteSomeBytes | src/kernel/fs/minix/minix.c:373-392 | realises one round |
| MinixVolume.MinixVolume.WriteBytes | src/kernel/fs/minix/minix.c:368-396 | realises the loop, to its end or to the first write to a block of others |
| MinixVolume.MinixVolume.WriteFile | src/kernel/fs/minix/minix.c:354-410 | realises the write and moves the position by what was written |
| MinixVolume.MinixVolume.ReadBytes | src/kernel/fs/minix/minix.c:325-348 | realises the loop, changing nothing |
| MinixVolume.MinixVolume.ReadFile | src/kernel/fs/minix/minix.c:308-352 | realises the read and moves the position by what was read |
| MinixVolume.MinixVolume.FreeData | src/kernel/fs/minix/zones.h:134-137 | frees the data zones before the first hole, stopping there, and says exactly when it writes past its buffer |
| MinixVolume.MinixVolume.FreeTable | src/kernel/fs/minix/zones.h:144-148 | one table of the double indirect zone |
| MinixVolume.MinixVolume.FreeTables | src/kernel/fs/minix/zones.h:139-151 | all of them |
| MinixVolume.MinixVolume.FreeSlots | src/kernel/fs/minix/zones.h:153-158 | the tables named in the inode |
| MinixVolume.MinixVolume.FreeAll | src/kernel/fs/minix/zones.h:124-158 | the flags of all zones freed, and no others, are cleared unless one is not in the first block |
| MinixVolume.MinixVolume.TruncateFile | src/kernel/fs/minix/minix.c:269-278 | realises the truncation, and says exactly when it writes past its buffer |
| MinixVolume.MinixVolume.SeekFile | src/kernel/fs/minix/minix.c:417-439 | realises the seek; an unknown whence moves nothing |
| Segments.SoundRemoves | src/kernel/mm/map.c:474-556 | where the comparisons come out right, unmapping takes exactly the range out of a segment |
| Segments.UnsoundMisses | src/kernel/mm/map.c:474-556 | everywhere else it does not |
| Segments.UnmapExactIff | src/kernel/mm/map.c:474-556 | the two together, for every segment and range up to the top of the address space |
| Segments.UnmapAllCovers | src/kernel/mm/map.c:474-556 | the list afterwards covers what the pieces of its segments cover |
| Segments.UnmapAllSorted | src/kernel/mm/map.c:474-556 | and is in order if and only if each segment's pieces are |
| Segments.UnmapAllExactIff | src/kernel/mm/map.c:474-556 | the whole list covers exactly what it did without the range, in order, if and only if the comparisons come out right for every segment |
| Segments.BackingKeptIff | src/kernel/mm/map.c:474-556 | what is left is backed by the same file bytes if and only if its front was not cut off |
| Segments.KindKept | src/kernel/mm/map.c:474-556 | an address that is still mapped is in a segment that grows the way its segment did |
| Munmap.CutCovers | src/kernel/mm/map.c:485-534 | where the comparisons come out right, what is released of a segment is what it has in common with the range |
| Munmap.CutPages | src/kernel/mm/map.c:536-541 | and so it is page by page |
| Munmap.CutRun | src/kernel/mm/map.c:485-541 | the loop is a run of the paging machine, which loses exactly the pages that the range and the segments share |
| Munmap.MunmapShows | src/kernel/mm/map.c:474-556 | after munmap of a range above address 0 the list and the machine still show the same segments, and memory that is never shared has lost exactly those pages |
| Segments.InsertSortedIff | src/kernel/mm/map.c:337-361 | inserting keeps the order if and only if the range fits a gap and, if it reaches the top, at most one segment was there |
| Segments.InsertCovers | src/kernel/mm/map.c:337-361 | the list then covers the range as well, and nothing more |
| Segments.BoundarySorted | src/kernel/mm/map.c:636-690 | a boundary between heap and stack is in order if and only if it lies between the start of one and the end of the other |
| Segments.SbrkUp | src/kernel/mm/map.c:636-690 | moving up: the stack gives way, then the heap follows |
| Segments.SbrkDown | src/kernel/mm/map.c:636-690 | moving down: the heap gives way, then the stack follows |
| Segments.SbrkChecks | src/kernel/mm/map.c:636-690 | the requests refused before anything moves |
| Segments.SbrkMovesIff | src/kernel/mm/map.c:636-690 | the break and the boundary move as asked, in order, if and only if the new break is between heap start and stack end, above 0, by whole pages, and down by no more than the stack is long; the stack may reach the top of the address space |
| Segments.RefusedUnchangedIff | src/kernel/mm/map.c:636-690 | a refused move leaves the break, and leaves the segments if and only if the checks refused it; refused by a resize, one segment has moved and the list is out of order |
| Segments.BoundaryRefused | src/kernel/mm/map.c:667-690 | whatever the segments, the break moves or is left with EFAULT |
| Segments.SbrkNowhere | src/kernel/mm/map.c:644-656 | if no segment but the first starts at the break, nothing moves and EFAULT is returned |
| Segments.BoundaryMoves | src/kernel/mm/map.c:667-690 | whenever a resize refuses, the other one has been done |
| Segments.SbrkTooFar | src/kernel/mm/map.c:667-690 | past the end of the stack: the stack has moved, the heap has not |
| Segments.SbrkToZero | src/kernel/mm/map.c:667-690 | to address 0: the heap has moved, the stack has not |
| Segments.SbrkFromZero | src/kernel/mm/map.c:667-690 | to address 0 with a heap that starts there: both have moved, out of order |
| Segments.SbrkTooLow | src/kernel/mm/map.c:667-690 | below the start of the heap: both have moved, out of order |
| Segments.MemoryMap.Find | include/kernel/mm/map.h:223-248 | the first segment that covers an address, or none covers it |
| Segments.MemoryMap.InsertSegment | src/kernel/mm/map.c:337-361 | realises the insertion |
| Segments.MemoryMap.UnmapAt | src/kernel/mm/map.c:485-534 | replaces one segment by what is left of it and goes on after that |
| Segments.MemoryMap.Unmap | src/kernel/mm/map.c:474-556 | realises the loop over a list that changes under it, and what becomes of the markers |
| Segments.MarkerMovesIff | src/kernel/mm/map.c:545-553 | a marker in the range gives way to its start if and only if the range does not reach the top of the address space; so does one just behind it, and no other |
| Segments.MemoryMap.Resize | src/kernel/mm/map.c:605-634 | grows or shrinks the segment at the end it grows from; EFAULT changes nothing |
| Segments.MemoryMap.FindLast | include/kernel/mm/map.h:234-243 | the last segment at or below an address |
| Segments.MemoryMap.MoveTo | src/kernel/mm/map.c:667-690 | realises the two resizes in their order |
| Segments.MemoryMap.MoveBreak | src/kernel/mm/map.c:636-690 | realises sbrk |
| PageAllocator.AllocFirstFit | src/kernel/mm/pages.c:152-196 | an allocation is the lowest run of pages of which none is in use, and fails only if every run of that length has one that is |
| PageAllocator.NullIff | src/kernel/mm/pages.c:152-196 | null is returned if and only if there is no run, or the run is at address 0; from any other address the page is found again |
| PageAllocator.AllocKeepsInvIff | src/kernel/mm/pages.c:152-196 | an allocation keeps the books right if and only if it is of at least one page |
| PageAllocator.AllocOfNone | src/kernel/mm/pages.c:152-196 | an allocation of no pages marks the lowest page not in use, with a reference, and does not count it |
| PageAllocator.FreeKeepsInvIff | src/kernel/mm/pages.c:198-214 | freeing a page does if and only if something refers to it |
| PageAllocator.RefKeepsInvIff | src/kernel/mm/pages.c:217-226 | a reference does if and only if the page is in use and its count does not wrap |
| PageAllocator.FreeRunInv | src/kernel/mm/pages.c:198-214 | over a run of pages, exactly their counts drop by one |
| PageAllocator.RefRunInv | src/kernel/mm/pages.c:217-226 | over a run of pages, exactly their counts rise by one |
| PageAllocator.StepInv | src/kernel/mm/pages.c:152-226 | every step keeps the books right |
| PageAllocator.RunInv | src/kernel/mm/pages.c:152-226 | over every run a page is marked if and only if its count is not 0, and the free pages are counted right |
| PageAllocator.FreeUndoesAlloc | src/kernel/mm/pages.c:152-214 | freeing an allocation gives back the state before it |
| PageAllocator.WithBitBits | src/kernel/mm/pages.c:152-214 | setting or clearing a bit of a word leaves the others alone |
| PageAllocator.SkipMarked | src/kernel/mm/pages.c:152-196 | a search may skip marked pages |
| PageAllocator.InitialInvIff | src/kernel/mm/pages.c:16-39 | the books start out right if and only if the half of the bitmap and of the counts that is not cleared was clear already |
| PageAllocator.PageBlock.constructor | src/kernel/mm/pages.c:16-39 | realises the start, from whatever the memory held |
| PageAllocator.PageBlock.Look | src/kernel/mm/pages.c:159-180 | one round finds the run or skips no candidate |
| PageAllocator.PageBlock.FindRun | src/kernel/mm/pages.c:158-195 | word by word and bit by bit, the lowest run |
| PageAllocator.PageBlock.RunEnd | src/kernel/mm/pages.c:167-176 | the clear pages from a page on are enough if and only if there is a run there |
| PageAllocator.PageBlock.SkipWord | src/kernel/mm/pages.c:160-162 | a full word holds no start of a run |
| PageAllocator.PageBlock.AllocPages | src/kernel/mm/pages.c:152-196 | realises the allocation |
| PageAllocator.PageBlock.MarkPage | src/kernel/mm/pages.c:181-188 | marks one page with one reference |
| PageAllocator.PageBlock.FreePages | src/kernel/mm/pages.c:198-214 | realises the release |
| PageAllocator.PageBlock.DropPage | src/kernel/mm/pages.c:198-214 | one page of it |
| PageAllocator.PageBlock.MakeRef | src/kernel/mm/pages.c:217-226 | realises the references |
| PageAllocator.PageBlock.SetFlag | src/kernel/mm/pages.c:187-211 | changes one bit of the bitmap |
| Queues.RemovedHas | include/kernel/utils/queue.h:66-80 | exactly the node removed is gone |
| Queues.RemovedIsOthers | include/kernel/utils/queue.h:66-80 | the other nodes stay in their order |
| Queues.LinksKept | include/kernel/utils/queue.h:12-15 | a queue whose nodes keep their links is as it was |
| Queues.Process.constructor | include/kernel/utils/queue.h:24-28 | a new node is in no queue |
| Queues.Queue.constructor | include/kernel/utils/queue.h:18-22 | a new queue is empty |
| Queues.Queue.Insert | include/kernel/utils/queue.h:30-39 | the node comes first, with links both ways |
| Queues.Queue.InsertAfter | include/kernel/utils/queue.h:41-64 | the node comes after the one given, or first, with links both ways; after a node that is in no queue, no sequence of nodes that the queue can stand for contains it |
| Queues.Queue.Remove | include/kernel/utils/queue.h:66-80 | the node is gone and detached; removing one that was in no queue empties the queue and leaves the links of its nodes |
| Queues.Queue.Unreached | include/kernel/utils/queue.h:41-64 | a node that is reached only through one the head does not lead to is in no sequence the queue stands for |
| Queues.Queue.Move | include/kernel/utils/queue.h:41-80 | removing a node and inserting it after another, in the links: it is there afterwards if and only if both were |
| Scheduler.AddGood | src/kernel/proc/scheduler.c:49-52 | inserting a process keeps every process in the queue of its state |
| Scheduler.ExitGoodIff | src/kernel/proc/scheduler.c:54-81 | exiting does if and only if the process is not stopped while others can run |
| Scheduler.StopGood | src/kernel/proc/scheduler.c:83-99 | stopping does |
| Scheduler.SuspendGood | src/kernel/proc/scheduler.c:101-117 | suspending does |
| Scheduler.ResumeGood | src/kernel/proc/scheduler.c:119-135 | resuming does |
| Scheduler.CancelGood | src/kernel/proc/scheduler.c:188-203 | cancelling a system call does |
| Scheduler.MoveGoodIff | src/kernel/proc/scheduler.c:261-274 | rescheduling to now does if and only if there is nothing to do or the current process is queued |
| Scheduler.ResumeNowGoodIff | src/kernel/proc/scheduler.c:137-142 | resuming without restart does if and only if the process has not exited and can be put after the current one |
| Scheduler.StepGood | src/kernel/proc/scheduler.c:49-315 | every step does |
| Scheduler.RunGood | src/kernel/proc/scheduler.c:49-315 | over every run each process is in the queue of its state, exactly once |
| Scheduler.AddTurns | src/kernel/proc/scheduler.c:49-52 | a new process is running, in front of the others; these keep their states and their order in both queues |
| Scheduler.ExitTurns | src/kernel/proc/scheduler.c:54-81 | the process has exited and is in neither queue, the others as before, unless it was stopped while others could run: then the run queue is empty and the rest as before |
| Scheduler.StopTurns | src/kernel/proc/scheduler.c:83-99 | a process that had not exited is stopped and in neither queue; the others keep their states and their order in both queues |
| Scheduler.SuspendTurns | src/kernel/proc/scheduler.c:101-117 | a running process is blocked, in front of the others that are; nothing else changes |
| Scheduler.ResumeTurns | src/kernel/proc/scheduler.c:119-135 | a blocked or stopped process is resuming, in front of the others that can run; nothing else changes |
| Scheduler.CancelTurns | src/kernel/proc/scheduler.c:188-203 | a blocked or resuming process is running, in front of the others if it was blocked; nothing else changes |
| Scheduler.MoveTurns | src/kernel/proc/scheduler.c:261-274 | no state changes, the others keep their order, and schedule() turns to the process next |
| Scheduler.ResumeNowTurns | src/kernel/proc/scheduler.c:137-142 | the process is running and next; the others keep their states and their order |
| Scheduler.StepTurns | src/kernel/proc/scheduler.c:49-274 | so every step changes the state of its process as the life of a process has it, and of the others nothing |
| Scheduler.ScheduleTurns | src/kernel/proc/scheduler.c:276-315 | a switch changes nothing but the current process, which is running if it was resuming; from one that is not queued it goes to the first |
| Scheduler.StopThenResume | src/kernel/proc/scheduler.c:83-135 | a process stopped and resumed is resuming, in front of the others, which are as before |
| Scheduler.SuspendThenResume | src/kernel/proc/scheduler.c:101-135 | so is one that was put to sleep |
| Scheduler.ScheduleGood | src/kernel/proc/scheduler.c:276-315 | scheduling does, and leaves the run queue as it is |
| Scheduler.BlocksAgain | src/kernel/proc/scheduler.c:311-313 | the process selected, resumed or not, is running afterwards and can be suspended again |
| Scheduler.RoundRobin | src/kernel/proc/scheduler.c:276-315 | scheduling goes around the run queue in order |
| Scheduler.EachOnce | src/kernel/proc/scheduler.c:276-315 | as many calls as there are processes select each exactly once |
| Scheduler.IdleIffEmpty | src/kernel/proc/scheduler.c:276-298 | the idle process is selected if and only if nothing can run |
| Scheduler.ProcessQueues.constructor | src/kernel/proc/scheduler.c:31-47 | nothing queued, the idle process in no queue |
| Scheduler.ProcessQueues.InsertProc | src/kernel/proc/scheduler.c:49-52 | the links realise the insertion of a new process |
| Scheduler.ProcessQueues.Unqueue | src/kernel/proc/scheduler.c:54-99 | takes a process out of the queue of its state, in the links |
| Scheduler.ProcessQueues.MoveToBlocked | src/kernel/proc/scheduler.c:101-117 | moves a process from one queue to the other, in the links |
| Scheduler.ProcessQueues.ExitProc | src/kernel/proc/scheduler.c:54-81 | the links realise the exit; of a stopped process too, which leaves the run queue empty; a switch is asked for unless it had exited |
| Scheduler.ProcessQueues.ExitStopped | src/kernel/proc/scheduler.c:64-70 | the exit of a stopped process |
| Scheduler.ProcessQueues.StopProc | src/kernel/proc/scheduler.c:83-99 | the links realise the stop of `StopTurns`, and a switch is asked for exactly if it does something |
| Scheduler.ProcessQueues.SuspendProc | src/kernel/proc/scheduler.c:101-117 | the links realise the suspension, and a switch is asked for exactly if it does something |
| Scheduler.ProcessQueues.ResumeProc | src/kernel/proc/scheduler.c:119-135 | the links realise the resumption |
| Scheduler.ProcessQueues.CancelSyscall | src/kernel/proc/scheduler.c:188-203 | the links realise the cancellation |
| Scheduler.ProcessQueues.RescheduleToNow | src/kernel/proc/scheduler.c:261-274 | the links realise the move behind the current process, or, where the queues break, no sequence the run queue stands for contains the process |
| Scheduler.ProcessQueues.MoveBehind | src/kernel/proc/scheduler.c:270-273 | the move behind a process, queued or not |
| Scheduler.ProcessQueues.ResumeWithoutRestart | src/kernel/proc/scheduler.c:137-142 | the links realise both, for every process and a current one that is queued or not |
| Scheduler.ProcessQueues.ScheduleNext | src/kernel/proc/scheduler.c:276-315 | following one link selects the successor in the run queue, a resuming process becomes running, and no switch is asked for any more |
| Scheduler.ProcessQueues.SelectNext | src/kernel/proc/scheduler.c:276-298 | the selection |
| Scheduler.ProcessQueues.PickNext | src/kernel/proc/scheduler.c:284-298 | the process selected, by the links |
| Scheduler.ProcessQueues.SuccessorOf | src/kernel/proc/scheduler.c:276-298 | the link of an active process leads to its successor |
| RingBuffer.Spaces | include/kernel/utils/ringbuffer.h:39-55 | used and free space make up the buffer but one byte; full and empty are told apart |
| RingBuffer.PutIterAppends | include/kernel/utils/ringbuffer.h:183-220 | appends as much as there is room for, in at most two chunks |
| RingBuffer.PutIterIff | include/kernel/utils/ringbuffer.h:183-220 | appends what fits if and only if the data does not exactly reach the end of a buffer whose first byte is next out; then the buffer is empty afterwards |
| RingBuffer.PutAppends | include/kernel/utils/ringbuffer.h:118-131 | byte by byte, as much is appended as there is room for, on values |
| RingBuffer.GetIterTakes | include/kernel/utils/ringbuffer.h:146-181 | takes from the front what there is, up to the room there is |
| RingBuffer.GetIterIff | include/kernel/utils/ringbuffer.h:146-181 | does so if and only if the buffer is not empty or there is no room |
| RingBuffer.StaleRead | include/kernel/utils/ringbuffer.h:146-181 | a read of an empty buffer gives as many bytes as asked for, up to a whole buffer, and leaves the rest of a whole buffer to be read |
| RingBuffer.Buffer.constructor | include/kernel/utils/ringbuffer.h:17-22 | starts empty, with room for all bytes but one |
| RingBuffer.Buffer.Put | include/kernel/utils/ringbuffer.h:118-131 | appends as many bytes as there is room for |
| RingBuffer.Buffer.GetChar | include/kernel/utils/ringbuffer.h:57-67 | takes the byte at the front, if there is one |
| RingBuffer.Buffer.Get | include/kernel/utils/ringbuffer.h:82-94 | takes up to a number of bytes from the front |
| RingBuffer.Buffer.PutFrom | include/kernel/utils/ringbuffer.h:183-220 | realises the two chunks of a put from an iterator |
| RingBuffer.Buffer.PutFirst | include/kernel/utils/ringbuffer.h:188-204 | the first chunk |
| RingBuffer.Buffer.PutSecond | include/kernel/utils/ringbuffer.h:206-219 | the second chunk |
| RingBuffer.Buffer.GetInto | include/kernel/utils/ringbuffer.h:146-181 | realises the two chunks of a get into an iterator |
| RingBuffer.Buffer.Drop | include/kernel/utils/ringbuffer.h:133-144 | drops bytes from the front, and says how many |
| Iovec.JoinedAt | src/kernel/utils/iovec.c:4-66 | each segment is at its place in the whole |
| Iovec.JoinedWrite | src/kernel/utils/iovec.c:4-34 | bytes written to one segment are written to the whole at the same place |
| Iovec.WriteRewindRead | src/kernel/utils/iovec.c:136-192 | what was written is read back after rewinding, and nothing else has changed |
| Common.SeekLands | src/kernel/utils/iovec.c:195-233 | a seek, in a file as in an iterator, lands where it was meant to if that is in the sequence, else, before the start as well, at the end |
| Iovec.PushBackIff | src/kernel/utils/iovec.c:235-257 | pushing back writes the bytes just below the cursor if there are that many, else nothing, and goes to the end |
| Iovec.Iter.constructor | include/kernel/utils/iovec.h:110-124 | starts at the first byte of the segments joined |
| Iovec.Iter.Seek | src/kernel/utils/iovec.c:195-233 | the segment and offset found are those of the position in the whole; an unknown whence moves nothing |
| Iovec.Iter.MoveTo | src/kernel/utils/iovec.c:213-230 | walking forwards or backwards over the segments comes to the one a position is in |
| Iovec.Iter.Advance | src/kernel/utils/iovec.c:213-230 | and so the cursor moves past what was copied |
| Iovec.Iter.CopyIn | src/kernel/utils/iovec.c:4-34 | the chunks copied across segments are one copy into the whole |
| Iovec.Iter.CopyChunk | src/kernel/utils/iovec.c:4-34 | one of them |
| Iovec.Iter.CopyOut | src/kernel/utils/iovec.c:36-66 | the chunks copied are one copy out of the whole |
| Iovec.Iter.WriteHere | src/kernel/utils/iovec.c:136-163 | writes at the cursor |
| Iovec.Iter.Write | src/kernel/utils/iovec.c:136-163 | and moves it behind what was written |
| Iovec.Iter.Take | src/kernel/utils/iovec.c:165-192 | reads at the cursor and moves it behind what was read |
| Iovec.Iter.PushBack | src/kernel/utils/iovec.c:235-257 | realises the push |
| Checksum.FoldedAdd | src/kernel/net/protocol/ipv4.c:156-177 | folding commutes with ones'-complement addition |
| Checksum.TotalIsOnes | src/kernel/net/protocol/ipv4.c:156-177 | the folded plain sum is the ones'-complement sum of the words |
| Checksum.SumOverBytes | src/kernel/net/protocol/ipv4.c:156-177 | the sum is that of the bytes, those at even places counted 256 times |
| Checksum.OddLengthPadded | src/kernel/net/protocol/ipv4.c:165-167 | a buffer of odd length sums like the same with a zero byte behind it |
| Checksum.PseudoHeaderIs | src/kernel/net/protocol/tcp.c:525-536 | the terms added for addresses, protocol and length are those of a 12-byte pseudo header |
| Checksum.FoldComplete | src/kernel/net/protocol/ipv4.c:169-176 | one fold and one increment suffice for any 32-bit sum |
| Checksum.FieldOnesIff | src/kernel/net/protocol/tcp.c:525-553 | all ones in the field sum like zeroes there if and only if the rest is not zero |
| Checksum.WordChangeIff | src/kernel/net/protocol/ipv4.c:156-177 | a changed word goes unnoticed if and only if it changed between 0 and 0xFFFF |
| Checksum.SumsToOnes | src/kernel/net/protocol/ipv4.c:156-177 | a buffer that carries its checksum sums to all ones |
| Checksum.Accumulate | src/kernel/net/protocol/ipv4.c:156-168 | the loop sums every word, a last odd byte as the high one, within 32 bits |
| Checksum.Calculate | src/kernel/net/protocol/ipv4.c:156-177 | returns the complement of the ones'-complement sum |
| Checksum.SendAndCheck | src/kernel/net/protocol/tcp.c:131-135 | sender and receiver compute the same checksum although they blank the field differently |
| Slip.DecodeEscaped | src/kernel/drivers/net/slip/slip.c:100-172 | unescaping undoes escaping |
| Slip.DecodeOther | src/kernel/drivers/net/slip/slip.c:158-171 | an escape with a byte behind it that nothing is escaped to, or with none, is read as a zero |
| Slip.FeedFrame | src/kernel/drivers/net/slip/slip.c:216-250 | one frame gives back its packet, unless that is empty |
| Slip.FramesRecovered | src/kernel/drivers/net/slip/slip.c:216-250 | a stream of frames gives back its packets in order |
| Slip.ChunksJoin | src/kernel/drivers/net/slip/slip.c:216-250 | however the stream is chopped into reads |
| Slip.ChoppedRoundTrip | src/kernel/drivers/net/slip/slip.c:100-250 | the packets come back whatever the reads, all of them if and only if none is empty |
| Slip.AlwaysRoom | src/kernel/drivers/net/slip/slip.c:216-250 | while frames that fit come in, the receive buffer never fills up |
| Slip.SlipDevice.constructor | src/kernel/drivers/net/slip/slip.c:58-71 | starts with nothing received and nothing to send |
| Slip.SlipDevice.EncodeByte | src/kernel/drivers/net/slip/slip.c:124-140 | one byte escaped into the buffer |
| Slip.SlipDevice.EncodeBytes | src/kernel/drivers/net/slip/slip.c:123-142 | the buffer holds the frame |
| Slip.SlipDevice.EncodePacket | src/kernel/drivers/net/slip/slip.c:100-145 | moving a packet to the buffer, all of it, changes nothing of what is yet to go out |
| Slip.SlipDevice.SendSome | src/kernel/drivers/net/slip/slip.c:193-210 | as much as the device takes goes out; that and what is left make up the buffer |
| Slip.SlipDevice.WriteSome | src/kernel/drivers/net/slip/slip.c:186-214 | as much as the device takes of the rest of a packet, or of the next, goes out; that and what is yet to go out make up what was to go out |
| Slip.SlipDevice.DecodeByte | src/kernel/drivers/net/slip/slip.c:158-171 | one byte unescaped |
| Slip.SlipDevice.DecodePacket | src/kernel/drivers/net/slip/slip.c:147-184 | queues the frame unescaped |
| Slip.SlipDevice.ReadByte | src/kernel/drivers/net/slip/slip.c:233-247 | one byte of a read, as one step of the receiver |
| Slip.SlipDevice.ShiftDown | src/kernel/drivers/net/slip/slip.c:237-241 | what follows a frame moves to the start of the buffer |
| Slip.SlipDevice.Append | src/kernel/drivers/net/slip/slip.c:216-228 | a read goes behind what is there |
| Slip.SlipDevice.ReadData | src/kernel/drivers/net/slip/slip.c:216-250 | the buffer and its two indexes realise the receiver on every read |
| TcpReassembly.QueuedSorted | src/kernel/net/protocol/tcp.c:590-605 | the queue stays ordered by sequence number |
| TcpReassembly.QueuedInv | src/kernel/net/protocol/tcp.c:590-605 | queueing a segment keeps all that is known of the stream |
| TcpReassembly.DrainInv | src/kernel/net/protocol/tcp.c:607-637 | draining stores only what continues the stream, and leaves nothing that could be stored unless the buffer is full |
| TcpReassembly.ArriveInv | src/kernel/net/protocol/tcp.c:743-753 | segments in any order, repeated or overlapping, add exactly what continues the stream; what is acknowledged is stored, and no byte that arrived is the next one expected |
| TcpReassembly.RecvInv | src/kernel/net/protocol/tcp.c:341-361 | what is read continues what was read before, unless the buffer was empty: then what is read and what it leaves are a whole buffer too many |
| TcpReassembly.StoredInv | src/kernel/net/protocol/tcp.c:614-635 | storing the part that continues the stream keeps all that is known, and falls short only if the buffer is full |
| TcpReassembly.StepInv | src/kernel/net/protocol/tcp.c:341-637 | every step keeps what is known, and the books, unless it is such a read |
| TcpReassembly.RunInv | src/kernel/net/protocol/tcp.c:590-637 | over every run the books are out by a whole buffer for each read of an empty one, and by nothing else |
| TcpReassembly.EveryRunDeliversIff | src/kernel/net/protocol/tcp.c:341-637 | nothing that arrived is lost; what the application has read and the buffer are together the stream up to the next number expected, without gap or repeat, if and only if no read found the buffer empty |
| TcpReassembly.StaleBytesIff | src/kernel/net/protocol/tcp.c:341-361 | they are out by nothing if and only if no read is stale |
| TcpReassembly.StaleAtOnce | src/kernel/net/protocol/tcp.c:341-361 | a first read of an empty buffer gives the application bytes of a stream that has none |
| TcpReassembly.TcpReceiver.constructor | src/kernel/net/protocol/tcp.c:416-452 | starts at the peer's number with an empty buffer |
| TcpReassembly.TcpReceiver.QueuePacket | src/kernel/net/protocol/tcp.c:590-605 | realises the insertion |
| TcpReassembly.TcpReceiver.Deliver | src/kernel/net/protocol/tcp.c:614-635 | stores the part not received yet, as far as the ring buffer has room |
| TcpReassembly.TcpReceiver.CheckWaiting | src/kernel/net/protocol/tcp.c:607-637 | realises the drain |
| TcpReassembly.TcpReceiver.ForwardData | src/kernel/net/protocol/tcp.c:743-753 | realises an arrival and its acknowledgement |
| TcpReassembly.TcpReceiver.ReadBytes | src/kernel/net/protocol/tcp.c:341-361 | realises a read, of an empty buffer as well |
| TcpHandshake.OpenInv | src/kernel/net/protocol/tcp.c:278-300 | connecting keeps the invariant of the handshake |
| TcpHandshake.AtServerInv | src/kernel/net/protocol/tcp.c:640-685 | so does a packet at the listener or an accepted endpoint |
| TcpHandshake.AdmitInv | src/kernel/net/protocol/tcp.c:464-483 | so does accepting |
| TcpHandshake.AtClientInv | src/kernel/net/protocol/tcp.c:688-713 | so does a packet at the client |
| TcpHandshake.StepInv | src/kernel/net/protocol/tcp.c:640-713 | so does every step |
| TcpHandshake.RunInv | src/kernel/net/protocol/tcp.c:640-713 | and every run, with packets lost, repeated and reordered |
| TcpHandshake.EveryRunQueues | src/kernel/net/protocol/tcp.c:243-264 | no more SYNs wait than listen was given, nor than ten |
| TcpHandshake.SynWaitsIff | src/kernel/net/protocol/tcp.c:640-660 | a SYN is queued behind the others if and only if there is room |
| TcpHandshake.OpensIff | src/kernel/net/protocol/tcp.c:689-714 | the client is established by a SYN|ACK of the number it sent, acknowledges its number, and drops everything else |
| TcpHandshake.AnswersIff | src/kernel/net/protocol/tcp.c:661-686 | an accepted endpoint is established by an ACK with the number it expects, and drops everything else |
| TcpHandshake.Agreement | src/kernel/net/protocol/tcp.c:640-713 | in every reachable state two established ends expect what the other sends next; the client's number is its own initial one plus one, the server's that of the SYN with ACK that the client took |
| TcpHandshake.SingleAccept | src/kernel/net/protocol/tcp.c:640-713 | with one endpoint accepted, which the listener can see, both numbers are the initial ones plus one |
| TcpHandshake.StepBorrowsIff | src/kernel/net/protocol/tcp.c:661-685 | an endpoint is established on a number that is not its own if and only if the acknowledgement is not one of its own number, which is not looked at |
| TcpHandshake.OwnNumbersIff | src/kernel/net/protocol/tcp.c:640-713 | over every run, all established endpoints have numbers of their own if and only if each was acknowledged its own |
| TcpHandshake.EveryRunOwnNumbersIff | src/kernel/net/protocol/tcp.c:640-713 | the same from the start |
| TcpHandshake.AcceptTwice | src/kernel/net/protocol/tcp.c:661-685 | a run that ends with an endpoint established on a borrowed number |
| TcpHandshake.SecondAccept | src/kernel/net/protocol/tcp.c:661-685 | such a run exists from the start |
| TcpHandshake.TcpEndpoint.constructor | src/kernel/net/protocol/tcp.c:416-452 | starts closed |
| TcpHandshake.TcpEndpoint.SendPacket | src/kernel/net/protocol/tcp.c:557-588 | realises the numbers sent and kept |
| TcpHandshake.TcpEndpoint.Connect | src/kernel/net/protocol/tcp.c:278-300 | realises the opening |
| TcpHandshake.TcpEndpoint.CreateClient | src/kernel/net/protocol/tcp.c:464-483 | realises the acceptance |
| TcpHandshake.TcpEndpoint.ForwardPacket | src/kernel/net/protocol/tcp.c:640-713 | realises the three states a packet can find |

## Left out

- Mmu.Mmu.MapRange: does not model preallocated mappings, the rejection of malformed flags, or a page allocator that has no page for a new table. On a range that is not clean, which addresses make a map fail, and what a panic leaves beyond what was backed, is not said, nor which of the fixed maps that begin inside the page at 0 and are longer than it succeed; nor how far an unmap that cuts a page in two goes.
- Mmu.Mmu.CopyRange: requires both ranges to be served by pages of PAGE_SIZE, as fork's are; copies of fixed mappings are not modelled.
- Paging.PagedSpaces.Execute: page_alloc never hands out the page at address 0, which stands for none; shared and released pages are counted in a loop of their own, before the one over the tables.
- Munmap.MunmapShows: ranges from address 0 on are left to `CopyOnWrite.UnmapShownIff`, and fixed segments, whose pages are not counted, are not part of the paging machine.
- KernelHeap.AcquireInv: excludes requests for which adding a header wraps and, when no free block serves, those for which rounding up to pages does, since kmalloc then writes headers outside what it was given; `HeaderFitsIff` and `RunSizeIff` say exactly which these are.
- KernelHeap.KernelHeap.Kmfree: is given a live block; `FreedAgain` covers one that is free already, and an address that was never a block is not modelled.
- KernelHeap.KernelHeap.Kmalloc: returns the address of the block's header rather than of the bytes behind it.
- BufferCache.EveryRunRefines: clients write only to buffers they hold, release what they hold once, and do not change block 0; `RecycleKeepsIff` and `GetKeepsInvIff` say what happens otherwise.
- BufferCache.BlockCache.LoadBlock: does not model the no-write debugging flag, partial transfers, failing writes, or running out of memory for a buffer.
- MinixFile.WriteEffect: ends where the source would write to a block that is not the file's, and says nothing of what follows; `WriteEnding` says exactly when that is. If two tables are missing, the block read second may be one that the write has just written, so that its last state is named there.
- MinixTruncate.TruncateRefines: likewise ends at a write past the buffer of the bitmap; `TruncateInsideIff` says exactly when that is.
- MinixVolume.MinixVolume.WriteFile: does not model the refusal of directories; blocks are those of a plain map, and `BlockAccess.CacheIsBlocks` says that the cache is one.
- MinixVolume.MinixVolume.ReadFile: does not model the refusal of directories, device nodes, or the write-back of inodes.
- Segments.MemoryMap.Unmap: the page tables are in `Munmap`, and a split always finds memory for its second half.
- Segments.SbrkMovesIff: breaks that wrap around the address space are excluded; `MoveBreak` computes what they do.
- PageAllocator.PageBlock.constructor: a bitmap too small for its pages, which the source reports as an error, is not accepted.
- PageAllocator.PageBlock.FreePages: pages outside the block are not passed to it.
- Scheduler.ProcessQueues.ExitProc: when a stopped process ends while others can run, says only what is left of the run queue, as the links no longer form queues. Waking a waiting parent is a separate resumption.
- Scheduler.ProcessQueues.RescheduleToNow: there is a current process, which the source does not look at before it uses it.
- Slip.SlipDevice.EncodePacket: the frame fits the buffer, which the source does not look at before writing it; allocation failures of received packets are not modelled.
- Iovec.Iter.CopyIn: buffers are values, so segments that overlap in memory are not modelled; user-space buffers and string copies are left out.
- TcpReassembly.EveryRunDeliversIff: does not model the wrap of sequence numbers, FIN or RST; segments are shorter than 32768 bytes, which is what the size given to the ring buffer can count.
- TcpHandshake.RunInv: one client and one listener; closing, resets and retransmission timers are left out.
- RingBuffer peeking, and mmap's choice of address: they would only add easy members.
- Heap compaction, sizing of page blocks, file-backed pages and the pinning of user pages for transfers.
- Formatting of file systems, directories and path lookup, ext2, procfs and the VFS and system call plumbing.
- Pipes, signals, timers, select, wait events and context switching.
- Hardware drivers, ARP, ICMP, UDP and routing.
