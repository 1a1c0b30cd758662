# RandomOS in Dafny

A model of the hard core of RandomOS, an x86_64 kernel in C, with proofs. `dafny verify dfyconfig.toml` checks the whole project.

| part | files | main results |
|---|---|---|
| page tables (Intel SDM Vol. 3A section 4.5) | `PageTables`, `PageMapping`, `AddressSpaces`, `AddressSpaceRuns`, `AddressSpaceClose`, `KernelHalf`, `DirectMap`, `Vmm` | the four-level tree refines a flat page map; an address space's lifetime leaves no trace in the frame bitmap; all address spaces agree on the kernel heap, whatever is mapped or unmapped; the direct map is exact |
| frame bitmap | `Pmm` | first fit with the full-byte skip equals first fit without it; exactly when live allocations stay disjoint; the free set after start-up |
| kernel heap | `BoundaryTags`, `FreeLists`, `HeapModel`, `Heap` | host runs are tiled by their tags, live areas are disjoint, the search misses no fit, runs go back to the host exactly once |
| heap regions | `RegionModel`, `Regions` | the region list tiles the heap; exactly which release breaks it |
| virtqueue (VIRTIO 1.2 section 2.7) | `RingArithmetic`, `VirtqueueModel`, `VirtqueueRuns`, `Virtqueue`, `BlockDriver` | no descriptor or ring slot is ever shared, over all driver/device interleavings and 16-bit wrap-around; no submission or completion is lost; a block request gets its own completion, and a transfer returns what the device answers to the request the caller made |
| processor mailbox | `Mailbox` | over all interleavings of any number of senders, a RUN request starts its function at most once and a refused one never; a RUN sent to a waiting processor is accepted and started |
| processes and scheduler | `ProcessModel`, `Processes` | every live process reaches init through live parents; waiters are woken; bounded waiting |
| installer | `BlockCache` | the write-back cache refines a byte array; rolling back restores the disk byte for byte |
| initial ramdisk | `Cpio`, `RamfsModel`, `Unpacking`, `Ramfs` | packing a directory tree, importing it and reading each path gives every file back; exactly which members derail the importer |
| program start | `UserStack` | the initial stack of System V AMD64 ABI section 3.4.1 reads back; when it is aligned |
| limits of the code | `Counterexamples` | inputs at which expected properties fail |
| shared | `Basics`, `Layout` | byte strings, the pigeonhole, the address map |

Operations that the C code does in place are classes and methods with loops. Each is tied by its contract to a function on values (a memory of tables, a heap state, a queue, a list of regions), and the properties are lemmas about those functions and about whole runs of them. Two proof devices recur. A structure that must not be shared is kept with an inverse map (each table knows its position, each descriptor its owner, each path its inode), so that disjointness needs no separate argument. Statements about arbitrary runs are invariants kept by every step, then an induction over the run.

Where the code and its comments, or what a caller would expect, disagree, the model follows the code. Each case has its exact condition and an input that shows it:

- The comment in `vmm_init` says the HEAP and MMIO slots are pre-populated; the loop covers HEAP only, and by `Vmm.PageTableManager.Init` every slot outside the direct map, the heap and the kernel image is what the bootloader left there. `PageMapping.UpperMapVisible` says exactly which other address spaces see a kernel-half mapping; in `Counterexamples.MmioNotShared` a mapping at MMIO_START is not seen by a second space.
- `vmm_unmap_page` frees the frame of an entry that was not present. `PageMapping.UnmapOfUnmapped` says exactly when that frees frame 0; `Counterexamples.FreesFrameZero` does it with two neighbouring pages.
- A heap release strictly inside a region asks for two list nodes and gets the same one twice. `Regions.RegionList.ReleasePages` says exactly when the tiling survives, and what is left of the list when it does not; `Counterexamples.HeapReleaseLoses` takes three pages and gives the middle one back.
- The frame address is a 32-bit product. `Pmm.AddressExact` says exactly when it is right and `Pmm.LiveNeverOverlap` what that means for callers; in `Counterexamples.HighFrameAddress` two live allocations have one address. The page-table model therefore stops where the lowest free frame lies above 4 GiB.
- The bitmap's own frames stay allocatable when the reservation meets a frame that is not wholly usable. `Pmm.Init` has the exact condition, `Pmm.AlignedBitmapReserved` says that page-aligned maps are safe, `Pmm.UnalignedBitmapLost` is a map that is not.
- `sys_wait` accepts any pid but only a parent is woken. `ProcessModel.WokenExactly` is the exact condition; in `Counterexamples.WaiterStays` a process waits for its sibling.
- A wait for any child does not clear the mark it looks for. By `ProcessModel.WaitAnyNeverParks` the caller is not parked again until the dead child's slot is reused; in `Counterexamples.ReapedTwice` one dead child is returned twice.
- The comment in the loader says the final stack pointer is 16-byte aligned. `UserStack.FinalAlignment` is the exact condition; in `Counterexamples.MisalignedStack` one argument of one letter breaks it.
- A failed read of the last, partial block leaves its bytes in the buffer of the block cached before. `BlockCache.Device.CacheBlock` says exactly when that block is then wrong; `BlockCache.StaleTail` is a file of one and a half blocks.
- `virtio_blk_transfer` frees its descriptors even when the poll timed out. `VirtqueueRuns.FreeAfterTimeout` says, by the two indices the driver compares, exactly when descriptors are then free and at the device at once; `Counterexamples.TimeoutFreesBusy` is such a request.
- `mkinitrd.py` writes the length of a name in characters and then its bytes, and the size 0 for a symbolic link and then its target. `Cpio.NextExact` says exactly when the importer still finds the next member; `Counterexamples.AccentedNameFails` and `Counterexamples.SymbolicLinkFails` are archives it gives up on.

## Model
| member | source | states |
|---|---|---|
| PageTables.AddChildInv | src/kern/mem/vmm.c:124-132 | hanging a freshly allocated, zeroed table into an absent entry keeps the forest: every table is reachable at one position only, and no frame is both free and in use |
| PageTables.RemoveChildInv | src/kern/mem/vmm.c:332-343 | unhooking an empty table and freeing its frame keeps the forest |
| PageTables.AddChildWalk | src/kern/mem/vmm.c:167-192 | a new empty table changes no translation in any address space |
| PageTables.LastTableUnique | src/kern/mem/vmm.c:164-197 | two walks that end in the same last-level table used the same indices, and in the lower half started from the same root: tables are never shared |
| PageTables.LeafBits | src/kern/mem/vmm.c:194-196 | a leaf entry is present and has every other bit exactly as the flags passed |
| PageTables.TableBits | src/kern/mem/vmm.c:171-192 | the entry of a created table is present, writable and open to user mode |
| PageMapping.MapPageRefines | src/kern/mem/vmm.c:164-197 | mapping a page updates the flat page map at that page only, in every address space at once; the one exception, the kernel's own slot being overwritten, is named |
| PageMapping.GetPhysAfterMap | src/kern/mem/vmm.c:134-197 | by address: after a map, translation gives the new frame plus the offset on the page and the old answer everywhere else |
| PageMapping.PathOfSamePage | src/kern/mem/vmm.c:134-162 | two addresses select the same entries exactly when they agree on bits 12 to 47 |
| PageMapping.NewTablesOpen | src/kern/mem/vmm.c:164-197 | whatever entry above the last level a map changes is afterwards that of a table that lets everything through |
| PageMapping.LeafDecides | src/kern/mem/vmm.c:164-197 | in the lower half, a page may be written or used from user mode if and only if its leaf says so |
| PageMapping.MapRights | src/kern/mem/vmm.c:164-197 | after a lower-half map the rights of the page are exactly those of the flags passed |
| PageMapping.ReclaimOk | src/kern/mem/vmm.c:332-344 | freeing emptied tables bottom-up changes no translation and only returns frames |
| PageMapping.UnmapPageRefines | src/kern/mem/vmm.c:292-345 | unmapping removes that page from the flat map wherever its table is shared and moves nothing else |
| PageMapping.GetPhysAfterUnmap | src/kern/mem/vmm.c:292-345 | by address: 0 on the unmapped page, the old answer everywhere else |
| PageMapping.MapPageLean | src/kern/mem/vmm.c:164-197 | mapping never leaves an empty lower-half table |
| PageMapping.UnmapPageLean | src/kern/mem/vmm.c:322-344 | unmapping never leaves an empty lower-half table |
| PageMapping.MapThenUnmap | src/kern/mem/vmm.c:164-345 | a lower-half map followed by an unmap that keeps the frame restores every table and the frame bitmap exactly |
| PageMapping.UpperMapVisible | src/kern/mem/vmm.c:167-176 | another address space sees a kernel-half mapping if and only if both shared the top-level slot before, or, when the slot was absent, it is the kernel's own |
| PageMapping.UnmapOfUnmapped | src/kern/mem/vmm.c:315-324 | a frame-freeing unmap of an unmapped page frees frame 0 if and only if the page's last-level table exists |
| AddressSpaces.MapAnonInv | src/kern/mem/vmm.c:362-378 | taking a frame and mapping it keeps the invariant of all address spaces: each lent frame is mapped at exactly one place |
| AddressSpaces.UnmapAnonInv | src/kern/mem/vmm.c:292-345 | a frame-freeing unmap of a mapped page keeps the invariant of all address spaces: the frame is lent to nobody afterwards and every other lent frame is still mapped once |
| AddressSpaces.NewRootInv | src/kern/mem/vmm.c:476-481 | a new root that copies the kernel half by value keeps the forest and the heap slots, whatever is mapped |
| AddressSpaces.NewSpaceInv | src/kern/mem/vmm.c:476-481 | a new address space keeps the invariant of all address spaces; frame 0 is never in play |
| AddressSpaces.NewRootWalks | src/kern/mem/vmm.c:476-481 | the new root translates the whole kernel half as the kernel does and nothing below it; no other root changes |
| AddressSpaces.CloseWalks | src/kern/mem/vmm.c:494-531 | destroying a space changes no translation of any other root |
| AddressSpaces.CloseMemInv | src/kern/mem/vmm.c:494-531 | cutting off a whole lower half keeps the forest and the heap slots, whatever was mapped there, unless a page of it maps a live table |
| AddressSpaces.CloseIsMem | src/kern/mem/vmm.c:507-514 | when every user mapping is of a lent frame, the frames freed are exactly the lent ones |
| AddressSpaces.CloseInv | src/kern/mem/vmm.c:494-531 | cutting off a whole lower half, tables and lent frames together, keeps the invariant of all address spaces that remain |
| AddressSpaces.CloseUndoesNew | src/kern/mem/vmm.c:476-531 | destroying a space just created gives back the world before its creation |
| AddressSpaces.MapAnonClosed | src/kern/mem/vmm.c:494-531 | a lower-half map makes no difference to what is left after the space is destroyed |
| AddressSpaces.UnmapAnonClosed | src/kern/mem/vmm.c:494-531 | a lower-half unmap makes no difference to what is left after the space is destroyed |
| AddressSpaceRuns.RunConserves | src/kern/mem/vmm.c:124-531 | over every run of create, map, unmap and destroy: the free frames are the managed frames minus the tables minus the lent frames, with no overlap |
| KernelHalf.MapHeap | src/kern/mem/vmm.c:164-197 | mapping or remapping any page of any root, to any frame, leaves every heap slot of every root as it was |
| KernelHalf.UnmapHeap | src/kern/mem/vmm.c:292-345 | unmapping any page of any root, with or without its frame, does so too |
| KernelHalf.MovesInv | src/kern/mem/vmm.c:164-531 | over every run of creates, maps of any frame anywhere, unmaps of either kind, destroys and other uses of the frame allocator, all roots keep the kernel's own tables in every heap slot |
| KernelHalf.HeapCoherent | src/kern/mem/vmm.c:252-260 | after every such run, any two live address spaces translate every heap address identically |
| KernelHalf.HeapMapSeenByAll | src/kern/mem/vmm.c:252-260 | a heap page mapped through any root is at once mapped to that frame in every live address space |
| AddressSpaceRuns.LifetimeLeavesNoTrace | src/kern/mem/vmm.c:476-531 | create, any lower-half maps and unmaps, destroy: tables, lent frames and bitmap end exactly as they began |
| AddressSpaceClose.DropLeafClosed | src/kern/mem/vmm.c:507-514 | freeing one mapped frame inside the destroy loop is invisible in the closed-form result |
| AddressSpaceClose.DropTableClosed | src/kern/mem/vmm.c:515-527 | freeing an emptied table inside the destroy loop is invisible in the closed-form result |
| AddressSpaceClose.DropRootCloses | src/kern/mem/vmm.c:529-530 | with the lower half gone, freeing the root completes the closed form |
| DirectMap.MapHugeRefines | src/kern/mem/vmm.c:199-219 | a 2 MiB mapping replaces the translation of exactly its own 2 MiB |
| DirectMap.DirectStep | src/kern/mem/vmm.c:230-232 | one turn of the direct-map loop extends the exact range by 2 MiB |
| DirectMap.DirectMeaning | src/kern/mem/vmm.c:226-232 | with n pages mapped, HHDM_START + p translates to p for every p below n * 2 MiB, by a present, writable, kernel-only 2 MiB entry |
| DirectMap.MapPageSole | src/kern/mem/vmm.c:234-241 | mapping the kernel image leaves the direct map alone |
| DirectMap.CopyBootSole | src/kern/mem/vmm.c:243-250 | filling absent slots from the bootloader's table leaves the direct map alone |
| DirectMap.KernelStep | src/kern/mem/vmm.c:237-239 | one turn of the kernel image loop: its page translates to where it was loaded, the pages before it stay |
| DirectMap.PopulateSole | src/kern/mem/vmm.c:252-260 | pre-populating heap slots leaves the direct map alone |
| Vmm.PageTableManager.TakeFrame | src/kern/mem/vmm.c:124-127 | takes the lowest free frame; NULL exactly when there is none, when it is frame 0, or, where the model stops, when it lies above 4 GiB |
| Vmm.PageTableManager.TranslateAddress | src/kern/mem/vmm.c:134-162 | the four-level walk in memory computes the abstract translation |
| Vmm.PageTableManager.NextTable | src/kern/mem/vmm.c:179-192 | one level of descent: the table below, created when absent; it fails only with no frame below 4 GiB left |
| Vmm.PageTableManager.TopTable | src/kern/mem/vmm.c:165-176 | the top level follows or creates the slot, and writes a new kernel-half slot through to the kernel's own table |
| Vmm.PageTableManager.MapAt | src/kern/mem/vmm.c:164-197 | the stores of a map yield exactly the abstract mapping, and the page has exactly the rights asked for; it fails exactly when that does, and only with no frame below 4 GiB left |
| Vmm.PageTableManager.TableEmpty | src/kern/mem/vmm.c:283-290 | the scan answers whether all 512 entries are zero |
| Vmm.PageTableManager.ReclaimPath | src/kern/mem/vmm.c:332-344 | the nested frees are exactly the abstract reclaim |
| Vmm.PageTableManager.UnmapAt | src/kern/mem/vmm.c:292-345 | the stores of an unmap yield exactly the abstract unmapping |
| Vmm.PageTableManager.CreateSpace | src/kern/mem/vmm.c:476-481 | the new root gets the lowest free frame; every kernel-half address translates in it as in the kernel, no lower-half address is mapped, no other root changes, and the invariant holds for the next call; NULL exactly when there is no frame to take |
| Vmm.PageTableManager.MapAnonAt | src/kern/mem/vmm.c:372-376 | one anonymous page: frame and mapping together keep the invariant of all spaces, with the rights asked for; on failure the frame taken is lost, neither free nor a table nor lent |
| Vmm.PageTableManager.UnmapAnonAt | src/kern/mem/vmm.c:387-392 | one frame-freeing unmap in memory is the abstract one and keeps the invariant of all spaces |
| Vmm.PageTableManager.FreeLeaves | src/kern/mem/vmm.c:507-514 | the innermost destroy loop empties a page table and returns its frames |
| Vmm.PageTableManager.FreeDirectory | src/kern/mem/vmm.c:503-518 | the next loop out empties a directory: every frame and page table below it is free, nothing outside it moved |
| Vmm.PageTableManager.FreePointers | src/kern/mem/vmm.c:499-522 | the next loop out does the same for a pointer table |
| Vmm.PageTableManager.FreeLowHalf | src/kern/mem/vmm.c:495-527 | the outermost loop clears the whole lower half of a root |
| Vmm.PageTableManager.DestroySpace | src/kern/mem/vmm.c:494-531 | destroying a space, whatever is mapped in it, leaves exactly the closed form: its tables and every managed frame it mapped are free, nothing else moved, and every other root translates as before; the invariants hold for the next call |
| Vmm.PageTableManager.OneLife | src/kern/mem/vmm.c:372-531 | in memory: create a space, map and unmap any pages of it in any order, destroy it; unless the frames run out, tables, lent frames and bitmap end as they began |
| Vmm.PageTableManager.MapHugeAt | src/kern/mem/vmm.c:199-219 | the stores of a 2 MiB map yield exactly the abstract one; it fails only with no frame below 4 GiB left |
| Vmm.PageTableManager.BuildDirectMap | src/kern/mem/vmm.c:223-232 | the loop maps every 2 MiB page below its bound |
| Vmm.PageTableManager.CopyBootSlots | src/kern/mem/vmm.c:243-250 | every kernel-half slot that was zero is the bootloader's, every other one is as it was, so every page mapped before keeps its translation |
| Vmm.PageTableManager.PopulateHeap | src/kern/mem/vmm.c:252-260 | every heap slot that was absent holds a new table that lets everything through, every other slot is as it was, and every page mapped before keeps its translation |
| DirectMap.FilledPresent | src/kern/mem/vmm.c:230-250 | the slots of the direct map and of the kernel image are present before the bootloader's slots are copied, so none of those is taken over there |
| Vmm.PageTableManager.Init | src/kern/mem/vmm.c:221-275 | for every mem_high up to the 8 TiB of the direct map: HHDM_START + p translates to p for all p below max(mem_high, 4 GiB), every byte of the kernel image and the trampoline page to where it was loaded, and the invariant of all later runs holds; it fails only when no frame below 4 GiB is left, and never with 2 free ones per 2 MiB page, 3 per kernel page and 68 more; apart from the direct map and the kernel image every slot is the bootloader's, with a table added to each absent heap slot |
| Pmm.LowestRunUnique | src/kern/mem/pmm.c:34-45 | first fit has one answer |
| Pmm.AddressExact | src/kern/mem/pmm.c:40-40 | the 32-bit product names the frame if and only if the frame is below 4 GiB; otherwise it names the frame a multiple of 4 GiB below |
| Pmm.FrameAllocator.TryReserve | src/kern/mem/pmm.c:17-32 | succeeds exactly when the whole run is free and in range, and then takes exactly it; otherwise no bit changes |
| Pmm.FrameAllocator.Falloc | src/kern/mem/pmm.c:34-45 | takes the lowest free run of the length asked, in spite of the full-byte skip; fails only when there is none |
| Pmm.FrameAllocator.Ffree | src/kern/mem/pmm.c:47-56 | frees exactly the frames of the range that exist |
| Pmm.Init | src/kern/mem/pmm.c:58-113 | for any memory map: exactly when start-up panics; otherwise the free set is exactly the usable frames without frame 8 and, if and only if all of them are usable, without the bitmap's own frames |
| Pmm.AlignedBitmapReserved | src/kern/mem/pmm.c:78-107 | in a page-aligned entry the bitmap's frames are always reserved |
| Pmm.UnalignedBitmapLost | src/kern/mem/pmm.c:93-107 | a memory map whose bitmap stays allocatable |
| Pmm.TakeExact | src/kern/mem/pmm.c:34-45 | an allocation keeps what callers hold, by the addresses returned to them, disjoint, inside the pool and complete if and only if its run starts below 4 GiB |
| Pmm.LiveNeverOverlap | src/kern/mem/pmm.c:17-56 | over every run of allocations and frees by address: at every point no frame is held twice, held and free, or lost, if and only if every run taken starts below 4 GiB |
| BoundaryTags.RunTiles | src/kern/mem/liballoc.c:204-228 | the tags of a host run in split_right order are exactly those cut from it, and their sizes add up to its pages |
| BoundaryTags.SplitTiled | src/kern/mem/liballoc.c:204-228 | splitting keeps every run tiled |
| BoundaryTags.JoinTiled | src/kern/mem/liballoc.c:176-202 | melting neighbours keeps every run tiled |
| BoundaryTags.AddRunTiled | src/kern/mem/liballoc.c:236-276 | a new run is tiled by its one tag |
| BoundaryTags.DropRunTiled | src/kern/mem/liballoc.c:462-483 | giving a whole run back keeps the others tiled |
| FreeLists.InsertOk | src/kern/mem/liballoc.c:140-161 | pushing a tag on its bucket keeps all bucket lists doubly linked and disjoint, with index naming the list |
| FreeLists.RemoveOk | src/kern/mem/liballoc.c:163-173 | unlinking a tag from anywhere keeps them so |
| HeapModel.ExponentMeaning | src/kern/mem/liballoc.c:42-70 | 2^n <= size < 2^(n+1) from 256 bytes up, -1 exactly below |
| HeapModel.FitsAbove | src/kern/mem/liballoc.c:302-341 | every free tag that satisfies a request lies in the bucket the search starts from or a higher one |
| HeapModel.HeapPromises | src/kern/mem/liballoc.c:140-228 | in every valid heap: runs tiled exactly, a tag is in the list of bucket i once exactly when its index is i, no two neighbours free, l_completePages counts the free whole runs and is at most 5 |
| HeapModel.LiveAreasApart | src/kern/mem/liballoc.c:391-391 | a live user area stays in its run and misses every tag header and every other live area |
| HeapModel.TakeInv | src/kern/mem/liballoc.c:349-355 | taking a tag for use keeps the heap valid, the count of whole runs included |
| HeapModel.PutInv | src/kern/mem/liballoc.c:486-493 | returning a merged tag to its bucket keeps the heap valid |
| HeapModel.CutInv | src/kern/mem/liballoc.c:204-228 | cutting a used tag in two keeps the heap valid |
| HeapModel.MergeInv | src/kern/mem/liballoc.c:176-202 | merging an unlinked tag with its right neighbour keeps the heap valid |
| HeapModel.ShrinkInv | src/kern/mem/liballoc.c:462-483 | giving a free whole run back to the host keeps the heap valid |
| Heap.GetExp | src/kern/mem/liballoc.c:46-70 | the shifting loop returns the n with 2^n <= size < 2^(n+1), or -1 exactly below 256 bytes |
| Heap.Allocator.InsertTag | src/kern/mem/liballoc.c:140-161 | the head, next and prev writes put the tag at the front of its bucket and leave every other list as it was |
| Heap.Allocator.RemoveTag | src/kern/mem/liballoc.c:163-173 | the head, next and prev writes take the tag out of its bucket, wherever it stood, and leave every other list as it was |
| Heap.Allocator.MeltLeft | src/kern/mem/liballoc.c:176-186 | the free left neighbour swallows the tag; live areas otherwise untouched |
| Heap.Allocator.AbsorbRight | src/kern/mem/liballoc.c:189-202 | the tag swallows its free right neighbour |
| Heap.Allocator.Coalesce | src/kern/mem/liballoc.c:437-454 | afterwards the tag has no free neighbour, and no other live area changed |
| Heap.Allocator.Free | src/kern/mem/liballoc.c:410-502 | exactly the one live area ends; a call to the host names a run that is still outstanding by its own address and page count, and is made only while five others stand by |
| Heap.Allocator.Retire | src/kern/mem/liballoc.c:457-493 | a whole run goes back to the host if and only if five free ones of its bucket stand by; anything else is linked into its bucket |
| Heap.Allocator.FindTag | src/kern/mem/liballoc.c:306-335 | a fitting tag from the lowest bucket that has one, or NULL exactly when no free tag of the whole heap fits |
| Heap.Allocator.SplitTag | src/kern/mem/liballoc.c:204-228 | the tail becomes a free tag of its own; live areas stay |
| Heap.Allocator.AllocateNewTag | src/kern/mem/liballoc.c:236-276 | a host answer becomes a run of one tag; a refusal changes nothing |
| Heap.Allocator.TakeTag | src/kern/mem/liballoc.c:349-355 | the tag found leaves its list and the count of whole runs stays right |
| Heap.Allocator.Serve | src/kern/mem/liballoc.c:357-387 | the area is recorded, and no remainder worth splitting is left behind it |
| Heap.Allocator.Malloc | src/kern/mem/liballoc.c:280-404 | exactly one new live area of the size asked; the host is asked if and only if no free tag anywhere fits; NULL if and only if it then refuses |
| RegionModel.TakeMeaning | src/kern/mem/vmm.c:64-122 | the addresses handed out were unused; after the call they and nothing else are newly used |
| RegionModel.TakeMerged | src/kern/mem/vmm.c:103-117 | handing out leaves no two neighbouring free regions |
| RegionModel.CoalesceMeaning | src/kern/mem/vmm.c:452-466 | merging keeps the tiling and the used addresses and leaves no free neighbours |
| RegionModel.ReleaseMeaning | src/kern/mem/vmm.c:395-451 | a release frees exactly its pages, all of which were used, or nothing when no region holds them or no node is left |
| RegionModel.ReleaseTiles | src/kern/mem/vmm.c:387-467 | a release keeps the tiling if and only if it is not strictly inside a region with a node to spare |
| RegionModel.TakeThenRelease | src/kern/mem/vmm.c:64-467 | handing pages out and releasing them restores the list exactly |
| RegionModel.RunOk | src/kern/mem/vmm.c:64-467 | over every run whose releases are of wholes, prefixes or suffixes, the list tiles HEAP_START to HEAP_END without free neighbours |
| Regions.InsertLinked | src/kern/mem/vmm.c:103-114 | linking a spare node behind another replaces one region by two in list order |
| Regions.MergeLinked | src/kern/mem/vmm.c:454-461 | absorbing a successor joins two regions and leaves the emptied node outside the list |
| Regions.RegionList.constructor | src/kern/mem/vmm.c:268-274 | start-up: one free region that is the whole heap |
| Regions.RegionList.AllocNode | src/kern/mem/vmm.c:28-35 | never a node of the list; NULL exactly when all 1024 are in it |
| Regions.RegionList.TakePages | src/kern/mem/vmm.c:64-122 | first fit: the lowest region that fits, 0 exactly when none does or no node is left |
| Regions.RegionList.CutMiddle | src/kern/mem/vmm.c:428-446 | a release from the middle leaves the new node pointing at itself |
| Regions.RegionList.GiveUp | src/kern/mem/vmm.c:395-451 | the search finds the first region in use that holds the pages and splits it |
| Regions.RegionList.MergeList | src/kern/mem/vmm.c:453-466 | the merging loop; on a list that loops at its end it empties the last node and ends the list there |
| Regions.RegionList.ReleasePages | src/kern/mem/vmm.c:387-467 | the list invariant survives if and only if the release is not from the middle with a node to spare; the resulting list in every case |
| RingArithmetic.SlotOfCounter | src/drivers/virtio/virtqueue.c:134-137 | for a power-of-two size, a slot computed from the wrapped 16-bit index is the slot of the unbounded counter |
| RingArithmetic.CountersEqual | src/drivers/virtio/virtqueue.c:162-166 | 16-bit indices less than 2^16 apart are equal exactly when the counters are |
| VirtqueueModel.AllocDescInv | src/drivers/virtio/virtqueue.c:94-107 | allocating a descriptor keeps the partition of all descriptors into free, held and in flight |
| VirtqueueModel.FreeDescInv | src/drivers/virtio/virtqueue.c:109-116 | freeing a held descriptor keeps that partition |
| VirtqueueModel.StoreSlotFree | src/drivers/virtio/virtqueue.c:134-135 | the ring store never overwrites a slot the device has not read |
| VirtqueueModel.StoreInv | src/drivers/virtio/virtqueue.c:134-135 | the ring store alone, before avail->idx moves, keeps the queue invariant |
| VirtqueueModel.PublishInv | src/drivers/virtio/virtqueue.c:137-137 | moving avail->idx hands the chain over and keeps the queue invariant |
| VirtqueueModel.SubmitInv | src/drivers/virtio/virtqueue.c:131-139 | submitting a chain keeps the queue invariant: its descriptors become the device's and its head the newest entry of the available ring |
| VirtqueueModel.TakeExact | src/drivers/virtio/virtqueue.c:131-139 | the device's index test tells exactly whether something is unread, and what it then reads is the oldest unread submission |
| VirtqueueModel.PollExact | src/drivers/virtio/virtqueue.c:151-173 | the driver's index test tells exactly whether something is unpolled, and what it reads is the oldest such completion |
| VirtqueueModel.PollInv | src/drivers/virtio/virtqueue.c:162-168 | polling keeps the queue invariant: the chain polled is done and every other completion is still due |
| VirtqueueModel.DevCompleteInv | src/drivers/virtio/virtqueue.c:157-173 | a completion by a device that follows section 2.7 of VIRTIO 1.2 keeps the queue invariant, overwrites no completion not yet polled, and is not lost |
| VirtqueueRuns.InitialInv | src/drivers/virtio/virtqueue.c:54-63 | set-up establishes the queue invariant for every power of two up to 32768 |
| VirtqueueRuns.RunInv | src/drivers/virtio/virtqueue.c:94-173 | every interleaving of driver and conforming device keeps the queue invariant; every chain queued is still to be read and every one completed still to be polled |
| VirtqueueRuns.PollsInOrder | src/drivers/virtio/virtqueue.c:157-173 | over any run, however often the indices wrap, polls return each completion once, in publication order |
| VirtqueueRuns.Partition | src/drivers/virtio/virtqueue.c:94-129 | following next from free_head for free_count steps gives distinct descriptors; these, the held ones and the in-flight chains are disjoint and cover 0..size-1 |
| VirtqueueRuns.FreeChainInv | src/drivers/virtio/virtqueue.c:118-129 | freeing a completed, polled chain keeps the invariant |
| VirtqueueRuns.StoredHeadStays | src/drivers/virtio/virtqueue.c:131-139 | any device steps may fall between the two stores of a submission; the announcement is then as good as before |
| VirtqueueRuns.OwnCompletion | src/drivers/storage/block/virtio_blk.c:116-120 | from an idle queue, after a submission and any device steps: if there is a completion to poll, there is one, and it is that of the chain submitted |
| VirtqueueRuns.DeviceHasIt | src/drivers/virtio/virtqueue.c:157-173 | a request alone in flight and not yet polled is at the device if and only if last_used_idx equals used.idx |
| VirtqueueRuns.FreeAfterTimeout | src/drivers/storage/block/virtio_blk.c:119-128 | from an idle queue, after a submission and any device steps: freeing the chain leaves descriptors both free and at the device if and only if last_used_idx still equals used.idx |
| Virtqueue.SplitQueue.constructor | src/drivers/virtio/virtqueue.c:54-63 | the initial free chain holds every descriptor, once |
| Virtqueue.SplitQueue.Allocate | src/drivers/virtio/virtqueue.c:94-107 | a descriptor nobody else holds, cleared, or -1 exactly when none is free |
| Virtqueue.SplitQueue.Release | src/drivers/virtio/virtqueue.c:109-116 | the descriptor returns to the head of the free chain; out-of-range indices are ignored |
| Virtqueue.SplitQueue.ReleaseChain | src/drivers/virtio/virtqueue.c:118-129 | every descriptor of the chain, and no other, becomes free |
| Virtqueue.SplitQueue.SubmitHead | src/drivers/virtio/virtqueue.c:131-139 | the chain becomes the device's newest unread submission |
| Virtqueue.SplitQueue.PollOnce | src/drivers/virtio/virtqueue.c:157-173 | the oldest unpolled completion's id and length, or nothing exactly when there is none |
| Virtqueue.SplitQueue.AllocateThree | src/drivers/storage/block/virtio_blk.c:85-95 | three distinct free descriptors, or no descriptor changes hands |
| Virtqueue.SplitQueue.BlkSubmit | src/drivers/storage/block/virtio_blk.c:85-117 | header, sector and status at their places in the DMA page, writable by the device exactly as the direction demands, submitted as one chain; refused exactly with fewer than three free descriptors |
| Virtqueue.SplitQueue.BlkFinish | src/drivers/storage/block/virtio_blk.c:119-123 | with one request in flight and something to poll: the poll returns the request's own head, its three descriptors are free again, and the queue is idle |
| BlockDriver.HeaderReads | src/drivers/storage/block/virtio_blk.c:71-84 | type and sector number read back from the 16 header bytes |
| BlockDriver.BlockDevice.Prepare | src/drivers/storage/block/virtio_blk.c:71-84 | header, status 0xFF and, for a write, the sector are in the DMA page |
| BlockDriver.BlockDevice.Transfer | src/drivers/storage/block/virtio_blk.c:71-140 | on an idle queue: refused exactly with fewer than three free descriptors; otherwise the result is the device's answer to the type, sector number and, on a write, bytes of the caller, a read returns the sector it sent, and the queue is idle with all descriptors back |
| Mailbox.HandlerServesHolder | src/smp/smp_main.c:129-188 | while the handler works, the request in the mailbox is that of the sender holding its lock, which spins with its frame alive, so the copy reads what that sender asked for |
| Mailbox.CallInv | src/smp/apreq.c:38-53 | a new request, with its frame on the sender's stack, keeps the protocol invariant |
| Mailbox.SenderStepInv | src/smp/apreq.c:15-34 | every store, wait and lock operation of a sender keeps the protocol invariant, whatever the other senders and the processor are doing |
| Mailbox.InterruptInv | src/smp/smp_main.c:129-139 | delivery of the interrupt, wherever interrupts are on, keeps the protocol invariant |
| Mailbox.MainInv | src/smp/smp_main.c:242-419 | every step of the main loop keeps the protocol invariant, the start and end of a function included |
| Mailbox.HandleInv | src/smp/smp_main.c:139-188 | every step of the handler keeps the protocol invariant, for all four kinds of request and unknown ones |
| Mailbox.DecisionsStand | src/smp/smp_main.c:139-188 | a request is decided once: no step changes or withdraws a decision |
| Mailbox.RunInv | src/smp/apreq.c:6-36 | every run keeps the protocol invariant, all decisions and all requests |
| Mailbox.StartsAtMostOnce | src/smp/smp_main.c:385-412 | over every interleaving, each function started is that of a distinct accepted RUN with that RUN's argument, and a RUN once refused never starts |
| Mailbox.SenderReturnsAnswered | src/smp/apreq.c:26-34 | a sender leaves only after its own request was decided; the processor never waits for a lock it holds itself |
| Mailbox.AcceptedNotDropped | src/smp/smp_main.c:112-123 | an accepted RUN stays armed until the main loop takes it; only a RUN accepted after a STOP replaces it |
| Mailbox.PauseQuiets | src/smp/smp_main.c:161-169 | a served PAUSE stops whatever was running |
| Mailbox.PausedStaysIdle | src/smp/smp_main.c:161-188 | until the next PAUSE, CONT or STOP a paused processor starts no function and enters no process |
| Mailbox.RunDecided | src/smp/smp_main.c:139-160 | at its check the handler refuses a RUN if and only if the processor is not waiting; otherwise it goes on to copy the request |
| Mailbox.RunIsServed | src/smp/smp_main.c:129-160 | a RUN of a function delivered to a waiting processor: whatever the senders do meanwhile, it is accepted after five steps of the processor and, if no further interrupt comes, its function runs with its argument after twelve and the processor waits again after fifteen |
| Mailbox.StateIsSet | src/smp/smp_main.c:139-188 | whatever the senders do meanwhile, if no further interrupt comes: after six steps of the processor a PAUSE, CONT or STOP delivered has set the state it asks for, and a RUN to a processor that is not waiting is refused and leaves state and armed function as they were |
| Mailbox.SendingArrives | src/smp/apreq.c:6-36 | with the mailbox free and interrupts on, the stores of a sender and its interrupt bring the processor into the handler with that request to serve and nothing else of the processor changed |
| Mailbox.SentRunStarts | src/smp/apreq.c:6-36 | end to end: a RUN of a function sent to a waiting processor with interrupts on and a free mailbox runs with its argument after twelve steps of the processor, if no further interrupt comes |
| Mailbox.AnsweredLeaves | src/smp/apreq.c:26-34 | once done is stored the sender can leave and the mailbox is free |
| ProcessModel.RankedReaches | src/scheduler/new_process.c:226-254 | a falling rank along parent links gives every live process a path to init through live processes |
| ProcessModel.ReachesRanked | src/scheduler/new_process.c:226-254 | conversely, processes that all reach init through live parents can be ranked, so the rank says no more than that |
| ProcessModel.CreatedRanked | src/scheduler/new_process.c:112-254 | creating a process in a reused slot keeps the tree |
| ProcessModel.EndedRanked | src/usr/syscalls/ssc_proc/end.c:9-23 | a death with its reparenting keeps the tree |
| ProcessModel.EndedParks | src/usr/syscalls/ssc_proc/wait.c:10-22 | everyone parked on their own child, or on any child, is woken with its pid when it dies, and nobody stays parked on it |
| ProcessModel.WaitAnyNeverParks | src/usr/syscalls/ssc_proc/wait.c:49-55 | once a child of w is dead, on every run that does not reuse its slot each wait of w for any child finds a dead one, and w is not parked |
| ProcessModel.WokenExactly | src/usr/syscalls/ssc_proc/wait.c:10-47 | a death wakes a blocked process if and only if it is the parent and waits for the dying process or any; a wait for someone else's child is not ended by that child's death |
| ProcessModel.EndedExactly | src/usr/syscalls/ssc_proc/end.c:9-23 | what a death does to every slot: the dead one is given up, its live children go to init, its waiting parent is woken with its pid, all else is as before |
| ProcessModel.CreatorIsWoken | src/usr/syscalls/ssc_proc/wait.c:10-47 | a process that creates another and waits for the pid it was given is woken with that pid when that process dies, over any run in between in which neither of them dies and no old sleep of the waiter runs out |
| ProcessModel.RunInv | src/usr/syscalls/ssc_proc/wait.c:10-62 | over every run of creates, deaths, waits of both kinds and sleeps: every live process reaches init, no one is still parked on a dead child of their own, and no one is parked on any child while one is dead |
| Processes.ProcessTable.NewProcess | src/scheduler/new_process.c:112-261 | the lowest unused slot, live and not blocked, with the creator as parent and its user ids (0 for the first process), all other slots as before; -EFULL exactly when there is no slot, any other refusal exactly when loading or memory fails, and the tree kept |
| Processes.ProcessTable.ReparentChildren | src/usr/syscalls/ssc_proc/wait.c:24-30 | exactly the live children move to init |
| Processes.ProcessTable.WakeWaiter | src/usr/syscalls/ssc_proc/wait.c:10-22 | at most the parent is unblocked, with the child's pid as its result |
| Processes.ProcessTable.EndProc | src/usr/syscalls/ssc_proc/end.c:9-23 | the whole death of a process, by kill, exit or fault: every slot afterwards in terms of the slots before, with tree and waiters right |
| Processes.ProcessTable.Kill | src/usr/syscalls/ssc_proc/end.c:25-43 | exactly who may kill whom, and the error code of every refusal; a refusal changes nothing |
| Processes.ProcessTable.WaitFor | src/usr/syscalls/ssc_proc/wait.c:32-47 | for a given pid: parks the caller or reaps, refused exactly for a bad pid, an unused slot or oneself |
| Processes.ProcessTable.WaitForAny | src/usr/syscalls/ssc_proc/wait.c:48-62 | for any child: the lowest slot with a dead child is reaped and returned, or the caller is parked exactly when there is none |
| Processes.ProcessTable.NextProc | src/scheduler/scheduler.c:83-120 | the cyclically first eligible slot after the current one, itself last, or -ENOPROC exactly when none is eligible; the slot returned is live and not blocked afterwards, its sleep ended if it slept, and no other slot changes |
| Processes.ProcessTable.Switch | src/scheduler/scheduler.c:124-167 | the current process becomes the one chosen |
| Processes.SleepsUntil | src/scheduler/scheduler.c:104-106 | a sleeper may be chosen exactly from its time on, and a sleep until time 0 is never ended |
| Processes.ChosenNearer | src/scheduler/scheduler.c:83-120 | if p is runnable, a turn picks p or brings the cyclic distance to p strictly down |
| Processes.BoundedWaiting | src/scheduler/scheduler.c:83-167 | a process runnable at every turn runs within 255 turns, whatever else changes |
| Processes.NextProcCore | src/smp/smp_main.c:212-240 | another processor's choice: cyclically first, free at that moment, never its own; -1 exactly when there is none |
| BlockCache.ReplayRestores | limine-binary/limine.c:328-334 | the log replayed newest first restores the original bytes from any state that agrees with them outside the log |
| BlockCache.LogAppend | limine-binary/limine.c:467-497 | saving the bytes seen before a write, over any overlap with earlier writes, keeps the log good for undoing |
| BlockCache.Device.constructor | limine-binary/limine.c:233-264 | a device with block 0 cached, nothing written and an empty log |
| BlockCache.Device.Flush | limine-binary/limine.c:266-285 | afterwards the disk is the byte array a reader sees |
| BlockCache.Device.CacheBlock | limine-binary/limine.c:287-312 | the visible bytes do not change; it fails exactly when the block is not wholly on the device, and then the cache stays right if and only if nothing was cached or the tail read holds the first bytes of the cached block |
| BlockCache.StaleTail | limine-binary/limine.c:300-307 | a device on which a failed read leaves a clean cached block wrong |
| BlockCache.Device.Read | limine-binary/limine.c:445-465 | what a plain byte array would hold, for any offset, length and block size |
| BlockCache.Device.WriteBytes | limine-binary/limine.c:495-516 | the visible array is updated at exactly the written range; every other disk byte is as before or as it was visible |
| BlockCache.Device.Write | limine-binary/limine.c:467-522 | succeeds exactly with log space left and the range on the device; on either outcome the log undoes all that was written |
| BlockCache.Device.ReverseLog | limine-binary/limine.c:328-334 | the entries end up newest first, through the second array, with nothing lost |
| BlockCache.Device.Uninstall | limine-binary/limine.c:524-574 | with the cache dropped first: succeeds exactly when every entry lies on the device, and then the disk holds the entries replayed in order |
| BlockCache.Device.Rollback | limine-binary/limine.c:328-574 | from any point an install stopped at, the device is byte for byte as it was |
| Cpio.FieldRoundTrip | tools/mkinitrd.py:14-15 | a number survives its header field if and only if it is below 2^32 |
| Cpio.CpioHex | src/kern/initramfs.c:29-39 | the 32-bit shift-and-add loop computes the number its digits stand for |
| Cpio.HeaderFields | tools/mkinitrd.py:18-25 | the header is 110 bytes with mode, file size and name size where the importer looks |
| Cpio.CharsOfText | tools/mkinitrd.py:43-44 | the length of a string is the number of characters in its UTF-8 bytes |
| Cpio.AsciiFits | tools/mkinitrd.py:43-44 | for names in ASCII the length written is the length in bytes |
| Cpio.NextExact | tools/mkinitrd.py:37-46 | the importer looks for the next member where it begins if and only if the name's characters and bytes align alike and a directory or link has no data; otherwise it looks too early |
| Cpio.ParseOne | src/kern/initramfs.c:64-88 | then the record at the front of an archive is the one packed there |
| Cpio.DerailedArchive | src/kern/initramfs.c:64-88 | with a name one alignment step short, or a symbolic link, anywhere in the archive: the members before it are read and the import ends in an error right behind it |
| Cpio.ParsePack | tools/mkinitrd.py:37-75 | if each name fits and no link is packed, reading an archive gives back the packed records in order and stops at the trailer |
| RamfsModel.Make | src/drivers/storage/fs/ramfs.c:95-103 | a new inode number was not in use, and no inode in use changes |
| RamfsModel.GrowthIndex | src/drivers/storage/fs/ramfs.c:144-152 | a full directory grows at the index its entries end at |
| RamfsModel.WithEntryAppends | src/drivers/storage/fs/ramfs.c:119-161 | linking appends exactly one entry |
| RamfsModel.LookupExact | src/drivers/storage/fs/ramfs.c:230-245 | a directory finds a name exactly when the tree has that path, and then its inode |
| RamfsModel.LinkRepresents | src/drivers/storage/fs/ramfs.c:119-161 | linking a new inode where the tree has nothing adds just that path |
| RamfsModel.ResolvesAll | src/drivers/storage/fs/ramfs.c:230-245 | every path of the tree resolves, by lookups from the root, to its inode |
| RamfsModel.MountedRepresents | src/drivers/storage/fs/ramfs.c:357-410 | a fresh mount is the tree with only a root |
| RamfsModel.SplitJoin | src/kern/initramfs.c:101-112 | splitting a joined path gives it back, up to 64 components |
| Unpacking.BuiltStep | src/kern/initramfs.c:114-159 | each listed item fits where its predecessors left the tree |
| Unpacking.PackUnpack | tools/mkinitrd.py:37-75 | packing the listing of any tree of files and directories whose names fit and unpacking it builds exactly that tree: every item, and nothing else but directories on the way |
| Ramfs.SplitPath | src/kern/initramfs.c:101-112 | the in-place split yields the components |
| Ramfs.ReadMember | src/kern/initramfs.c:64-89 | the member at an offset, the trailer, or an error, exactly as the format says |
| Ramfs.RamDisk.constructor | src/drivers/storage/fs/ramfs.c:357-410 | mounting yields the tree with only a root, which lists itself as . and .. |
| Ramfs.RamDisk.FindFreeIno | src/drivers/storage/fs/ramfs.c:13-42 | the hinted scan finds the first unused slot from the hint on, wrapping, else grows the table |
| Ramfs.RamDisk.MkIno | src/drivers/storage/fs/ramfs.c:95-103 | the inode number was unused, the inode is empty with the mode asked, and no other inode changes |
| Ramfs.RamDisk.LookupName | src/drivers/storage/fs/ramfs.c:230-245 | the inode of the first used entry of that name, or none exactly when there is no such entry; in a directory of the tree, what the tree has there |
| Ramfs.RamDisk.MkLink | src/drivers/storage/fs/ramfs.c:119-161 | the entry lands in a free slot or at the end, growing if need be |
| Ramfs.RamDisk.Write | src/drivers/storage/fs/ramfs.c:292-315 | the bytes are stored, the file grows as needed, all other bytes stay |
| Ramfs.RamDisk.Read | src/drivers/storage/fs/ramfs.c:276-290 | the file's bytes from the offset, cut off at its size |
| Ramfs.RamDisk.MkdirOne | src/kern/initramfs.c:47-59 | the directory exists afterwards, created only if the tree had nothing there |
| Ramfs.RamDisk.MkFile | src/kern/initramfs.c:139-149 | the tree gains exactly that file with its mode and bytes |
| Ramfs.RamDisk.ImportMember | src/kern/initramfs.c:90-162 | one member changes the tree as its path and kind say |
| Ramfs.RamDisk.Import | src/kern/initramfs.c:61-166 | the members before the trailer or an error are all in the tree; the result tells which |
| Ramfs.RamDisk.ReadPath | src/drivers/storage/fs/ramfs.c:230-290 | looking a path of the tree up and reading it gives the file's bytes |
| Ramfs.RamDisk.ImportPacked | src/kern/initramfs.c:168-193 | end to end: after mounting a packed tree, reading each file's path returns its bytes; its inode has its mode, and each directory's path leads to a directory of mode 0755 |
| UserStack.ImageDecodes | src/usr/loader.c:284-360 | from the stack pointer: count, every argument and environment string byte for byte, both NULLs, all auxiliary entries |
| UserStack.FinalAlignment | src/usr/loader.c:325-328 | the final pointer modulo 16 is the strings' bottom modulo 8, so it is 16-byte aligned if and only if the string bytes are a multiple of 8 |
| UserStack.Stack.PushStrings | src/usr/loader.c:298-315 | the strings end up in order, at the recorded addresses |
| UserStack.Stack.PushPointers | src/usr/loader.c:330-360 | the words end up in ABI order |
| UserStack.Stack.Build | src/usr/loader.c:282-360 | the built stack decodes to the first 16 arguments, the environment and the auxiliary vector, which is the five entries passed, then (6, USER_END), (7, USTACK) and (0, 0) |
| Counterexamples.MmioNotShared | src/kern/mem/vmm.c:252-260 | from start-up: a new address space, one kernel mapping, and two live spaces that translate MMIO_START differently |
| Counterexamples.FreesFrameZero | src/kern/mem/vmm.c:315-324 | from start-up: one map and one unmap of its unmapped neighbour make frame 0 free |
| Counterexamples.HighFrameAddress | src/kern/mem/pmm.c:34-45 | from a memory map with a free frame 4 GiB above another: two allocations return the same address |
| Counterexamples.HeapReleaseLoses | src/kern/mem/vmm.c:428-446 | from the initial region list, three pages taken and the middle one released: the list no longer tiles the heap |
| Counterexamples.WaiterStays | src/usr/syscalls/ssc_proc/wait.c:10-47 | a process that waited for its sibling is still blocked after the sibling's death |
| Counterexamples.MisalignedStack | src/usr/loader.c:324-328 | a one-letter argument leaves the stack pointer off a multiple of 16 |
| Counterexamples.TimeoutFreesBusy | src/drivers/storage/block/virtio_blk.c:119-128 | a submitted request, not yet looked at by the device, whose descriptors a time-out would free |
| Counterexamples.ReapedTwice | src/usr/syscalls/ssc_proc/wait.c:49-55 | from start-up: init's only child dies, and two waits for any child both return it |
| Counterexamples.AccentedNameFails | tools/mkinitrd.py:43-44 | the archive of one file named by one accented letter, whatever its content, is refused |
| Counterexamples.SymbolicLinkFails | tools/mkinitrd.py:41-46 | the archive of one symbolic link is refused |

## Left out
- Hardware: port and memory-mapped I/O, interrupt controllers, timers, TLB and CR3 operations, and the drivers other than the virtqueue.
- ext2, the VFS layer, networking, ACPI, the terminal and framebuffer code and the user programs.
- The user branch of `vmm_ffreer`, whose range is user space while its list covers only the kernel heap.
- `vmm_map_pages` and `vmm_unmap_pages` beyond one page at a time, and MAP_CONT runs.
- Pmm.Init: memory maps that end at or above 16 TiB, where the frame count no longer fits in 32 bits.
- Pmm.FrameAllocator.TryReserve: assumes stidx + cnt below 2^32, where the C sum would wrap.
- Vmm.PageTableManager.TakeFrame: when the lowest free frame lies above 4 GiB the model stops, because the code goes on with the frame the wrapped address names.
- Vmm.PageTableManager.Init: when the frames below 4 GiB run out the model stops, because the code does not check and goes on with a null table; memory beyond 8 TiB, whose direct map would run into MMIO_START, and kernel images above 1 GiB are not modelled.
- Vmm.PageTableManager.DestroySpace: spaces in which a page maps a live table, whose frame the code would free under its owner.
- Heap.Allocator.Free: pointers that are not live; the code returns early when the word where the magic number should be differs, and the model has no memory outside tags to read it from.
- Heap.Allocator.Malloc: sizes with two pages of slack below 2^32; `realloc` and `calloc` are not modelled.
- Heap.Allocator.SplitTag: the size field of a new free tag, which the code leaves unset, is 0 in the model.
- Regions.RegionList.ReleasePages: takes the address and the page count not to wrap past 2^64.
- Virtqueue.SplitQueue.constructor: queue sizes that are not powers of two, which section 2.7 of VIRTIO 1.2 rules out and the code does not check.
- Virtqueue.SplitQueue.ReleaseChain: chains that were not completed and polled, which the code frees after a time-out; `VirtqueueRuns.FreeAfterTimeout` says what that does.
- Virtqueue.SplitQueue.BlkFinish: the time-out branch.
- BlockDriver.BlockDevice.Transfer: the time-out branch, and devices that answer with anything but one sector and one status byte.
- Mailbox.SenderStepInv: senders that are themselves interrupted while they spin; an application processor spins with interrupts on and its own handler leaves through the main loop, so it would not come back to the request it sent.
- Mailbox.MainInv: sections the processor runs with interrupts off on data only it touches are single steps, and requests to the boot processor are not modelled.
- Processes.ProcessTable.NewProcess: file descriptors, working directory, group ids and register contents.
- Processes.ProcessTable.WaitFor: the exit code.
- Processes.NextProcCore: that two processors do not pick the same process; the code drops the table lock before it records the choice.
- BlockCache.Device.Write: I/O errors and failed allocations; `bios_install` itself and the uninstall data file.
- Ramfs.RamDisk.ImportMember: the members Ramfs.RamDisk.Import leaves out.
- Ramfs.RamDisk.Import: symbolic links, device nodes, archives that are not trees (a file used as a directory, a file listed twice), and failed allocations.
- Cpio.ParsePack: names that are not UTF-8, on which the packer stops with an error.
- `ramfs_rmlink`, `ramfs_rmino` and `ramfs_trunc`; directories in the model are only appended to.
- UserStack.Stack.Build: stacks that do not fit in 128 pages, which the code does not check.
- Loading of ELF segments, `kexecve`, and everything under `src/usr` besides the calls named above.
