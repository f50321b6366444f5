# FlameOS memory manager, file layer and boot loader in Dafny

FlameOS is a small x86-64 operating system. This project models the parts of it that carry the most
state and proves what they keep, over single calls and over whole runs:

- **Page tables** (`PageTree`, `PageMap`, `PageDemand`, `Paging`, `PageRuns`, `InitPaging`). `map_page`
  builds four-level tables and calls itself to identity-map each table it allocates, while the outer walk
  is half done. The model keeps a ghost tree beside table memory. The tables always form a tree of used
  frames, the recursion terminates because free frames run down, a call succeeds exactly if some number of
  free frames covers the tables missing for them, and after any run the structure behaves like a flat map
  from pages to entries in which every table is mapped to itself. `init_paging` is such a run, and the
  model says which pages are mapped when it returns.
- **Frame bitmap** (`FrameBitmap`, `KernelEntry`). The packed bitmap, indexed in step with a list of
  regions, refines a set of outstanding frames, and hands them out in a fixed order.
- **Heap** (`Spans`, `Heap`, `HeapRuns`, `HeapPages`, `Coalesce`, `RefreshExact`, `HeapTables`).
  First-fit allocation over fixed tables. The invariant says that each heap byte has exactly one owner
  (a live block, a free entry, or the lost ranges), which gives separation and conservation at once;
  `refresh_freespace` keeps it exactly for free tables that meet a condition on the table before the call.
- **Heap on pages** (`HeapMap`, `HeapPaging`, `HeapFrames`). The mapping loop of `malloc_heap` and the page release
  of `free` on top of heap tables, page tables and bitmap.
- **FAT32** (`FatRead`, `FatVolume`, `LongName`), **boot** (`ElfLoader`, `Descriptors`,
  `MemoryMap`), **file positions** (`FilePosition`) and **integer printing** (`Itoa`).

State that the source changes in place is a class with fields or arrays that methods change; each such
method is specified by a pure function or relation, and the theorems are lemmas about those. Integers
are unbounded; where 64- or 32-bit wrap-around matters it is written out. Masks, shifts and the bit
operators are defined bit by bit in `Words`, and `PageTree` and `FrameBitmap` prove that the division,
remainder and halving used in the models are these operators.

## Side conditions and findings

- The freemap consists of aligned, disjoint regions below 2^48 that do not hold frame 0
  (`FrameBitmap.WellFormed`): frame 0 doubles as "none", and a table above 2^48 would not be reachable
  under its own address.
- `map_page` does not check for exhausted memory. The model stops at the first failed allocation and
  reports it. `PageDemand.SucceedsIff` is the exact condition on the state before the call, and
  `PageDemand.FreshCallNeedsThree` a state in which every call fails.
- Table memory is reached under physical addresses. Once CR3 is loaded the source reaches tables through
  the tables: `PageRuns.TablesResolveToThemselves` says that these pointers lead to the same place, and
  `PageRuns.FreeFrameMappedIff` that the frame about to be cleared is mapped under its own address at that
  moment only if an earlier call mapped it there (kernel/arch/x86_64/memory/paging.c:16-19).
  `PageRuns.ClearedFrameMappedIff` carries this to every depth of the recursion, for the moments that
  `Paging.AddressSpace.MapPage` records, and `InitPaging.StartAndMap` shows that in the first call after
  `init_paging` no frame is mapped when it is cleared.
- `malloc_heap` maps nothing when the block does not start on a page boundary, because `map_page`
  ignores unaligned addresses (kernel/memory/memory.c:46-47). `HeapPaging.MallocHeap` states exactly
  when the bytes of a block resolve, and how many frames such a block draws and loses;
  `HeapFrames.TwoRequests` says when the second of two blocks resolves, and `InitPaging.StartAndAllocate`
  gives requests after which it does not.
- `init_paging` maps the freemap and the frame bitmap to the first pages of the kernel heap, and
  `init_malloc` makes those same pages free (kernel/arch/x86_64/memory/paging.c:95-112).
  `HeapFrames.FirstKernelRequest` shows that the first allocation returns them, still on their frames. The
  last page of the kernel heap is the kernel's stack (kernel/arch/x86_64/memory/paging.c:83).
- `init_paging` maps one page of the frame bitmap and one of the freemap, whatever their sizes
  (kernel/arch/x86_64/init.h:100, kernel/arch/x86_64/memory/paging.c:105). `InitPaging.BitmapMappedIff`: all
  of the bitmap is mapped exactly for at most 32768 frames. `InitPaging.FreemapMappedIff`: the freemap is read
  right exactly for at most 256 entries, since the bitmap lies behind its first page.
- The boot loader takes the bitmap, the kernel's stack and its page tables from memory it has already listed
  as free (bootloader/boot.c:125-174). `KernelEntry.EntryQueue` and `KernelEntry.AllocateFromEntry` state
  when the kernel hands such a frame out again. In particular heap page 1 then has no frame of its own after
  `init_paging` (`InitPaging.BitmapFrameIsLost`), so the distinctness of frames in `HeapPaging.Serve` and
  `HeapPaging.KernelHeapRun`, which holds at the end only if it held at the start, does not hold for the
  kernel heap of a real boot. That every block resolves does. `InitPaging.StartAndFree` is a run after which
  that frame is free and still mapped, and a page table is free if `init_paging` had drawn it for one.
- `InitPaging` is about machines none of whose frames has an address that `init_paging` maps elsewhere
  (`InitPaging.FramesApart`), which holds for every machine with less than 64 GB of memory.
- The userspace heap starts at 1 MB, so frames have addresses inside it, and a new table there takes over the
  heap page at its address. `HeapPaging.MallocHeap` and `HeapPaging.Serve` say exactly when the pages still
  have frames of their own. The results about the kernel heap ask that no frame address lies inside it
  (`HeapMap.Outside`).
- After `init_paging` a request that needs a new table clears unmapped memory. `HeapPaging.MallocHeap` says
  which requests need none.
- `free` says that it releases a page "if there is no other memory in the page"
  (kernel/memory/memory.c:111). `HeapPages.SharedPageReleased` states exactly when it releases a shared
  page, and `HeapPages.UnsharedPageReleasedIff` exactly when it releases an unshared one: the last page of
  a longer block of whole pages, for one, is kept.
- `free` leaves the pages it releases mapped. `HeapFrames.FreeHeap` states which frames become free, that
  the page tables stay used frames exactly if none of them is given back, and that the heap pages have
  frames of their own afterwards exactly if they had before and none of those frames is managed by the
  bitmap. `HeapFrames.FreeSecondBlock` gives back a table.
- `refresh_freespace` loses free bytes when it reaches an empty entry that keeps the start address of
  another one. `RefreshExact.PassKeepsBytesIff` is the exact condition on the table before the call, and
  `Coalesce.StaleIsReachable` a run after which it does not hold.
- Long names have up to 255 characters, but only names of up to 247 fit the buffer they are assembled in
  (`LongName.WritesInsideIff`).
- `fseek` with `SEEK_END` moves the position and then returns -1, because the case falls through
  (kernel/fs/FS.c:122-126). `fread` does not move the position.
- `fat_setup` subtracts 2 from the data offset in sectors of 512 bytes, and `fat_read` adds the cluster number
  times the sectors per cluster without scaling it (kernel/fs/FAT.c:26-27, 87, 106). Clusters are read where
  the FAT specification has them exactly if a cluster is one sector of 512 bytes
  (`FatVolume.PlacesAgreeIff`, `FatVolume.ReadsFilesIff`).
- boot counts the freemap entries, allocates pages for them, and rereads the memory map before it fills
  them (bootloader/boot.c:118-134). The number of descriptors stays that of the first map, so a shorter
  second map leaves stale entries at the end. `MemoryMap.FillFreemap` states exactly when the writes stay in
  the pages and when the counted entries are the regions; `MemoryMap.RegionMissed`,
  `MemoryMap.FillLeavesPages` and `MemoryMap.StaleEntryLeavesPages` are inputs for which they do not.
- The map read again is not shrunk again (bootloader/boot.c:125), and `MemoryMap.FillFreemap` reads its bytes
  at steps of 40 for every size of a descriptor. `MemoryMap.RereadNeedsShrink`: its
  descriptors are read for every content exactly if they are 40 bytes long or there is at most one.

## Model

| member | source | states |
|---|---|---|
| FrameBitmap.FramesDistinct | kernel/memory/memory.c:139-142 | in a well-formed freemap no frame has two bit positions, and every frame is aligned, non-zero and below 2^48 |
| FrameBitmap.FrameAt | kernel/memory/memory.c:139-150 | the bit index that runs in step with the regions names the frame at that place |
| FrameBitmap.SwitchThenTest | kernel/memory/memory.c:143-152 | setting or clearing one bit of a word changes that bit and no other |
| FrameBitmap.TestIsMask | kernel/memory/memory.c:143 | testing a bit by halving is masking the word with 1 << bit |
| FrameBitmap.SetIsOr | kernel/memory/memory.c:152 | setting it is OR with 1 << bit |
| FrameBitmap.ClearIsAnd | kernel/memory/memory.c:177 | clearing it is AND with the complement of 1 << bit |
| FrameBitmap.OperatorBits | kernel/memory/memory.c:143-177 | what AND and OR do to each bit |
| FrameBitmap.ShiftBits | kernel/arch/x86_64/memory/paging.c:10-13 | what the right shift does to each bit |
| FrameBitmap.TakeFrame | kernel/memory/memory.c:143-153 | setting the first clear bit moves exactly its frame from the free to the used set |
| FrameBitmap.QueueIsFree | kernel/memory/memory.c:139-156 | the frames in allocation order are exactly the free ones |
| FrameBitmap.QueueHead | kernel/memory/memory.c:143-153 | setting the first clear bit takes the head of that order and leaves the rest as it is |
| FrameBitmap.Bitmap.Alloc | kernel/memory/memory.c:132-159 | the lowest-index free frame is returned and only its bit flips; 0 and no change exactly when no frame is free |
| FrameBitmap.Bitmap.Release | kernel/memory/memory.c:164-188 | a freemap frame becomes free and only its bit is cleared; an unaligned address changes nothing |
| FrameBitmap.OutstandingFramesDiffer | kernel/memory/memory.c:132-188 | over any interleaving of calls, a frame is handed out again only after it was given back |
| PageTree.AddressIsMask | kernel/arch/x86_64/memory/paging.h:8-12 | masking with ADDR_MASK is the division and remainder of PageTree.Address |
| PageTree.EntryIsMaskAndFlags | kernel/arch/x86_64/memory/paging.c:39 | masking an address and setting the flags is PageTree.Entry |
| PageTree.PresentIsFlag | kernel/arch/x86_64/memory/paging.c:15 | masking with FLAG_PRESENT is PageTree.Present |
| PageTree.OffsetIsMask | kernel/arch/x86_64/memory/paging.c:63 | masking with 0xFFF is the offset in the page |
| PageTree.IndexIsShift | kernel/arch/x86_64/memory/paging.c:10-13 | the four shifted and masked indices are the indices of the page at the four levels |
| PageTree.IndexOfAddress | kernel/arch/x86_64/memory/paging.c:10-13 | the four indices are the four base-512 digits of the page number |
| PageTree.SlotsDeterminePage | kernel/arch/x86_64/memory/paging.c:38-39 | two pages use the same slot of the same last-level table only if they are equal |
| PageTree.LinkKeepsTree | kernel/arch/x86_64/memory/paging.c:15-19 | hanging a cleared frame under an absent entry keeps the tables a tree, whose entries above the last level are the masked address with the three flags or 0 |
| PageTree.UpperEntries | kernel/arch/x86_64/memory/paging.c:15-36 | in a tree every table below the PML4 hangs in its parent with its masked address and the three flags, and the other entries above the last level are 0 |
| PageTree.LinkKeepsLeaves | kernel/arch/x86_64/memory/paging.c:15-19 | it changes the translation of no page |
| PageTree.SetLeafKeepsTree | kernel/arch/x86_64/memory/paging.c:38-39 | writing a last-level entry keeps the tree and sets the entry of that page |
| PageTree.SetLeafKeepsLeaves | kernel/arch/x86_64/memory/paging.c:38-39 | it changes the entry of no other page |
| PageMap.LinkThenMap | kernel/arch/x86_64/memory/paging.c:15-20 | the frame condition across the re-entrant call: hanging up a frame and mapping it to itself only adds tables that are wanted and maps them to themselves |
| PageMap.HungUp | kernel/arch/x86_64/memory/paging.c:16-19 | the half-built state in which the nested call starts is a tree of used frames |
| PageMap.GrowsTransitive | kernel/arch/x86_64/memory/paging.c:15-36 | the three table steps of one call compose |
| PageMap.GrowsThenSet | kernel/arch/x86_64/memory/paging.c:38-39 | the final write gives the effect of the whole call |
| PageMap.ClearsCompose | kernel/arch/x86_64/memory/paging.c:15-36 | what one level clears and what the next one clears are cleared with the entries of the start |
| PageMap.ClearsLink | kernel/arch/x86_64/memory/paging.c:16-19 | clearing a frame, hanging it up and the nested call clear the new tables with the entries of the start |
| Paging.AddressSpace.FindPhysAddr | kernel/arch/x86_64/memory/paging.c:42-64 | the walk answers exactly what the page's last-level entry says, and never leaves table memory |
| Paging.AddressSpace.MapPage | kernel/arch/x86_64/memory/paging.c:7-40 | the page gets its entry, every other page keeps its own except that new tables are mapped to themselves, the frames drawn are exactly the new tables, tables stay a tree, the recursion terminates; at the moment a new table is cleared, its address has the entry of the start of the call |
| Paging.AddressSpace.Descend | kernel/arch/x86_64/memory/paging.c:15-36 | one level of the walk, including the nested call |
| Paging.AddressSpace.constructor | kernel/arch/x86_64/memory/paging.c:70-71 | a cleared PML4 is a valid address space that maps nothing |
| PageRuns.MappedPageResolves | kernel/arch/x86_64/memory/paging.c:7-64 | after a call every byte of the page resolves to the frame's byte, and to phys + off exactly if phys is below 2^52 |
| PageRuns.OtherPagesResolve | kernel/arch/x86_64/memory/paging.c:7-64 | every other address resolves as before, or to itself if it lies in a new table |
| PageRuns.NestedCallStart | kernel/arch/x86_64/memory/paging.c:15-19 | at the start of a nested call the only additional table not yet mapped to itself is the frame being mapped |
| PageRuns.PendingAfterMap | kernel/arch/x86_64/memory/paging.c:15-39 | exactly which tables are not mapped to themselves after a call: one becomes so only if the caller maps its address elsewhere |
| PageDemand.FramesDrawn | kernel/arch/x86_64/memory/paging.c:15-36 | a call draws one frame for each table it adds, and only for tables missing on the walks for its page and its frames |
| PageDemand.AtMostThreeFrames | kernel/arch/x86_64/memory/paging.c:15-36 | at most three frames when the walks for the drawn frames exist |
| PageDemand.EnoughFrames | kernel/arch/x86_64/memory/paging.c:15-36 | a call succeeds if at least as many frames are free as tables are missing |
| PageDemand.NeedsCompose | kernel/arch/x86_64/memory/paging.c:15-36 | what a later step of a call needs comes on top of what the earlier ones built: no shorter part of the free frames is enough for both |
| PageDemand.SucceedsIff | kernel/arch/x86_64/memory/paging.c:15-36 | a call succeeds if and only if for some k the first k free frames are as many as the tables missing on the walks for its page and for them, and it draws the least such k |
| PageDemand.FreshCallNeedsThree | kernel/arch/x86_64/memory/paging.c:15-36 | no number of frames is enough on a cleared PML4 with fewer than three free frames |
| PageRuns.MapExactly | kernel/arch/x86_64/memory/paging.c:7-40 | map_page with aligned arguments: success exactly under that condition, the least number of frames drawn from the head of the free ones, every byte of the page resolved, and every table below the PML4 hung up with its address and the three flags |
| PageRuns.RunImplementsFlatMap | kernel/arch/x86_64/memory/paging.c:7-40 | in every run in which no caller maps a freemap address elsewhere, each table is mapped to itself and every other page has the entry of the last call for it |
| PageRuns.FramesStay | kernel/arch/x86_64/memory/paging.c:15-39 | in every state of every run the managed frames are those of the start, and every table below the PML4 is a used one of them |
| PageRuns.Execute | kernel/arch/x86_64/memory/paging.c:66-105 | any sequence of map_page and phys_page_alloc calls on a cleared PML4 is such a run, while frames last; in each of its states the tables form a tree of used frames, and each table hangs in its parent with its masked address and the three flags |
| PageRuns.TablesResolveToThemselves | kernel/arch/x86_64/memory/paging.c:22-38 | in such a run every byte of every table resolves to itself, so the pointers followed through the tables lead to the tables |
| PageRuns.FreeFrameMappedIff | kernel/arch/x86_64/memory/paging.c:16-17 | between calls, a free frame is mapped under its own address if and only if an earlier call of the run mapped it |
| PageRuns.ClearedFrameMappedIff | kernel/arch/x86_64/memory/paging.c:15-36 | the same inside a call, at every depth of the recursion: for each moment MapPage records at which a frame is cleared for a new table |
| PageRuns.DrawnAreTables | kernel/arch/x86_64/memory/paging.c:15-36 | in a run of map_page calls alone, every frame drawn is a table |
| InitPaging.InitTargets | kernel/arch/x86_64/memory/paging.c:73-105 | for every page, exactly which calls of init_paging are about it: those for the kernel image, the stack, the frame buffer, one page of the bitmap and the freemap |
| InitPaging.LowFramesAreApart | kernel/arch/x86_64/memory/paging.c:73-105 | with less than 64 GB of memory no frame has an address that init_paging maps elsewhere |
| InitPaging.PageEntries | kernel/arch/x86_64/memory/paging.c:66-113 | after init_paging a page that is no table is mapped if and only if one of those calls is about it, and has the entry of that call |
| InitPaging.InitImage | kernel/arch/x86_64/memory/paging.c:73-93 | after init_paging every byte of the kernel image, the frame buffer and the stack page resolves to its memory, and every page that is none of these, none of the three heap pages and no table is not mapped |
| InitPaging.HeapEntries | kernel/arch/x86_64/memory/paging.c:66-113 | after init_paging exactly the first two pages and the last page of the kernel heap are mapped, to the freemap, the bitmap and the stack |
| InitPaging.BitmapMappedIff | kernel/arch/x86_64/memory/paging.c:95-112 | every bitmap word the allocator can touch is mapped if and only if at most 32768 frames are managed |
| InitPaging.FreemapMappedIff | kernel/arch/x86_64/memory/paging.c:105-112 | every freemap entry the allocator reads is the boot loader's if and only if there are at most 256 |
| InitPaging.BitmapFrameIsLost | kernel/arch/x86_64/memory/paging.c:95-102 | if the bitmap's frame is in the freemap, heap page 1 has no frame of its own after init_paging: it is free or a table |
| InitPaging.ClearedFrameUnmapped | kernel/arch/x86_64/memory/paging.c:15-36 | a frame cleared for a new table in the first map_page call after init_paging is not mapped when it is cleared |
| InitPaging.StartAndMap | kernel/arch/x86_64/memory/paging.c:7-113 | init_paging and one map_page call: so for every frame the call clears |
| InitPaging.InitPaging | kernel/arch/x86_64/memory/paging.c:66-113 | init_paging on a cleared PML4, while frames last: these results for the state it leaves |
| InitPaging.StartAndAllocate | kernel/memory/memory.c:12-50 | after init_paging and requests of 100 and 9000 bytes, the second block does not resolve |
| InitPaging.StartAndFree | kernel/memory/memory.c:62-126 | after init_paging, requests of 4096 and 8192 bytes and a free of the second block, the bitmap's frame is free and still mapped, and a table of the tree is free if init_paging had drawn that frame |
| Heap.InitialInv | kernel/memory/memory.c:249-254 | after init_malloc each heap byte is free exactly once |
| Heap.Separation | kernel/memory/memory.c:12-109 | live blocks and non-empty free entries are pairwise disjoint |
| Heap.InsideHeap | kernel/memory/memory.c:12-109 | they lie inside the heap |
| Heap.MallocKeepsInv | kernel/memory/memory.c:17-41 | malloc_heap keeps one owner per byte; bytes are lost only when the block table is full, and then exactly the requested number |
| Heap.MallocSucceedsIff | kernel/memory/memory.c:17-41 | it succeeds if and only if the request is positive, some entry is large enough and some block slot is empty; the block starts at the lowest such entry |
| Heap.MallocExactly | kernel/memory/memory.c:12-41 | the whole state after malloc_heap: which free entry is shortened and by how much, and which block slot takes the bytes or that they are lost |
| Heap.FreeKeepsInv | kernel/memory/memory.c:72-108 | free keeps one owner per byte, also across stale empty entries |
| Heap.GiveBackExactly | kernel/memory/memory.c:84-108 | the whole free table after free: the first entry beside the block grows to cover both, else the first empty slot takes the block, else nothing changes |
| Heap.FreeLosesOnlyWhenFull | kernel/memory/memory.c:84-108 | free loses bytes only with a full free table and no neighbouring entry, and then exactly the block |
| Heap.FreePicksTheBlock | kernel/memory/memory.c:73-80 | the slot free finds is the one the block is in |
| Heap.FreeUndoesMalloc | kernel/memory/memory.c:17-108 | freeing the block just allocated restores the blocks and the set of free bytes and loses nothing |
| HeapRuns.ApplyKeepsInv | kernel/memory/memory.c:12-126 | a call of malloc_heap, free or refresh_freespace keeps one owner per byte on both heaps if and only if it is not a refresh of an unsafe free table |
| HeapRuns.RunKeepsInv | kernel/memory/memory.c:12-126 | after every run whose refresh calls find safe tables, each byte of each heap has exactly one owner and the sizes add up to the heap's length |
| HeapRuns.MallocAndFreeAreFair | kernel/memory/memory.c:12-126 | that is every run of malloc_heap and free calls |
| HeapRuns.FreeReachesKernelBlock | kernel/memory/memory.c:62-82 | after every run, freeing a live kernel block clears its slot and leaves the other heap alone |
| HeapRuns.FreeReachesUserBlock | kernel/memory/memory.c:62-82 | the same for the userspace heap |
| HeapRuns.BytesLostOnlyWhenFull | kernel/memory/memory.c:33-41 | after every run, a call that loses bytes of a heap is a malloc on it with a full block table or a free with a full free table |
| HeapRuns.FirstKernelBlock | kernel/memory/memory.c:249-251 | the first kernel block starts at the heap base |
| HeapRuns.FirstUserBlock | kernel/memory/memory.c:12-16 | the first block of the userspace heap starts at 1 MB, and a request for an unknown heap does nothing |
| HeapPages.RemainingBlocksApart | kernel/memory/memory.c:80-82 | in every reachable state the remaining blocks are apart from the one being freed |
| HeapPages.SharingTestIsExact | kernel/memory/memory.c:111-121 | a page of the freed block is in use by another block if and only if it is the first page and sused holds or the last page and eused holds |
| HeapPages.ReleasedPages | kernel/memory/memory.c:122-125 | exactly which pages free gives back |
| HeapPages.SharedPageReleased | kernel/memory/memory.c:111-125 | exactly when a page still in use is given back |
| HeapPages.SharedPageReleasedExample | kernel/memory/memory.c:111-125 | after requests of 100 and 5000 bytes on the kernel heap, freeing the first gives back a page of the second |
| HeapPages.UnsharedPageReleasedIff | kernel/memory/memory.c:122-125 | exactly when a page no other block uses is given back: by the alignment of the block's first and last byte and the place of the page |
| HeapPages.FreedPageIff | kernel/memory/memory.c:72-125 | for every reachable heap and live block, which pages free looks up at their start, by the blocks of the other slots and the alignment of the block's ends; none if the block is lost or the page is not one of its pages |
| Coalesce.PassCoalesces | kernel/memory/memory.c:208-224 | a pass over a clean table keeps the set of free bytes and adds no entry; if it removes none, no two entries are adjacent |
| Coalesce.RepeatedPassesCoalesce | kernel/memory/memory.c:208-224 | at most as many passes as there are entries reach full coalescing, with the same free bytes |
| Coalesce.RoundKeepsBytesIff | kernel/memory/memory.c:210-222 | a round keeps the set of free bytes if and only if its entry is not an empty one with the address of another |
| RefreshExact.PassKeepsBytesIff | kernel/memory/memory.c:208-224 | the whole pass keeps the set of free bytes if and only if each empty entry with the address of another is absorbed before its round by an earlier entry that is not absorbed itself |
| RefreshExact.CleanIsSafe | kernel/memory/memory.c:208-224 | a table without stale empty entries is safe |
| RefreshExact.SafePass | kernel/memory/memory.c:208-224 | then the table stays proper, the sizes add up, and no stale entry is left |
| RefreshExact.RefreshCoalesces | kernel/memory/memory.c:208-224 | after a safe pass, at most as many further passes as there are entries reach full coalescing with the same free bytes |
| RefreshExact.RefreshKeepsInvIff | kernel/memory/memory.c:208-224 | a pass keeps one owner per heap byte if and only if the free table was safe |
| Coalesce.StaleIsReachable | kernel/memory/memory.c:208-224 | on every heap, a run of eight calls after which a pass loses bytes |
| Coalesce.StalePassLosesAll | kernel/memory/memory.c:208-224 | for such a table a pass leaves no free byte |
| HeapTables.Table.constructor | kernel/memory/memory.c:249-254 | the tables init_malloc leaves are valid |
| HeapTables.Table.Reserve | kernel/memory/memory.c:17-41 | the search loops compute Heap.Malloc and keep the invariant |
| HeapTables.Table.Release | kernel/memory/memory.c:72-125 | the loops of free compute Heap.Free and HeapPages.FreedPages and keep the invariant |
| HeapTables.Table.Return | kernel/memory/memory.c:83-108 | the two loops over the free table compute Heap.GiveBack |
| HeapTables.Table.Shared | kernel/memory/memory.c:113-121 | the loop over the block table computes sused and eused |
| HeapTables.Table.Pages | kernel/memory/memory.c:112-125 | the addresses looked up for release, in order |
| HeapTables.Table.Combine | kernel/memory/memory.c:208-224 | the nested loops compute Coalesce.Pass |
| HeapTables.Table.Refresh | kernel/memory/memory.c:208-224 | refresh_freespace on a valid heap leaves it valid if and only if its free table was safe |
| HeapMap.KeptIsMapped | kernel/memory/memory.c:43-48 | a page that keeps its entry or whose address became a table stays mapped, and to which frame |
| HeapMap.HeapKeptTransitive | kernel/memory/memory.c:43-48 | what two calls keep of a heap's pages they keep together |
| HeapMap.RoundKept | kernel/memory/memory.c:46-47 | drawing a frame and mapping a page to it keeps mapped pages, and the pages have frames of their own afterwards only if they had before |
| HeapMap.OwnMeansElsewhere | kernel/memory/memory.c:46-47 | pages with frames of their own at the end: no new table is mapped among them |
| HeapMap.OutsideKeeps | kernel/memory/memory.c:43-48 | with no frame inside the heap, no new table lies there and pages keep their entries |
| HeapMap.NoTableNeeded | kernel/arch/x86_64/memory/paging.c:15-36 | a call for a page whose last-level table exists draws no frame |
| HeapPaging.MapBlock | kernel/memory/memory.c:43-48 | the mapping loop keeps mapped pages and maps every page of an aligned block; the pages then have frames of their own exactly if they had before and no new table is mapped among them, and there is no new table exactly if the last-level tables of the block existed; for an unaligned block it succeeds exactly if there are as many free frames as unmapped pages, and draws that many without mapping one |
| HeapPaging.MallocHeap | kernel/memory/memory.c:12-50 | while frames last, the bytes of the block resolve if and only if it is page aligned or they resolved before; an unaligned block loses one frame for each of its pages that did not resolve; the two equivalences of the loop for aligned blocks |
| HeapPaging.Serve | kernel/memory/memory.c:12-50 | in every run of requests in whole pages every byte of every block resolves, and different heap pages have different frames that are no tables at the end if and only if they had at the start and no new table is mapped among them |
| HeapPaging.KernelHeapRun | kernel/memory/memory.c:249-251 | the same from init_malloc on, for the kernel heap of the source |
| HeapFrames.TwoRequests | kernel/memory/memory.c:12-50 | of the first two blocks on a fresh heap, whatever is mapped, the first resolves, and the second if and only if the first ends on a page boundary or the pages of the second beyond the first were mapped |
| HeapFrames.RestMappedIff | kernel/memory/memory.c:43-49 | when the first m bytes of the heap are mapped, that condition in terms of the two sizes and m |
| HeapFrames.UnresolvedBlock | kernel/memory/memory.c:43-49 | on the kernel heap as init_paging leaves it, after requests of 100 and 9000 bytes the second block does not resolve |
| HeapFrames.FirstKernelRequest | kernel/arch/x86_64/memory/paging.c:95-112 | the first kernel block starts at the heap base, and its pages that were mapped keep their frames, whether or not those are free |
| HeapFrames.StillMappedIff | kernel/memory/memory.c:122-125 | after frames are given back while their pages stay mapped, heap pages have frames of their own if and only if they had before and the bitmap manages none of those frames |
| HeapFrames.OwnFramesAreNoTables | kernel/memory/memory.c:122-125 | heap pages with frames of their own give back no table |
| HeapFrames.FreeHeap | kernel/memory/memory.c:62-126 | free down to the bitmap: exactly the frames behind the page-aligned addresses it looks up become free, and no entry changes; the tables are used frames afterwards if and only if none of them is given back, and the pages have frames of their own if and only if they had before and no managed frame is given back |
| HeapFrames.FreeSecondBlock | kernel/memory/memory.c:62-126 | requests of 4096 and 8192 bytes on a fresh heap and a free of the second block free the frame of the heap's second page, which stays mapped; if that is a table, the tables are not valid any more |
| FatRead.Read | kernel/fs/FAT.c:56-127 | writes exactly the bytes of ReadBytes and nothing else, and terminates |
| FatRead.CopyLoop | kernel/fs/FAT.c:105-123 | the copy loop |
| FatRead.ReadIsSlice | kernel/fs/FAT.c:56-127 | for a chain inside one FAT sector and any cluster size, the bytes written are exactly bytes pointer to pointer + n of the concatenated clusters as the source places them |
| FatRead.ReadByte | kernel/fs/FAT.c:56-127 | each of these bytes on the disk: byte o of cluster i comes from the sector o / 512 places behind the first one of that cluster |
| FatRead.EntryIsNumber | kernel/fs/FAT.c:77-83 | a FAT entry is the number its four bytes stand for |
| FatRead.ClusterIsMask | kernel/fs/FAT.c:122-123 | the test for a data cluster is the source's mask and comparison |
| FatRead.AdvanceTakesLinkIff | kernel/fs/FAT.c:79-84 | while clusters are skipped, the link is taken if and only if it stays in the FAT sector or the entry at the same place of its sector is the same |
| FatRead.LoopTakesLinkIff | kernel/fs/FAT.c:117-121 | in the copy loop the link is taken if and only if it stays in the FAT sector; otherwise the cluster stays |
| FatRead.ChainEndStops | kernel/fs/FAT.c:105-123 | a link in the FAT sector that ends the chain stops the copy loop |
| FatRead.ClusterCopiedAgain | kernel/fs/FAT.c:105-123 | a chain that leaves the FAT sector has its last cluster copied again |
| FatVolume.Places | kernel/fs/FAT.c:26-27 | the FAT is where the FAT specification has it, and the data offset is its first data sector less 2 |
| FatVolume.PlacesAgreeIff | kernel/fs/FAT.c:26-106 | clusters are read where the FAT specification has them for all cluster numbers if and only if a cluster is one sector of 512 bytes; otherwise cluster 2 or 3 is misplaced |
| FatVolume.ReadsFilesIff | kernel/fs/FAT.c:56-127 | fat_read writes the file's bytes by the FAT specification, for every disk, chain inside one FAT sector and range, if and only if a cluster is one sector of 512 bytes |
| FatVolume.MisreadFile | kernel/fs/FAT.c:87-106 | otherwise a disk and a file of one cluster whose first byte is misread |
| FatVolume.FileByte | kernel/fs/FAT.c:16-27 | each byte of a file by the FAT specification, on the disk |
| LongName.Assemble | kernel/fs/FAT.c:163-186 | the assembly loop writes each entry's 13 characters at its place and terminates the string |
| LongName.PartIsMask | kernel/fs/FAT.c:166-173 | the part of an entry and the byte of a character are the source's masks |
| LongName.LongNameRoundTrip | kernel/fs/FAT.c:163-186 | splitting any name of up to 247 characters and assembling the entries in any order gives the name back |
| LongName.WritesInsideIff | kernel/fs/FAT.c:163-186 | all writes of the assembly stay inside the 256-byte buffer if and only if the name has at most 247 characters |
| LongName.StrCmp | libs/libc/string/strcmp.c:1-9 | 0 if and only if the C strings are equal; otherwise the sign is that of the first difference of signed characters |
| LongName.MatchLongName | kernel/fs/FAT.c:163-194 | the entries of a name match a path component if and only if the component is that name |
| ElfLoader.Measure | bootloader/boot.c:85-100 | the memory size is the end of some loadable segment less the start of some, and no two loadable segments are further apart; 1 if none loads |
| ElfLoader.LoadedByte | bootloader/boot.c:110-111 | byte k of a loaded segment is its byte k in the file, or 0 past the file's bytes |
| ElfLoader.WritesFitIff | bootloader/boot.c:92-113 | for segments whose file bytes exist and fit their memory, every byte the loading loop writes lies in the allocated pages if and only if the range of the segments that write does |
| ElfLoader.SegmentsFitIff | bootloader/boot.c:92-113 | the same, segment by segment |
| ElfLoader.EmptySegmentFits | bootloader/boot.c:107-113 | an empty loadable segment below the kernel base does not count towards the range |
| ElfLoader.LinkedAtBaseFits | bootloader/boot.c:92-102 | it does when the lowest segment starts at the kernel base |
| ElfLoader.LoadSegment | bootloader/boot.c:110-111 | file bytes, then zeros, and no other byte changes |
| ElfLoader.Load | bootloader/boot.c:107-113 | afterwards every segment byte is its file byte or zero, and other bytes are untouched |
| ElfLoader.LoadKernel | bootloader/boot.c:79-113 | measuring, allocating and loading together: the image is the least number of whole pages that holds the span of the loadable addresses, and every segment is loaded |
| MemoryMap.Shrink | bootloader/boot.c:37-45 | the in-place copy leaves the original descriptors' first 40 bytes, for every stride of at least 40 |
| MemoryMap.ShrunkAt | bootloader/boot.c:37-45 | entry i is the first 40 bytes of descriptor i |
| MemoryMap.FillFreemap | bootloader/boot.c:116-134 | on the bytes of the buffer before and after the second read, in entries of 40 bytes for every size of a descriptor: the writes stay in the allocated pages if and only if the regions then in the buffer fit the pages counted for the first map, and the counted entries are those regions if and only if there are as many |
| MemoryMap.FreemapAt | bootloader/boot.c:129-134 | the region of a normal descriptor has its address and its pages, and stands behind those of the normal descriptors before it |
| MemoryMap.FreemapCount | bootloader/boot.c:117-119 | there is one region for each normal descriptor |
| MemoryMap.BuffersOf | bootloader/boot.c:116-134 | every two maps of 40-byte descriptors are the content of a buffer before and after the second read, stale entries of a longer first map included |
| Descriptors.ParsedEncoded | bootloader/boot.h:51-59 | reading the bytes of descriptors gives the descriptors back |
| Descriptors.ParseFields | bootloader/boot.h:51-59 | which bytes of a descriptor decide its type, its address and its number of pages |
| Descriptors.ParsedAgain | bootloader/boot.c:125 | a shorter map of 40-byte descriptors is followed by the entries of the one before |
| MemoryMap.StaleRegions | bootloader/boot.c:125-134 | a shorter second map is followed by the regions of the first map's last descriptors |
| MemoryMap.StaleEntryLeavesPages | bootloader/boot.c:125-134 | a shorter second map whose regions fit, for which the fill loop still writes past the pages |
| MemoryMap.RegionMissed | bootloader/boot.c:118-134 | two maps for which the last region is missing from the counted entries |
| MemoryMap.FillLeavesPages | bootloader/boot.c:118-134 | two maps for which the fill loop writes past the pages |
| MemoryMap.ReadsShrunkMap | bootloader/boot.c:125-134 | the loops after the second read see the head of every descriptor if and only if the buffer happens to begin with the shrunk map |
| MemoryMap.RereadNeedsShrink | bootloader/boot.c:125-134 | that holds for every content of the buffer if and only if descriptors are 40 bytes long or there is at most one |
| MemoryMap.TypeMisread | bootloader/boot.c:125-130 | with descriptors of 48 bytes a normal second descriptor is read with type 0 |
| MemoryMap.SumBlocks | bootloader/boot.c:165-167 | the sum of blocks is the number of bits the allocator can visit |
| MemoryMap.WordBit | kernel/memory/memory.c:143 | bit b of a 32-bit word is bit b % 8 of byte b / 8 |
| MemoryMap.ClearedBitmapIsFree | bootloader/boot.c:164-171 | every word the allocator can touch lies in the allocated pages and every bit it can visit in the cleared bytes |
| KernelEntry.EntryQueue | bootloader/boot.c:125-174 | at kernel entry the free frames in allocation order are all pages of the freemap: a frame taken after the map was last read is among them if and only if it lies in a region |
| KernelEntry.Allocate | kernel/memory/memory.c:132-159 | call number n + 1 returns the frame at place n of that order |
| KernelEntry.AllocateFromEntry | kernel/memory/memory.c:132-159 | from kernel entry on, page j of region i is returned by the call whose number is its place in the regions |
| FilePosition.File.Seek | kernel/fs/FS.c:110-129 | for each kind of seek the position and the returned code, decided on integers although the source compares unsigned values |
| FilePosition.File.Rewind | kernel/fs/FS.c:131-134 | position 0 |
| FilePosition.File.ReadAllowed | kernel/fs/FS.c:92-94 | the subtraction does not wrap, and a request passes exactly if it is positive and ends inside the file |
| FilePosition.PositionInside | kernel/fs/FS.c:110-134 | over every sequence of calls the position is below the size or both are 0 |
| FilePosition.PassedInside | kernel/fs/FS.c:92-94 | the reads of a run that pass lie inside the file |
| FilePosition.Run | kernel/fs/FS.c:92-134 | every sequence of calls follows the integer specification, for the position and for the list of reads that pass |
| Itoa.GetDigits | libs/libc/stdlib/itoa.c:1-10 | the number of digits |
| Itoa.Write | libs/libc/stdlib/itoa.c:12-27 | reading the digits back gives the number, without leading zero, and nothing past the terminator changes |
| Itoa.DigitsRoundTrip | libs/libc/stdlib/itoa.c:20-24 | evaluating the digits gives the number |
| Itoa.CountBounds | libs/libc/stdlib/itoa.c:1-10 | a number lies between the powers of the base that its digit count names |
| Itoa.NoLeadingZero | libs/libc/stdlib/itoa.c:12-27 | the first digit is not zero, except for 0 |
| Itoa.AtMostTwentyDigits | kernel/arch/x86_64/syscall/debug_log.c:24 | a 64-bit number has at most 20 digits in base 10 or more, so 21 bytes suffice |

## Left out

- HeapPaging.MapOne: when no frame is left the source maps frame 0 at the page; the model stops and reports it, and so do HeapPaging.MapBlock and HeapPaging.MallocHeap.
- HeapFrames.FreeHeap: a page whose frame is outside the freemap, or that has none, is excluded when there are more descriptors than freemap entries, since phys_page_free then leaves the table.
- Paging.AddressSpace.MapPage: what happens after a failed frame allocation is not modelled; the source then writes through address 0.
- FatRead.ReadIsSlice: chains that cross a FAT sector are excluded, because the source reloads the buffer before it takes the link; FatRead.AdvanceTakesLinkIff and FatRead.LoopTakesLinkIff say exactly when such a step goes wrong.
- HeapPaging.Serve: runs with free are excluded, because free releases frames without unmapping them; HeapFrames.FreeHeap states exactly when the heap pages have frames of their own after one such call.
- FatRead.Read: when the link leaves the FAT sector at hand, the source reads as many sectors as a cluster has into a buffer of one sector; the model reads one sector there.
- FrameBitmap.Bitmap.Release: aligned addresses outside the freemap are excluded when there are more descriptors than freemap entries, since the walk then leaves the table.
- The bootloader's own `map_page`, which is the kernel's with firmware page allocation.
- `free_pages`, which reads table entries without masking their flags and is not called.
- Directory walking across clusters and the root-size loop of `fat_setup`.
- `fopen`, `fclose`, `aligncheck` and path splitting; file operations are modelled for a valid open file.
- Loading CR3, disk access through ports, interrupts, timers, system calls, firmware calls and graphics.
- The math library and the drawing code.
