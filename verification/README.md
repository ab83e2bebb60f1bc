# Kernel models

A Dafny model of the hard core of a small x86_64 kernel, and proofs about it. Five parts, each following its source
files and, at their borders, each other.

**The heap.** `FixedSizeBlockAllocator` keeps nine lists of free blocks over a first-fit free list whose nodes live
inside the free memory. `HeapSpec` is the heap as a value: free regions, class lists, outstanding allocations with the
bytes set aside for each, and the ranges no list holds any more. `HeapSafety` proves that over every run of calls these
tile the heap exactly, so that nothing overlaps, and when that fails. `HeapExact` says on the lists alone what every
call does, when it is refused, and which bytes never come back. `BlockAllocator` and
`KernelAllocator` carry the calls out on memory words, following the intrusive links, and prove that a node written
into free memory never touches a live allocation.

**Physical memory and page tables.** `MemoryMap` splits, sorts and aligns the firmware's memory map (section 15.1 of the
ACPI Specification); `FrameAllocator` hands out its frames; `BootMemory` joins the two. `PageTable` models the 4-level
tables (section 4.5 of the Intel SDM Vol. 3A) as frames of 512 entries, and `PageWords` shows that the words the code
reads and writes, with indices cut out by shifts, translate as those entries do. `DirectMap` says, from the tables and
the allocator before a call, how mapping a list of 2 MB windows ends and what translates to what afterwards; `Mapping`,
`BootMapping` and `HeapPages` model the boot code that edits the tables and prove that it does exactly that. Frames
need not be in the direct map beforehand: taking one that is not reached yet ends in a fault, and when that happens is
part of the plan.

**The scheduler.** `Scheduler` models add, schedule, yield and wake-up as steps on the current task, the ready queue
and the blocked map. `Interrupts` adds the processor: nested interrupt frames, and the register state that a switch
moves between a frame and a task, or by far return between the processor and a task.

**The keyboard.** `ArrayQueue` is the ring between the keyboard interrupt and one reader, with the reader's pop cut into
its single memory accesses; `Keyboard` is the protocol by which the reader blocks and is woken, down to the interrupt
flag.

**Time.** `Time` compares the (secs, ms, us, ns) arithmetic with plain nanosecond counts, `Ticks` the conversion to
hardware ticks with the true rate, and `Timer` models the alarm queue and the update that the timer interrupt runs,
with the scheduler calls inside it, and the scheduler's own calls, which restart the preemption alarm first.

`Align`, `Extents` and `Basics` hold what several parts share. `Extents` counts how often an address is covered by a
list of ranges; disjointness, containment and byte counts all follow from that one count.

## What turned out not to hold

These properties hold only under a condition. Each has the exact condition and, where that does not show one by itself,
a case that fails.

- *Heap.* When a class list and the free list are both empty, a larger block is scrapped and the retry asks for the
  caller's own layout, not the class size. If the adjusted size is below the class size, freeing the pointer puts a
  block on the class list that is longer than what was set aside for it. `HeapSafety.AllocReleasable` and
  `HeapSafety.DeallocSound` say exactly when, `HeapSafety.SoundThroughout` for whole runs;
  `HeapSafety.OverlapWitness` ends with two live allocations that overlap. Released bytes all come back except
  alignment gaps and what a grant had beyond a block (`HeapExact.RunLoses`, `HeapExact.EveryByteBack`).
- *Ring queue.* A push that arrives while a pop is in flight on an otherwise full ring overwrites the slot being popped
  (`ArrayQueue.PushKeepsFifo`, `ArrayQueue.FifoThroughout`); `ArrayQueue.ClashWitness` is such a run from the empty
  queue, for every size above one.
- *Keyboard.* That a reader blocks only once it has read everything accepted holds at every point of a run exactly if no
  scancode of the run clashes in that way (`Keyboard.ProtocolThroughout`); `Keyboard.BlocksUnread` blocks with scancodes
  unread. What holds regardless is that a blocked reader is named and the next scancode wakes it
  (`Keyboard.NoLostWakeUp`, `Keyboard.NextKeyWakes`).
- *Memory map.* Aligning base and length separately can move the end of a RAM entry up, by less than a page
  (`MemoryMap.AlignedEnd`), and the frame there is then handed out: `BootMemory.OnlyRamExactly` says exactly when all
  frames lie in RAM, `BootMemory.OvershootWitness` shows one that reaches into a reserved entry.
- *Direct map.* Given frames, a window is mapped and nothing else changed exactly if it lies in no 1 GB page and above
  no level-1 table (`Mapping.MapsExactly`). `BootMapping.GigabyteWitness` loses the rest of a gigabyte;
  `BootMapping.CutOffWitness` faults, because the new table was reached through the page it replaces;
  `BootMapping.LevelOneWitness` panics. A frame taken before the direct map reaches it faults (`DirectMap.LinkFaults`,
  `BootMapping.UnreachedWitness`); `DirectMap.SuppliedExactly` says exactly when boot gets through.
- *Regions.* The direct map of a region has all its bytes exactly if aligning base and length separately does not cut it
  short (`Mapping.RegionCovered`); `BootMapping.MissedWitness` misses a page.
- *Far return.* A switch outside interrupts does not save rax, rcx and the segments, and loads rcx from the slot of rdx.
  Over every run, tasks go on with the registers they last ran with exactly if at each switch those of the task chosen
  survive (`Interrupts.OwnThroughout`): on a far return its rcx equals its rdx, and if it was parked by a far return,
  rax, segments and, on an interrupt's return, rcx are those saved before (`Interrupts.SurvivesExactly`). Runs whose
  switches are all those of interrupts meet this. `Interrupts.InterruptThenFarReturn` and `Interrupts.FarReturnTwice`
  are runs from boot that do not.
- *Wake-up.* A woken task is current at once, unless alarms that come due in the wake-up schedule again: then exactly if
  they go all the way round the ready tasks (`Timers.WokenAfterAlarms`).
- *Ticks.* Converting ticks to time never falls short of the true time exactly at the rates `Ticks.Generous` describes;
  converting time to ticks never exceeds it exactly from 10^6 ticks per millisecond on; and the round trip is exact
  exactly at multiples of 10^6.
- *Timer.* Below 10^6 ticks per millisecond the hardware can therefore be armed later than the next alarm
  (`Timers.NeverLateExactly`); `Timers.SlowTimerLate` is sixteen times too late. The runtime that the local APIC's
  interrupt is credited with is the time that truly passed exactly if the count fits 32 bits and the rate has whole
  ticks in the interval's unit (`Ticks.CreditExactly`).

## Model

| member | source | states |
|---|---|---|
| `Align.AlignUp` | kernel/src/memory/mod.rs:19-25 | the least multiple at or above the value |
| `Align.AlignDown` | kernel/src/memory/mod.rs:15-18 | the greatest multiple at or below the value |
| `Extents.CoverIsDisjointness` | kernel/src/memory/kalloc.rs:104-163 | no address covered twice iff the ranges are pairwise disjoint |
| `Extents.TilingConservesBytes` | kernel/src/memory/kalloc.rs:104-163 | ranges that cover a range exactly once have exactly its bytes |
| `HeapSpec.GetIndex` | kernel/src/memory/kalloc.rs:80-83 | the first class that holds both size and alignment; none iff one of them exceeds 2048 |
| `HeapSpec.AllocFromRegion` | kernel/src/memory/kalloc.rs:241-260 | an aligned start inside the region whose rest is empty or holds a node |
| `HeapSpec.FirstFit` | kernel/src/memory/kalloc.rs:219-239 | the first region that can serve the request; none before it can |
| `HeapSafety.AdjustedLayout` | kernel/src/memory/kalloc.rs:200-205 | adjusted sizes and alignments are multiples of 8, hold a node, and cover the request by less than one alignment more |
| `HeapSafety.CarveAligned` | kernel/src/memory/kalloc.rs:262-277 | a carved range is aligned as asked, and every list node stays aligned and large enough: the assertions of `add_free_region` never fire |
| `HeapSafety.AllocSound` | kernel/src/memory/kalloc.rs:111-147 | every allocation, on every path, keeps free regions, class blocks, grants and lost ranges tiling the heap |
| `HeapSafety.AllocReleasable` | kernel/src/memory/kalloc.rs:111-147 | all grants stay large enough for their release iff the call is not a fitting retry with adjusted size below the class size |
| `HeapSafety.DeallocSound` | kernel/src/memory/kalloc.rs:149-162 | a release keeps the tiling iff the grant holds at least the bytes that the release hands to a list |
| `HeapSafety.SoundThroughout` | kernel/src/memory/kalloc.rs:111-162 | over every run, the invariant holds at every point iff every allocation released covers its release |
| `HeapSafety.InitSound` | kernel/src/memory/kalloc.rs:76-78 | a fresh heap meets the invariant |
| `HeapSafety.RunSound` | kernel/src/memory/kalloc.rs:111-162 | without undersized retries every allocation stays releasable and the invariant holds, whichever are released |
| `HeapSafety.SoundMeans` | kernel/src/memory/kalloc.rs:104-163 | the invariant means pairwise disjoint, inside the heap, and bytes adding up to its length |
| `HeapSafety.HeapRuns` | kernel/src/memory/kalloc.rs:76-163 | from a fresh heap over every such run: disjointness, containment, byte conservation, and every live allocation owns at least the bytes asked for |
| `HeapSafety.RetryAlwaysFits` | kernel/src/memory/kalloc.rs:86-147 | with alignment at most 8 the retry is served from the start of the block just scrapped, the rest going to the head of the free list |
| `HeapSafety.UndersizedRetryOverlaps` | kernel/src/memory/kalloc.rs:111-162 | whenever such a retry is undersized, freeing its pointer at once makes a class block overlap a free region |
| `HeapSafety.OverlapWitness` | kernel/src/memory/kalloc.rs:111-162 | six calls on a 64-byte heap that end with two overlapping live allocations |
| `HeapSafety.NullOnlyWhenExhausted` | kernel/src/memory/kalloc.rs:111-147 | for align <= 8 and size <= 2048, null iff the class list is empty, no region fits and every larger class list is empty; never a panic |
| `HeapSafety.FallbackPointersAligned` | kernel/src/memory/kalloc.rs:111-147 | pointers meet the layout's alignment for fallback requests and for alignments up to 8 |
| `HeapExact.ServesExactly` | kernel/src/memory/kalloc.rs:241-260 | a region serves a request at p iff p is the first aligned address in it and the rest is empty or holds a node |
| `HeapExact.AdjustExactly` | kernel/src/memory/kalloc.rs:200-205 | the adjusted layout: alignment at least 8, the size padded to it and at least 16; none iff that exceeds `isize` |
| `HeapExact.LargeRefused` | kernel/src/memory/kalloc.rs:111-147 | a request above 2048 is null iff no region serves it, a panic iff its layout cannot be adjusted, and then nothing changes |
| `HeapExact.LargeServed` | kernel/src/memory/kalloc.rs:262-277 | otherwise it gets the first region that serves it: the rest goes to the front of the list, the gap in front is lost, nothing else changes |
| `HeapExact.ListedAlloc` | kernel/src/memory/kalloc.rs:111-119 | a class with a free block hands out the one released last |
| `HeapExact.FreshAlloc` | kernel/src/memory/kalloc.rs:119-133 | an empty class gets a block cut from the first region that serves one; class 8 keeps the second half |
| `HeapExact.ExhaustedAlloc` | kernel/src/memory/kalloc.rs:111-147 | null, nothing changed, when no region serves a block and no larger class has one |
| `HeapExact.RetryRefused` | kernel/src/memory/kalloc.rs:86-147 | otherwise the next larger class gives up one block, and the call is null iff even then no region serves the layout itself, at any alignment up to 2048 |
| `HeapExact.RetryServed` | kernel/src/memory/kalloc.rs:86-147 | and is served by the first that does |
| `HeapExact.LargeDealloc` | kernel/src/memory/kalloc.rs:279-282 | a release above 2048 puts exactly its bytes at the front of the free list; classes and lost bytes are unchanged |
| `HeapExact.ClassDealloc` | kernel/src/memory/kalloc.rs:149-158 | any other puts the block at the front of its class list; only what the grant had beyond a block is lost |
| `HeapExact.RunLoses` | kernel/src/memory/kalloc.rs:111-162 | over every run no more is lost than alignment gaps and what grants had beyond a block |
| `HeapExact.AllReturned` | kernel/src/memory/kalloc.rs:111-162 | once everything is released, all bytes but those are on the lists again |
| `HeapExact.EveryByteBack` | kernel/src/memory/kalloc.rs:111-162 | all bytes, in runs without alignments above 8 and without a retry that gets other than a block |
| `KernelAllocator.Allocator.constructor` | kernel/src/memory/kalloc.rs:76-78 | one free region, its node written at the base |
| `KernelAllocator.Allocator.AddFreeRegion` | kernel/src/memory/kalloc.rs:207-217 | a vacant range becomes the first free region; only its own bytes are written |
| `KernelAllocator.Allocator.FindRegion` | kernel/src/memory/kalloc.rs:219-239 | walking the links finds and unlinks exactly the first fitting region, writing to free memory only |
| `KernelAllocator.Allocator.FallbackAlloc` | kernel/src/memory/kalloc.rs:262-277 | the linked lists carry out the allocation of the value model; memory outside the free list keeps its contents |
| `KernelAllocator.Allocator.FallbackDealloc` | kernel/src/memory/kalloc.rs:279-282 | the adjusted size of the layout goes back to the free list |
| `KernelAllocator.Allocator.AddBlockNode` | kernel/src/memory/kalloc.rs:104-108 | the node becomes the class list's head; only the block's bytes are written |
| `KernelAllocator.Allocator.ScrapFreeBlocks` | kernel/src/memory/kalloc.rs:86-102 | one block of the smallest larger class with a free block goes to the free list, or nothing changes |
| `KernelAllocator.Allocator.AllocBlock` | kernel/src/memory/kalloc.rs:111-147 | the first attempt: null iff the class list is empty and no region holds a block |
| `KernelAllocator.Allocator.RetryAlloc` | kernel/src/memory/kalloc.rs:111-147 | scrapping and asking again, as in the value model; no byte of a live allocation changes |
| `KernelAllocator.Allocator.Alloc` | kernel/src/memory/kalloc.rs:111-147 | result and lists are those of the value model, no word of a live allocation or outside the heap changes, and all grants stay releasable iff the retry is not undersized |
| `KernelAllocator.Allocator.Dealloc` | kernel/src/memory/kalloc.rs:149-162 | the same for a release of an allocation that covers it; no word of a remaining allocation or outside the heap changes |
| `MemoryMap.FindEntry` | kernel/src/memory/e820_memory_map.rs:7-61 | the first entry that contains the kernel |
| `MemoryMap.ContainsBytes` | kernel/src/memory/mod.rs:57-60 | an entry contains a range iff it has each of its bytes |
| `MemoryMap.SplitCovers` | kernel/src/memory/e820_memory_map.rs:7-61 | splitting covers every byte as often as before, and takes exactly the kernel's bytes out of the usable ones |
| `MemoryMap.SortIsSorted` | kernel/src/memory/e820_memory_map.rs:82-84 | sorted, and a permutation |
| `MemoryMap.SortCovers` | kernel/src/memory/e820_memory_map.rs:82-84 | sorting changes no byte's coverage |
| `MemoryMap.AlignedEnd` | kernel/src/memory/e820_memory_map.rs:7-61 | an aligned entry starts at the first page boundary and ends, exactly: less than a page above the old end, and not above it if the old base or end was aligned; kind and attributes stay |
| `MemoryMap.AlignKeepsOrder` | kernel/src/memory/e820_memory_map.rs:7-61 | aligning keeps RAM ranges sorted, disjoint and clear of a page-aligned kernel |
| `MemoryMap.PreparedIsUsable` | kernel/src/memory/e820_memory_map.rs:7-61 | after init the usable entries are sorted, page-aligned, disjoint and free of every kernel byte |
| `MemoryMap.Map.AddEntry` | kernel/src/memory/e820_memory_map.rs:70-79 | the array holds the old entries with the new one inserted; fails iff the array is full |
| `MemoryMap.Map.FindKernelEntry` | kernel/src/memory/e820_memory_map.rs:7-61 | the loop finds the first entry that contains the kernel |
| `MemoryMap.Map.SortEntries` | kernel/src/memory/e820_memory_map.rs:82-84 | the array holds the sorted entries |
| `MemoryMap.Map.AlignUsable` | kernel/src/memory/e820_memory_map.rs:7-61 | the RAM entries of the array aligned, the others unchanged |
| `MemoryMap.Map.ReserveKernel` | kernel/src/memory/e820_memory_map.rs:7-61 | the entry is replaced by the parts before, of and behind the kernel; fails iff they do not fit |
| `MemoryMap.Map.Init` | kernel/src/memory/e820_memory_map.rs:7-61 | no entry iff none contains the kernel, failure iff the parts do not fit, else the prepared map |
| `FrameAllocation.FrameAllocator.constructor` | kernel/src/memory/mod.rs:114-126 | starts at the first entry holding a frame at the start address |
| `FrameAllocation.FrameAllocator.GetNextFrame` | kernel/src/memory/mod.rs:127-144 | the scan of the value model, cursor included |
| `FrameAllocation.StartIsGood` | kernel/src/memory/mod.rs:114-126 | no entry before the starting one holds a frame at or above the start address |
| `FrameAllocation.NextFindsLeast` | kernel/src/memory/mod.rs:127-144 | each call finds the least frame at or above the cursor, although the entry index lags behind; none only if there is none |
| `FrameAllocation.CallsListFrames` | kernel/src/memory/mod.rs:127-144 | k calls list exactly the first k frames of the map, in order, leaving none out |
| `FrameAllocation.FramesAscend` | kernel/src/memory/mod.rs:127-144 | on any map the frames ascend without overlap |
| `FrameAllocation.NoneForever` | kernel/src/memory/mod.rs:127-144 | after a failed call every later call fails |
| `BootMemory.FramesAvoidKernel` | kernel/src/memory/e820_memory_map.rs:7-61 | every frame ever taken from the prepared map is apart from the kernel and from every other frame |
| `BootMemory.OnlyRamExactly` | kernel/src/memory/e820_memory_map.rs:7-61 | every frame ever taken lies inside a RAM entry iff no RAM entry that its alignment moves past its end has its last page still to be handed out |
| `BootMemory.FramesExactly` | kernel/src/memory/e820_memory_map.rs:7-61 | a page is handed out sooner or later iff it is at or above the start and lies whole inside a RAM entry of the split map, or is the last page of one that overshoots: no page of RAM is left out |
| `BootMemory.OvershootWitness` | kernel/src/memory/e820_memory_map.rs:7-61 | a map whose frame at 0x2000 reaches into the reserved entry behind the RAM |
| `PageTable.EntryRoundTrip` | kernel/src/memory/paging.rs:128-153 | reading an entry word back gives the entry written, and the word is zero iff the entry is not mapped |
| `PageTable.FlagBits` | kernel/src/memory/paging.rs:38-52 | tables are entered as present and writable, 2 MB pages also as huge, which is bit 7 |
| `PageTable.IndexByShifts` | kernel/src/memory/address.rs:50-57 | shifting left past the higher bits and right by 55 gives the index at every level |
| `PageTable.OffsetByShifts` | kernel/src/memory/address.rs:58-67 | shifting left and back gives the offset at every level |
| `PageTable.IndexQuotient` | kernel/src/memory/address.rs:50-57 | the recursive index is the quotient modulo 512 at every level |
| `PageTable.ToPhysIsWalk` | kernel/src/memory/address.rs:70-93 | finding the deepest table and reading its entry equals a walk from the top |
| `PageWords.WordMeans` | kernel/src/memory/paging.rs:105-153 | what every word means at every level by its bits: zero, bit 7, and bits 12 to 51 |
| `PageWords.ReadsTheEntry` | kernel/src/memory/paging.rs:105-134 | reading a word of memory, with the zero test, both masks and the huge bit, gives the entry it encodes, at every level |
| `PageWords.WritesTheEntry` | kernel/src/memory/paging.rs:136-144 | writing the word of an entry is writing the entry |
| `PageWords.SameTranslation` | kernel/src/memory/address.rs:50-93 | every 64-bit address translates through the words, by shifts and masks, as through the entries |
| `PageTable.TablesElsewhere` | kernel/src/memory/paging.rs:136-139 | writing an entry moves no table at or above its level, and none off its path |
| `PageTable.TranslationElsewhere` | kernel/src/memory/paging.rs:136-139 | writing an entry changes no translation off its path |
| `PageTable.WriteLeaf` | kernel/src/memory/paging.rs:136-144 | a leaf or an empty entry written over no table: tree and tables kept, exactly the addresses under it translate through it |
| `PageTable.LinkTable` | kernel/src/memory/paging.rs:155-166 | a cleared fresh table over an entry that was no table: tree kept, one table more, the addresses under the entry unmapped, nothing changed if it was empty |
| `Mapping.AddressSpace.GetTable` | kernel/src/memory/address.rs:70-82 | the loop ends at the deepest table and its level |
| `Mapping.AddressSpace.Translate` | kernel/src/memory/address.rs:84-93 | the translation |
| `Mapping.AddressSpace.MapTableAt` | kernel/src/memory/paging.rs:155-166 | clears the frame and links it by its physical address, or faults iff the frame is not in the direct map; nothing at level 1 |
| `Mapping.AddressSpace.EnsureLevel2` | kernel/src/lib.rs:183-199 | from any tables: ends as planned, with tables down to level 2 in the next frames, a 1 GB page in the way broken, or a panic below a level-1 table |
| `Mapping.AddressSpace.MapWindow` | kernel/src/lib.rs:183-203 | and writes the leaf, unless the table linked last was reached through the 1 GB page it broke: then it faults |
| `Mapping.AddressSpace.MapHugeFrame` | kernel/src/lib.rs:183-203 | ends as planned; given frames for two tables, the window translates to its frame and nothing else changes iff the window is mappable |
| `Mapping.MapsExactly` | kernel/src/lib.rs:183-203 | given frames for two tables, done and nothing else changed iff no 1 GB page and no level-1 table is in the way |
| `BootMapping.GigabyteWitness` | kernel/src/lib.rs:183-203 | tables with two 1 GB pages, frames in the second: mapping into the first succeeds and the next 2 MB are lost |
| `BootMapping.CutOffWitness` | kernel/src/lib.rs:183-203 | the same with frames in the first: the call faults |
| `BootMapping.UnreachedWitness` | kernel/src/memory/paging.rs:155-166 | tables whose direct map does not reach the next frame, on which the call faults |
| `BootMapping.LevelOneWitness` | kernel/src/lib.rs:183-199 | tables with a level-1 table on which the call panics with frames left |
| `Mapping.AddressSpace.MapPhysicalRegion` | kernel/src/lib.rs:174-206 | ends as planned from the tables and allocator before the call; on success to_phys(PHYS_MEM_VIRT_ADDR + p) = p for every 2 MB frame of the region, and exactly the frames taken have become tables, and entries that were all present and writable still are; whatever happens, tables still a tree and no translation outside the region and 1 GB pages changed |
| `Mapping.RegionCovered` | kernel/src/memory/mod.rs:80-108 | the 2 MB frames of a region have all its bytes iff its base and length modulo 2 MB add up to no more than 2 MB, or the length is a multiple and so is the base |
| `DirectMap.GigabytePageLost` | kernel/src/lib.rs:183-203 | mapping windows of a 1 GB page unmaps all of it that they do not cover |
| `DirectMap.NothingElseLost` | kernel/src/lib.rs:174-206 | nothing outside the windows changes iff they break no 1 GB page that reaches beyond them |
| `DirectMap.BuiltMore` | kernel/src/lib.rs:183-203 | mapping window after window gives exactly the translations and tables planned for all of them |
| `DirectMap.LinkFaults` | kernel/src/memory/paging.rs:155-166 | linking faults iff one of the frames it comes to is out of reach, and is done iff there are enough and all are in reach |
| `DirectMap.SuppliedExactly` | kernel/src/lib.rs:227-243 | with no obstacle, the direct map is completed iff every table has a frame that the direct map as it was, or the windows mapped before it is taken, reach |
| `DirectMap.EnoughLowFrames` | kernel/src/lib.rs:227-243 | it is completed if the first frames, as many as tables are needed, are in the direct map already |
| `Mapping.AddressSpace.AllocateTables` | kernel/src/memory/paging.rs:8-35 | on success every page is unmapped and has its level-1 table; no translation changed; refusal names a mapped page; a fault iff a frame taken was not in the direct map; without one, exactly the frames taken have become tables |
| `BootMapping.MapPhysicalMemory` | kernel/src/lib.rs:227-243 | ends as planned from the tables and allocator before the call, with nothing assumed reached; on success the direct map of all regions, whose windows may overlap, exactly the tables needed, and exactly the frames taken in them; whatever happens, nothing outside the regions and 1 GB pages changed |
| `BootMapping.WindowsInOrder` | kernel/src/lib.rs:227-243 | regions are mapped in the order of the map, each from its start upwards |
| `BootMapping.MissedWitness` | kernel/src/memory/mod.rs:80-108 | two pages around a 2 MB boundary of which the second is left out of the direct map |
| `BootMapping.RemoveIdentityMapping` | kernel/src/lib.rs:265-296 | exactly 0x8000 to 2 MB becomes unmapped |
| `HeapPages.ShiftedIndex` | kernel/src/memory/kalloc.rs:12-44 | the level-1 index of the address shifted by 2^40 is that of the address |
| `HeapPages.MapPage` | kernel/src/memory/kalloc.rs:22-38 | one page more of the heap, nothing else |
| `HeapPages.MapHeap` | kernel/src/memory/kalloc.rs:12-44 | the loop over 2 MB windows maps page after page up to the length |
| `HeapPages.InitHeap` | kernel/src/memory/kalloc.rs:12-44 | on success every heap page, unmapped before, has a frame of its own, and every other translation is unchanged; every frame taken backs a page or has become a table; failure means frames are used up, a page was mapped, or a frame taken was not in the direct map |
| `HeapPages.HeapRegion` | kernel/src/memory/kalloc.rs:8-9 | the kernel's heap meets the requirements: 10 MB at a 2 MB boundary, 2560 pages |
| `Scheduler.ScheduleConserves` | kernel/src/scheduler/mod.rs:91-135 | a schedule loses and duplicates no task |
| `Scheduler.IdleOnlyWhenNothingReady` | kernel/src/scheduler/mod.rs:122-134 | idle is selected iff no task is ready and the current one cannot go on |
| `Scheduler.StepConserves` | kernel/src/scheduler/mod.rs:87-152 | every operation keeps each task in exactly one place, map keys equal to ids, and blocked marks exactly on the tasks of the map |
| `Scheduler.RunConserves` | kernel/src/scheduler/mod.rs:87-152 | the same over every run with fresh ids, from what was there plus what was added |
| `Scheduler.YieldBlocks` | kernel/src/scheduler/mod.rs:137-144 | a yield moves the current task, with its registers, to the blocked map and nowhere else |
| `Scheduler.BlockedUntilWoken` | kernel/src/scheduler/mod.rs:87-152 | over every run a blocked task stays there unchanged until it is woken |
| `Scheduler.QueueMoves` | kernel/src/scheduler/mod.rs:87-152 | a ready task moves up one place on a schedule or effective yield and none otherwise; a wake-up is net zero |
| `Scheduler.BoundedWaiting` | kernel/src/scheduler/mod.rs:87-152 | over every run its place is its old place less the dispatches, and it is unchanged |
| `Scheduler.RunsInTurn` | kernel/src/scheduler/mod.rs:87-152 | the dispatch after that runs it, with its own registers |
| `Scheduler.ReadyTurns` | kernel/src/scheduler/mod.rs:91-135 | k schedules turn the current and ready tasks round by k places |
| `Scheduler.CurrentAgain` | kernel/src/scheduler/mod.rs:91-135 | after k more schedules a task is current again iff they went all the way round |
| `Scheduler.WokenRuns` | kernel/src/scheduler/mod.rs:146-152 | a blocked task that is woken is unblocked, and current iff the schedules of alarms in between go all the way round; every task is in as many places as before |
| `Interrupts.Processor.EnterHandler` | kernel/src/x86_64/interrupts/handler.rs:47-59 | the interrupt is counted and only the outermost frame is noted for switches |
| `Interrupts.Processor.AddTask` | kernel/src/scheduler/mod.rs:87-89 | the task joins the end of the ready queue |
| `Interrupts.Processor.LeaveHandler` | kernel/src/x86_64/interrupts/handler.rs:60-64 | the innermost frame is restored |
| `Interrupts.Processor.SwitchFromInterrupt` | kernel/src/scheduler/mod.rs:260-269 | the frame goes to the outgoing task, the next task's state to the frame |
| `Interrupts.Processor.SwitchFarReturn` | kernel/src/scheduler/mod.rs:175-258 | saves all but rax, rcx and the segments with the outgoing task and loads the next one, rcx from the slot of rdx |
| `Interrupts.Processor.ScheduleTasks` | kernel/src/scheduler/mod.rs:97-134 | the in-place schedule is the step of the model, registers included, from interrupts and from tasks |
| `Interrupts.EventConserves` | kernel/src/scheduler/mod.rs:161-269 | every event, inside and outside interrupts, keeps each waiting task saved as its past says and the current one's registers, or the idle task's, in the context; a task chosen goes on with what its past says |
| `Interrupts.IdleTakesOver` | kernel/src/scheduler/mod.rs:122-134 | a call that switches and finds no task leaves the processor to the idle task: its state in the outermost frame within interrupts, in the registers outside, with rcx from the slot of rdx |
| `Interrupts.RegistersConserved` | kernel/src/scheduler/mod.rs:91-269 | the same over every run of nested interrupts and scheduler calls inside and outside them |
| `Interrupts.SurvivesExactly` | kernel/src/scheduler/mod.rs:175-269 | a task resumes with the registers it last ran with iff: on a far return rcx equals rdx; and if a far return parked it, rax, the segments and, on an interrupt's return, rcx are those saved before |
| `Interrupts.OwnThroughout` | kernel/src/scheduler/mod.rs:91-269 | over every run, the current task always has the registers it last ran with iff those of every task chosen survive |
| `Interrupts.InterruptsUnharmed` | kernel/src/scheduler/mod.rs:260-269 | they do in every run whose switches are all those of interrupts |
| `Interrupts.ResumesWithOwnRegisters` | kernel/src/x86_64/interrupts/handler.rs:47-82 | when the last handler of such a run returns, the current task continues with exactly the registers it last ran with |
| `Interrupts.InterruptThenFarReturn` | kernel/src/scheduler/mod.rs:175-269 | for all registers with rcx and rdx different, a run from boot that parks a task by an interrupt, resumes it by a far return, and gives it the wrong rcx |
| `Interrupts.FarReturnTwice` | kernel/src/scheduler/mod.rs:175-258 | for all registers with another rax than the task was created with, a run from boot of far returns only that gives it the wrong rax |
| `Interrupts.InnerFramesKept` | kernel/src/scheduler/mod.rs:260-269 | a switch in a nested handler leaves every inner frame alone |
| `Interrupts.HandlerResumes` | kernel/src/x86_64/interrupts/handler.rs:47-82 | an interrupted handler goes on with exactly its own registers, whatever nested interrupts and switches happened meanwhile |
| `ArrayQueue.AloneIsPop` | kernel/src/utils/atomic.rs:53-70 | without interruption the steps amount to one pop, however often the weak exchange fails |
| `ArrayQueue.FullMeansFull` | kernel/src/utils/atomic.rs:72-82 | at head == tail full and empty are told apart; when a push would clash |
| `ArrayQueue.PushKeepsFifo` | kernel/src/utils/atomic.rs:31-51 | an interrupting push keeps the queue a FIFO iff it does not clash with the pop in flight |
| `ArrayQueue.ConsumeKeepsFifo` | kernel/src/utils/atomic.rs:53-70 | every memory access of the pop keeps it |
| `ArrayQueue.FifoThroughout` | kernel/src/utils/atomic.rs:31-89 | the queue is a FIFO at every point of a run iff no push of the run clashes |
| `ArrayQueue.QueueIsFifo` | kernel/src/utils/atomic.rs:31-89 | over every such run the values popped are a prefix of those accepted, at most `size` behind |
| `ArrayQueue.EmptyAnswerIsTrue` | kernel/src/utils/atomic.rs:53-76 | a pop answers none only while nothing is stored |
| `ArrayQueue.StepKeepsDrained` | kernel/src/utils/atomic.rs:31-70 | through clashes too: if the slot behind the tail is empty, so are those from tail to head but the one being popped |
| `ArrayQueue.NoneMeansRoom` | kernel/src/utils/atomic.rs:53-82 | through clashes too: an uninterrupted pop that answers none leaves a ring that is not full |
| `ArrayQueue.ClashWitness` | kernel/src/utils/atomic.rs:31-70 | for every size above one, a run from the empty queue that is not safe and whose pop returns the last value pushed instead of the first |
| `ArrayQueue.Queue.Push` | kernel/src/utils/atomic.rs:31-51 | appends, or refuses iff full, whatever the number of failed exchanges |
| `ArrayQueue.Queue.constructor` | kernel/src/utils/atomic.rs:13-29 | empty, every slot cleared |
| `ArrayQueue.Queue.Pop` | kernel/src/utils/atomic.rs:53-70 | removes the oldest value, or answers none iff empty |
| `ArrayQueue.Queue.IsEmpty` | kernel/src/utils/atomic.rs:72-76 | true iff nothing is stored |
| `ArrayQueue.Queue.IsFull` | kernel/src/utils/atomic.rs:78-82 | true iff `size` values are stored |
| `Keyboard.SchedKeeps` | kernel/src/scheduler/mod.rs:87-152 | scheduling by others keeps the handshake and blocks or unblocks no reader |
| `Keyboard.KeyKeeps` | kernel/src/drivers/keyboard/mod.rs:66-87 | the interrupt keeps it, clash or not, whatever alarms fire in its wake-up |
| `Keyboard.ReadKeeps` | kernel/src/drivers/keyboard/mod.rs:40-63 | every step of the reader keeps it, through the section with interrupts disabled |
| `Keyboard.HandshakeHolds` | kernel/src/drivers/keyboard/mod.rs:40-87 | it holds after every run: HALTED_TASK_ID names the reader iff it is about to yield or blocked, and then the ring is not full |
| `Keyboard.OnlyKeysWake` | kernel/src/drivers/keyboard/mod.rs:66-87 | an event unblocks a blocked reader iff it is a keyboard interrupt with a scancode |
| `Keyboard.EventKeeps` | kernel/src/drivers/keyboard/mod.rs:40-87 | every event keeps the protocol, that nothing accepted is unread when the reader gives up, except exactly a clashing scancode |
| `Keyboard.ProtocolThroughout` | kernel/src/drivers/keyboard/mod.rs:40-87 | the protocol holds at every point of a run iff no scancode of the run clashes |
| `Keyboard.NoLostWakeUp` | kernel/src/drivers/keyboard/mod.rs:40-87 | in every interleaving a blocked reader is named by HALTED_TASK_ID and the ring has room; without a clash it has read everything accepted, in order |
| `Keyboard.NextKeyWakes` | kernel/src/drivers/keyboard/mod.rs:66-87 | in every interleaving the next scancode is accepted and unblocks a blocked reader, which is current iff alarms went all the way round; without a clash that scancode is what it reads |
| `Keyboard.WokenReads` | kernel/src/drivers/keyboard/mod.rs:40-63 | without a clash a woken reader enables interrupts again and its next pop returns the scancode that woke it |
| `Keyboard.BlocksUnread` | kernel/src/drivers/keyboard/mod.rs:40-87 | for every ring of more than one slot, a run from the start after which the reader is blocked with accepted scancodes unread |
| `Keyboard.Driver.HandleInterrupt` | kernel/src/drivers/keyboard/mod.rs:66-87 | accepts iff there is a scancode and room, and only then wakes the halted task, once, with the restart of the preemption alarm |
| `Time.OrderIsNumeric` | kernel/src/time/mod.rs:4-10 | the derived order is the order of nanoseconds |
| `Time.AddIsExact` | kernel/src/time/mod.rs:89-102 | exact iff the sum is representable, otherwise the seconds stick |
| `Time.SubIsExact` | kernel/src/time/mod.rs:108-143 | exact whenever the difference is not negative, across every borrow; what it is otherwise; when it overflows |
| `Time.SubUndoesAdd` | kernel/src/time/mod.rs:89-143 | (a + b) - b = a below saturation |
| `Time.TimestampsAreExact` | kernel/src/time/mod.rs:67-87 | each timestamp is the time in its unit, capped at 2^64 - 1 |
| `Time.ToTsIsExact` | kernel/src/time/mod.rs:53-66 | the unit chosen loses nothing and is the coarsest that does not |
| `Time.NanosecondRoundTrip` | kernel/src/time/mod.rs:18-37 | to_ns_ts(from_ns(n)) = n for every u64 |
| `Time.TimeRoundTrip` | kernel/src/time/mod.rs:18-87 | from_ns(to_ns_ts(t)) = t below saturation |
| `Ticks.TicksToTimeNormal` | kernel/src/time/timer.rs:337-352 | the result is normalised at every rate and count |
| `Ticks.TimeIsNear` | kernel/src/time/timer.rs:337-352 | at every rate less than 1 ms short of the true time and less than 2.001 ms over |
| `Ticks.NeverSlowExactly` | kernel/src/time/timer.rs:337-352 | never below the true elapsed nanoseconds iff the rate is generous |
| `Ticks.NeverLongExactly` | kernel/src/time/timer.rs:321-334 | never above the true tick count iff at least 10^6 ticks per millisecond, saturated or not |
| `Ticks.TicksAreNear` | kernel/src/time/timer.rs:321-334 | at every rate short of the true ticks by less than one per unit counted, and long only where every unit counts for one |
| `Ticks.RoundTripsExactly` | kernel/src/time/timer.rs:321-352 | every time that fits comes back unchanged iff the rate is a multiple of 10^6 |
| `Ticks.ArmedNonZero` | kernel/src/time/timer.rs:307-319 | a positive time is at least one tick after the u32 clamp, and a nonzero deadline |
| `Ticks.DeadlineExactly` | kernel/src/x86_64/interrupts/apic.rs:279-280 | the deadline is the counter plus the cycles, up to 2^64 - 1 |
| `Ticks.CreditExactly` | kernel/src/time/timer.rs:307-334 | when the local APIC has counted down, the interval credited has truly passed iff its ticks fit 32 bits and the rate has whole ticks in its unit |
| `Timers.Timer.Notify` | kernel/src/time/timer.rs:50-58 | a due alarm is logged; a Schedule alarm runs one schedule and, under preemption, restarts the preemption alarm |
| `Timers.Timer.FireScheduleAlarm` | kernel/src/time/timer.rs:260-275 | the preemption alarm is taken, notified iff due, and may be set again meanwhile |
| `Timers.Timer.FireDue` | kernel/src/time/timer.rs:277-288 | due alarms of the queue fire, each accounted for, until the nearest one left is not due |
| `Timers.Timer.UpdateQueue` | kernel/src/time/timer.rs:256-292 | exactly the due alarms fire, each as often as it was set, after the preemption alarm in the order of their triggers; only later ones are left; the interval is positive, at most 1 s, reaches no further than any alarm pending, and is one that an alarm asked for, even when the preemption alarm is restarted meanwhile |
| `Timers.AlarmsConserved` | kernel/src/time/timer.rs:256-292 | over any number of updates an alarm fires as often as it was added or taken less what is pending, never before its time |
| `Timers.PresetConserved` | kernel/src/time/timer.rs:159-178 | every preemption alarm set has come due, was replaced or stopped before, or is the one pending |
| `Timers.LogConserves` | kernel/src/time/timer.rs:159-292 | the log that every timer call keeps: at any time fired plus pending plus replaced or stopped is what was set, of the queue and for preemption, and nothing has fired whose trigger is still to come |
| `Timers.Timer.StartTimer` | kernel/src/time/timer.rs:295-318 | arms the LAPIC count or the TSC deadline, so many cycles ahead, for the interval, never with zero |
| `Timers.Timer.UpdateAndRestart` | kernel/src/time/timer.rs:239-252 | the update, and the hardware armed with exactly the ticks of the interval; from 10^6 ticks per millisecond on that is in time for every pending alarm |
| `Timers.CoveredInTime` | kernel/src/time/timer.rs:295-334 | from 10^6 ticks per millisecond on, hardware armed for an interval that covers the pending alarms fires no later than any of them by the true rate |
| `Timers.NeverLateExactly` | kernel/src/time/timer.rs:295-334 | that is so for all intervals and alarms iff the rate is at least 10^6 |
| `Timers.SlowTimerLate` | kernel/src/time/timer.rs:307-334 | at 62500 ticks per millisecond 99.999999 ms are armed as 99999999 ticks where 6249999 are right |
| `Timers.Timer.HandleInterrupt` | kernel/src/time/timer.rs:356-391 | the runtime moves on by the interval on the local APIC and by the time of the cycles passed otherwise, exactly the alarms then due fire, and the hardware is armed with the ticks of an interval that ends no later than any pending alarm, which from 10^6 ticks per millisecond on is in time; nothing while it is to be ignored |
| `Timers.Timer.SinceArmedIsTrue` | kernel/src/time/timer.rs:370-378 | that is near the true time by the counter, and no less at the generous rates |
| `Timers.LapicKeepsTime` | kernel/src/time/timer.rs:356-391 | over every run of local APIC interrupts with intervals credited exactly, the runtime added is the true time of the ticks counted down |
| `Timers.Timer.ElapsedIsNear` | kernel/src/time/timer.rs:229-238 | outside the interrupt the runtime moves on by a time near that of the cycles passed or the ticks counted down |
| `Timers.Periods` | kernel/src/scheduler/mod.rs:17 | the preemption period is 100 ms, the default interval 1 s |
| `Timers.Timer.StartScheduleTimer` | kernel/src/time/timer.rs:159-174 | during an update only the alarm is set; otherwise what is due fires and the hardware is armed with the ticks of the interval, in time from 10^6 ticks per millisecond on |
| `Timers.Timer.AddToQueue` | kernel/src/time/timer.rs:184-199 | the same for a new alarm |
| `Timers.Timer.EnablePreemption` | kernel/src/scheduler/mod.rs:78-81 | from then on an alarm is set, 100 ms ahead; the interval reaches no further, and from 10^6 ticks per millisecond on neither does the hardware |
| `Timers.Timer.ScheduleNow` | kernel/src/scheduler/mod.rs:91-135 | under preemption the alarm is set 100 ms ahead, what is due fires and the hardware is armed; then one step of the model, with one more for every Schedule alarm that fired |
| `Timers.Timer.YieldNow` | kernel/src/scheduler/mod.rs:137-144 | the same for yield |
| `Timers.Timer.WakeUpNow` | kernel/src/scheduler/mod.rs:146-152 | the same for wake-up |
| `Timers.WokenAfterAlarms` | kernel/src/scheduler/mod.rs:91-152 | a task woken in a handler is current afterwards iff the Schedule alarms fired meanwhile went all the way round the ready tasks |
| `Timers.Timer.DisablePreemption` | kernel/src/scheduler/mod.rs:82-85 | no preemption alarm is left |

## Left out

- 64-bit overflow of addresses and lengths: addresses are unbounded naturals; `AdjustLayout` alone models the `isize` limit of layouts, because the source panics there.
- Alignment above 8 on the size-class path: those blocks come from the fallback with alignment 8, so `FallbackPointersAligned` speaks of fallback requests and alignments up to 8.
- The layout of `ListNode` and `BlockNode` in memory: length and link are two words, in an order of the model's choosing.
- The spinlock around the allocator: each call is one step.
- Table memory is read and written by physical frame. Two faults are modelled: a frame that is cleared through the direct map before the direct map reaches it, and a leaf written into a table that was reached through the 1 GB page it replaces. A direct-map address that translates to another frame than its own counts as such a fault, where the source would use the other frame. Later walks through tables that a broken 1 GB page has cut off, and the TLB, are not modelled.
- `map_first_2mb`, which builds the first three tables before the direct map exists; the framebuffer and APIC mappings are further calls of `map_physical_region`.
- Bit operations on words are arithmetic: a shift is a product modulo 2^64 or a quotient, disjoint bits add up.
- Flags of page-table entries beyond present, writable and huge are carried along but not interpreted; a translation does not look at the present bit, as the software walk of the source does not.
- `switch_task_far_ret`, inline assembly: only which registers it saves and loads; the instruction pointer and flags count as those of the task at the call.
- Task creation and stacks: a new task is a value with a fresh id. `is_idle` is false at first and nothing in the source sets it, so the invariants take it as false.
- The driver's ring has 100 slots; the proofs and the failing runs are for any size.
- More than one reader of the keyboard, more than one producer or consumer of the ring, and weak memory orderings.
- `hlt_wait` and `Timer::wait`: waiting for a flag; the flag is the notification that `Notify` logs.
- Timers.Timer.UpdateQueue: from task context it requires that no due alarm calls the scheduler, since the far return would leave the update half done, with the timer stopped, until that task runs again.
- Timers.Timer.Notify: the same, for a Schedule alarm due in task context.
- Timers.Timer.FireScheduleAlarm: the same, for a Schedule alarm due in task context.
- Timers.Timer.FireDue: the same, for a Schedule alarm due in task context.
- Timers.Timer.UpdateAndRestart: the same, for a Schedule alarm due in task context.
- Timers.Timer.StartScheduleTimer: the same, for a Schedule alarm due in task context.
- Timers.Timer.AddToQueue: the same, for a Schedule alarm due in task context.
- Timers.Timer.EnablePreemption: the same, for a Schedule alarm due in task context.
- Timers.Timer.ScheduleNow: the same, for a Schedule alarm due in task context under preemption.
- Timers.Timer.YieldNow: the same, for a Schedule alarm due in task context under preemption.
- Timers.Timer.WakeUpNow: the same, for a Schedule alarm due in task context under preemption.
- A timer interrupt between setting the preemption flag and setting its alarm in `enable_preemption`: the invariant of `Prompt` starts once the call is complete.
- Saturated seconds in the timer: its methods require that the runtime is at least 100 ms and the wait away from the maximum.
- Readings of the TSC and the LAPIC count are parameters; EOI, calibration and other register access are not modelled.
- The internals of `BinaryHeap`, `BTreeMap`, `VecDeque` and `sort_unstable`: a sequence searched for its least element, a map, a sequence, and the sorted permutation.
- SMP bring-up, ACPI tables, GDT, IDT and TSS encodings, logger, terminal, framebuffer, PIT and PS/2 access, the bootloader and the QEMU runner.
