# A verified model of the Sophon kernel

Sophon is a small AArch64 kernel written in Rust. This project models its memory management, its scheduler and
locks, and two parts of its file system, and proves what they promise.

- **Buddy page allocator** (`Bits`, `BuddyTree`, `BitTable`, `BitMapPageAllocator`, `BuddyHistories`). One bit per
  cell of a complete binary tree, packed into 64-bit words. The table is a canonical form of the set of free units:
  every operation keeps it, so the table is a function of the units in use.
- **Intrusive free lists** (`SizeClassLists`, `PhysicalPageResource`, `FreeListAllocator`, `KernelHeap`). Size-class lists whose
  next pointers lie in the free memory itself. Free and outstanding cells always partition the memory given, and a
  refill always serves the request it was made for.
- **Page tables** (`PageTableEntry`, `PageTree`, `PageTranslation`, `PageTable`, `PageTableRuns`, `UserTeardown`). A four-level radix
  tree of tables in frames from a pool, in the 4 KB-granule format of the Arm VMSAv8-64 architecture. It refines a
  plain map from pages to entries; the tables are determined by the pages mapped; teardown gives back the user part
  exactly once.
- **Scheduler and locks** (`Scheduler`, `RoundRobinScheduler`, `Locks`, `LockInvariants`, `LockRuns`, `LockSteps`,
  `RawLocks`). A transition system on one core. Every section the kernel runs with interrupts disabled is one step, and
  a timer tick may fall between any two steps. What each step does is stated apart from the functions that compute it.
  Mutual exclusion, no lost wake-up, bounded waiting and completion are proved for every run.
- **Paths and the RAM file system** (`Paths`, `WorkingDirectory`, `RamFs`).

Code that changes state in place is a class whose methods are proved against specification functions or relations;
the laws are lemmas about those. A panic or a failed debug assertion of the kernel is an error result of the model,
unless its condition is what a caller must guarantee; then it is a precondition. What a page allocator or page
resource returns, and whether a directory exists, is a parameter or any choice.

Some properties hold of the code only under a condition. For each the exact condition is proved, and a lemma gives
an input, or all inputs, where it fails:

- A cell need not be aligned for an empty layout with a large alignment (`FreeListAllocator.CellsFitLayout`,
  `EmptyLayoutIsMisaligned`). Both heaps call `alloc` from `GlobalAlloc::alloc`, whose contract forbids empty layouts,
  so only a direct call reaches this.
- A refill may leave memory unlisted (`FreeListAllocator.RefillIsExact`, `RefillLeavesGap`). User heaps grow by
  addresses that are only 2M-aligned, and so do; the kernel heap does not (`KernelHeap.RefillIsExact`).
- Unmapping a large page would give a table back at the wrong size (`PageTable.PageTable.Unmap`,
  `PageTable.LonePageIsLastEntry`).
- A physical range at address zero is not gained and loses a list (`PhysicalPageResource.PhysicalPageResource.Init`,
  `SizeClassLists.ZeroEndsList`).
- A file inserted at the root path is not found there (`RamFs.InsertThenLookup`, `RootPathIsNotFound`).

`dafny verify dfyconfig.toml` checks the project.

## Model

| member | source | states |
|---|---|---|
| `BuddyTree.CanonicalIsUnique` | libs/memory/src/bitmap_page_allocator.rs:118-182 | Two sets of FREE cells in canonical form (no FREE cell under a FREE cell, no two FREE buddies) that stand for the same free units are equal. |
| `BuddyTree.FreeIffMaximal` | libs/memory/src/bitmap_page_allocator.rs:136-151 | In canonical form a cell is FREE exactly when all its units are free and its parent's are not. |
| `BuddyTree.MaximalCellsAreCanonical` | libs/memory/src/bitmap_page_allocator.rs:136-151 | Conversely, the maximal wholly free cells of any set of units are in canonical form. |
| `BuddyTree.MaximalCellsCover` | libs/memory/src/bitmap_page_allocator.rs:136-151 | And they stand for exactly those units, so every set of free units has its canonical form. |
| `BuddyTree.FullHasFreeAncestor` | libs/memory/src/bitmap_page_allocator.rs:118-151 | In canonical form every cell whose units are all free lies at or below a FREE cell. |
| `BuddyTree.AddCell` | libs/memory/src/bitmap_page_allocator.rs:136-151 | Freeing a cell whose buddy is not FREE and that overlaps nothing free keeps the canonical form and adds exactly its units. |
| `BuddyTree.RemoveCell` | libs/memory/src/bitmap_page_allocator.rs:92-115 | Taking a FREE cell keeps the canonical form and removes exactly its units. |
| `BuddyTree.BlockHalves` | libs/memory/src/bitmap_page_allocator.rs:84-90 | The units of a cell are the disjoint union of the units of its two children. |
| `BitTable.BitAfterStore` | libs/memory/src/bitmap_page_allocator.rs:52-58 | Storing a bit through shift and mask changes that bit of the word table and no other. |
| `BitTable.TablesWithSameBits` | libs/memory/src/bitmap_page_allocator.rs:45-58 | Two word tables that agree on every bit are equal. |
| `BitMapPageAllocator.OffsetOfUnit` | libs/memory/src/bitmap_page_allocator.rs:45-82 | The bit offset computed from class and unit is the cell's place in heap order. |
| `BitMapPageAllocator.CellRange` | libs/memory/src/bitmap_page_allocator.rs:45-82 | The cell of an aligned unit is in bounds and stands for exactly its run of units: the layout is injective. |
| `BitMapPageAllocator.SiblingCell` | libs/memory/src/bitmap_page_allocator.rs:84-86 | The sibling unit, computed by flipping one bit, addresses the buddy cell. |
| `BitMapPageAllocator.ParentCell` | libs/memory/src/bitmap_page_allocator.rs:88-90 | The parent unit, computed by masking, addresses the parent cell. |
| `BitMapPageAllocator.BitMapPageAllocator.Get` | libs/memory/src/bitmap_page_allocator.rs:45-50 | A read tells whether the cell is in the set of FREE cells. |
| `BitMapPageAllocator.BitMapPageAllocator.Set` | libs/memory/src/bitmap_page_allocator.rs:52-58 | A write changes the state of exactly one cell. |
| `BitMapPageAllocator.BitMapPageAllocator.Init` | libs/memory/src/bitmap_page_allocator.rs:40-43 | After initialisation exactly all units of the heap are free. |
| `BitMapPageAllocator.BitMapPageAllocator.SearchWords` | libs/memory/src/bitmap_page_allocator.rs:92-105 | The search that skips empty words takes the FREE cell of lowest index in the class, and finds none only if there is none. |
| `BitMapPageAllocator.BitMapPageAllocator.SearchEntries` | libs/memory/src/bitmap_page_allocator.rs:106-114 | The plain scan meets the same specification. |
| `BitMapPageAllocator.BitMapPageAllocator.SearchAndAllocateCell` | libs/memory/src/bitmap_page_allocator.rs:92-115 | Whichever path is taken, the lowest FREE cell of the class is taken or there is none. |
| `BitMapPageAllocator.BitMapPageAllocator.AcquireCell` | libs/memory/src/bitmap_page_allocator.rs:118-133 | Returns nothing exactly when no aligned block of the class is wholly free; otherwise exactly that block leaves the free units, taken from the lowest cell of the smallest class that has one, and the table stays canonical. |
| `BitMapPageAllocator.BitMapPageAllocator.ReleaseCell` | libs/memory/src/bitmap_page_allocator.rs:136-151 | Releasing outstanding units adds exactly them to the free units and restores the canonical form by merging; the debug assertions hold. |
| `BitMapPageAllocator.BitMapPageAllocator.AcquireUnits` | libs/memory/src/bitmap_page_allocator.rs:153-162 | For every number of units: nothing is returned exactly when no aligned block of the next power of two is free; otherwise exactly the requested run leaves the free units and its start is aligned. |
| `BitMapPageAllocator.BitMapPageAllocator.ReleaseUnits` | libs/memory/src/bitmap_page_allocator.rs:164-182 | Any outstanding run, of any length and alignment, is tiled and released: exactly its units become free. |
| `BuddyHistories.TableIsUnique` | libs/memory/src/bitmap_page_allocator.rs:118-182 | Two well-formed tables with the same free units are equal word for word. |
| `BuddyHistories.AcquireThenRelease` | libs/memory/src/bitmap_page_allocator.rs:153-182 | Acquiring a run and releasing it restores the table bit for bit. |
| `BuddyHistories.HistoryInvariant` | libs/memory/src/bitmap_page_allocator.rs:153-182 | In every state of every run of acquires and releases the table is well formed and every unit is free or in use, never both. |
| `BuddyHistories.SameUnitsInUseSameTable` | libs/memory/src/bitmap_page_allocator.rs:153-182 | Any two runs that leave the same units in use end in identical tables, whatever their order. |
| `SizeClassLists.Pool.Push` | sophon/src/memory/physical/physical_page_resource.rs:28-33 | Storing the next pointer in the cell itself puts it at the head of its list, and every list stays linked and zero-terminated; a cell at address zero leaves its list empty instead. |
| `SizeClassLists.ZeroEndsList` | sophon/src/memory/physical/physical_page_resource.rs:28-45 | A list whose head becomes address zero reads as empty, and keeps its cells only if it had none. |
| `SizeClassLists.PartitionDrop` | sophon/src/memory/physical/physical_page_resource.rs:28-45 | Losing a list leaves the other cells an exact partition of what they cover. |
| `SizeClassLists.Pool.Pop` | sophon/src/memory/physical/physical_page_resource.rs:36-45 | Takes the head of a list, by the pointer stored in it; nothing exactly when the list is empty. |
| `SizeClassLists.Pool.ClientStore` | sophon/src/memory/physical/physical_page_resource.rs:28-45 | Whatever a client stores in memory handed out to it, no list changes. |
| `SizeClassLists.PartitionSplit` | sophon/src/memory/physical/physical_page_resource.rs:47-56 | Halving a cell keeps free and outstanding cells an exact partition of the memory given. |
| `SizeClassLists.ClientAddressIsOffLists` | sophon/src/memory/physical/physical_page_resource.rs:28-45 | No address inside outstanding memory is a cell of a free list. |
| `PhysicalPageResource.PhysicalPageResource.AllocateCellSlow` | sophon/src/memory/physical/physical_page_resource.rs:59-74 | Takes the head of the first non-empty list from the class up and lists the upper halves; nothing exactly when all these lists are empty. |
| `PhysicalPageResource.PhysicalPageResource.AllocateCell` | sophon/src/memory/physical/physical_page_resource.rs:77-82 | Hands out a cell that was free, or nothing exactly when all lists from the class up are empty; free and outstanding cells still partition the memory. |
| `PhysicalPageResource.TileSizeClass` | sophon/src/memory/physical/physical_page_resource.rs:92-101 | The class the tiling loop picks is in range, aligns its start and fits the rest, from address zero too, so neither hang branch can be reached; and it is the largest such class (from address zero, the largest of at most 64 bits). |
| `PhysicalPageResource.PhysicalPageResource.ReleaseContiguous` | sophon/src/memory/physical/physical_page_resource.rs:89-116 | Terminates and tiles any 4K-aligned range by disjoint, self-aligned cells. The range is gained exactly if and only if it does not start at address zero; from there the first cell is not gained and the cells of its class listed so far are lost. Off zero, a request of any class can be served afterwards if it could be before or if the range contains an aligned block of that size. |
| `PhysicalPageResource.ServesNext` | sophon/src/memory/physical/physical_page_resource.rs:90-114 | A tile takes the next aligned block of any size, in a cell of that size or larger, or ends before it. |
| `Bits.TileClassIsLargest` | sophon/src/memory/physical/physical_page_resource.rs:92-101 | No larger class aligns the start and fits the length. |
| `PhysicalPageResource.PhysicalPageResource.Init` | sophon/src/memory/physical/physical_page_resource.rs:118-124 | From disjoint ranges, the memory of the resource is exactly their union if and only if no range starts at address zero; then a request for any aligned block of any of the ranges can be served. |
| `PhysicalPageResource.PhysicalPageResource.Acquire` | sophon/src/memory/physical/physical_page_resource.rs:127-132 | A frame handed out is aligned to its size and was not outstanding; none is exactly when all lists from its class up are empty. The memory of the resource is unchanged. |
| `PhysicalPageResource.PhysicalPageResource.Release` | sophon/src/memory/physical/physical_page_resource.rs:135-139 | A frame given back is free again, at its own size; the memory of the resource is unchanged. |
| `FreeListAllocator.CellsFitLayout` | libs/memory/src/free_list_allocator.rs:65-72 | A cell of the class of a layout is large enough; it is aligned for the layout if and only if the layout is not empty or asks for no more than 16 bytes of alignment. |
| `FreeListAllocator.ClassIsLeast` | libs/memory/src/free_list_allocator.rs:61-72 | The class of a layout is the least one, of 16 bytes or more, that holds the size rounded up to a multiple of the alignment. |
| `FreeListAllocator.EmptyLayoutIsMisaligned` | libs/memory/src/free_list_allocator.rs:65-72 | The empty layout with alignment 32 gets a cell that need not be aligned to 32. |
| `FreeListAllocator.RefillBytes` | libs/memory/src/free_list_allocator.rs:115 | The pages requested on a refill are exactly a power of two of bytes: twice the larger of the cell and the page. |
| `FreeListAllocator.RefillIsExact` | libs/memory/src/free_list_allocator.rs:117-131 | The tiles of a refill cover its range if and only if the start exceeds a multiple of the length by zero or by a power of two. |
| `FreeListAllocator.RefillLeavesGap` | libs/memory/src/free_list_allocator.rs:117-131 | They do not cover the range of 16M that a user heap gets after three refills of 4M (libs/user/src/heap.rs:43-49). |
| `FreeListAllocator.RefillLeavesGapAt` | libs/memory/src/free_list_allocator.rs:117-131 | Nor any range that starts three quarters of its length above a multiple of it. |
| `FreeListAllocator.TilesFitExactly` | libs/memory/src/free_list_allocator.rs:123-129 | All tiles have a class of the table if and only if the range is smaller than the largest class allows, or just that large and not aligned to its length. |
| `FreeListAllocator.RefillTilesFit` | libs/memory/src/free_list_allocator.rs:119-131 | Under that condition every tile is non-zero, aligned to its size and of a class within the table. |
| `FreeListAllocator.RefillTilesCover` | libs/memory/src/free_list_allocator.rs:119-131 | The tiles cover exactly the initial part of the range of the length given by `CoveredLength`. |
| `FreeListAllocator.RefillTilesLarge` | libs/memory/src/free_list_allocator.rs:119-131 | For every non-zero start, one tile is of at least half the range. |
| `FreeListAllocator.RefillServes` | libs/memory/src/free_list_allocator.rs:110-138 | After a refill some list holds a cell of the requested class or more. |
| `FreeListAllocator.FreeListAllocator.AllocCell` | libs/memory/src/free_list_allocator.rs:88-99 | Recursive splitting takes a cell exactly when some list from the class up has one, and lists the other halves. |
| `FreeListAllocator.FreeListAllocator.AllocCellSlow` | libs/memory/src/free_list_allocator.rs:110-138 | For requests of every class: fails exactly when all lists from the class up are empty and the page resource has nothing, or a tile of its range has a class beyond the table; the out-of-memory assertion cannot fail on the retry. |
| `FreeListAllocator.FreeListAllocator.Alloc` | libs/memory/src/free_list_allocator.rs:141-148 | For every layout: hands out a cell of its class that was not outstanding, or fails exactly as `AllocCellSlow` does or when the table has no such class; the memory of the allocator grows exactly by what the tiles of a refill cover. |
| `FreeListAllocator.FreeListAllocator.Free` | libs/memory/src/free_list_allocator.rs:151-158 | Takes the cell back; with large pages released, exactly the listed cells of 2M and more leave the allocator, and the smaller classes keep their lists. |
| `FreeListAllocator.FreeListAllocator.ReleaseLargePages` | libs/memory/src/free_list_allocator.rs:74-86 | Hands back every listed cell of 2M and more, in order, and no other; their lists are empty then and the others as before. |
| `KernelHeap.AcquirePages` | libs/memory/src/bitmap_page_allocator.rs:184-190 | The bytes returned are exactly those of the units that leave the free ones, and lie in the heap; on a base aligned to the heap size they start at a multiple of their length rounded up to a power of two. |
| `KernelHeap.RangesApart` | libs/memory/src/bitmap_page_allocator.rs:184-190 | In every run, the ranges of two acquires with no release between them have no byte in common. |
| `KernelHeap.ReleasePages` | libs/memory/src/bitmap_page_allocator.rs:192-197 | The free bytes grow by exactly the bytes of the pages given back. |
| `KernelHeap.RefillIsExact` | sophon/src/memory/kernel/heap.rs:66-79 | The range that the buddy allocator returns for any refill of the kernel heap is covered by the tiles without a gap. |
| `KernelHeap.KernelHeapIsAligned` | sophon/src/memory/kernel/mod.rs:4-9 | The kernel heap is aligned to its own size, as that needs. |
| `PageTableEntry.EntryRoundTrip` | libs/memory/src/page_table/mod.rs:107-152 | What `set` stores is what `address`, `flags`, `is_block` and `is_empty` read. |
| `PageTableEntry.TableEntryRoundTrip` | libs/memory/src/page_table/mod.rs:28-35 | An entry set with the table flags is read as a pointer to that table, with exactly these flags. |
| `PageTableEntry.InPageByIndex` | libs/memory/src/page_table/page_table.rs:43-46 | Two addresses are in the same page exactly when their table indices agree down to the page's level. |
| `PageTableEntry.PageIsInterval` | libs/memory/src/page_table/page_table.rs:149-183 | On 48-bit addresses a page is an interval, and the masked offset is the distance from its start. |
| `PageTree.TreeIsReachable` | libs/memory/src/page_table/page_table.rs:48-55 | The tables of the tree, with their frames, are exactly those that following the pointers in memory reaches. |
| `PageTree.WriteLeaf` | libs/memory/src/page_table/page_table.rs:209-229 | Writing an entry for a page keeps the tree well formed, sets that page in the plain map and ends the pages inside it, and nothing else; the entries that lead to tables stay word for word. |
| `PageTree.HangTable` | libs/memory/src/page_table/page_table.rs:203-206 | Hanging in a new zeroed table at an empty entry keeps the tree well formed and the plain map unchanged; the entry holds the table's frame and the table flags. |
| `PageTree.TakeOut` | libs/memory/src/page_table/page_table.rs:246-275 | Taking out an empty table and clearing its entry keeps the tree well formed, the plain map unchanged and the other entries that lead to tables word for word. |
| `PageTranslation.WalkStops` | libs/memory/src/page_table/page_table.rs:149-183 | A walk that stops at any level has found what the plain map says. |
| `PageTranslation.WrittenPage` | libs/memory/src/page_table/page_table.rs:193-231 | Writing the entry of a page of any size changes the translation of every address of the page as the entry says, and of no other address. |
| `PageTranslation.SamePagesSameTables` | libs/memory/src/page_table/page_table.rs:193-277 | Two trees without empty tables that map the same pages have the same tables: the tables are determined by the pages. |
| `PageTable.PageTable.IsClear` | libs/memory/src/page_table/page_table.rs:39-41 | True exactly when all 512 entries are empty. |
| `PageTable.PageTable.Translate` | libs/memory/src/page_table/page_table.rs:149-183 | The walk through memory never panics and returns, for every address, what the last write to a page holding it says. |
| `PageTable.PageTable.NextOrNewTable` | libs/memory/src/page_table/page_table.rs:202-227 | Descends one level, hanging in a table if the entry is empty; gets stuck only if the page cannot be mapped. |
| `PageTable.PageTable.Map` | libs/memory/src/page_table/page_table.rs:193-231 | For pages of 4K, 2M and 1G: succeeds exactly when no larger page covers the page and the pool has a frame for each missing table. Then the entry of the page in memory holds the frame and the flags given, with the small-page bit for 4K pages, and is present exactly when the flags say so; only this page's translation changes; entries that lead to tables stay, and new ones hold the table flags; a tree without empty tables stays so. Table frames and pool keep their frames, except those of tables that a large page overwrites. On failure no translation changes. |
| `PageTable.MissingTables` | libs/memory/src/page_table/page_table.rs:203-227 | The number of missing tables is the distance from the deepest table on the path to the page's level. |
| `PageTable.SmallPageKeepsFrames` | libs/memory/src/page_table/page_table.rs:222-230 | A 4K page overwrites no table, so table frames and pool keep all their frames. |
| `PageTable.MapMeaning` | libs/memory/src/page_table/page_table.rs:193-231 | After `map`, each 48-bit address of the page translates to frame plus offset, and each other address as before. |
| `PageTable.UnmapMeaning` | libs/memory/src/page_table/page_table.rs:233-277 | After `unmap`, each 48-bit address of the page found translates to nothing, and each other address as before. |
| `PageTable.PageTable.Unmap` | libs/memory/src/page_table/page_table.rs:233-277 | For every page size: panics exactly when there is no entry to clear; otherwise only the page cleared loses its translation. Given 4K pages, exactly the tables that became empty return to the pool, and a tree without empty tables stays so. Given a large page, this holds if and only if the entry was not the last of its table; else the source is about to give the table back at the wrong size. |
| `PageTable.LonePageIsLastEntry` | libs/memory/src/page_table/page_table.rs:244-275 | The only page mapped in an address space is such a last entry. |
| `PageTable.DeepestIsOnPath` | libs/memory/src/page_table/page_table.rs:233-262 | The walk of `unmap` goes down exactly as far as there are tables on the path of the page. |
| `PageTable.UnmapFindsMapped` | libs/memory/src/page_table/page_table.rs:233-277 | After `map`, `unmap` of the same page reaches the entry that was written. |
| `PageTable.MapThenUnmap` | libs/memory/src/page_table/page_table.rs:193-277 | Mapping a page that was not mapped and unmapping it restores the plain map, the tables with their frames, word for word, and the pool. |
| `PageTable.WriteRefines` | libs/memory/src/page_table/page_table.rs:193-277 | If every address translates by the last write to a page that holds it, so it does after one more map or unmap. |
| `PageTableRuns.RunInvariant` | libs/memory/src/page_table/page_table.rs:193-277 | In every state of every run of successful 4K maps and unmaps from a new page table: no table but the root is empty, table frames and pool keep their frames, and every address translates as the last write to its page says. |
| `PageTableRuns.TablesAreReachable` | libs/memory/src/page_table/page_table.rs:193-277 | In such a state the frames held as tables are exactly those that the pointers in memory reach, each on one path. |
| `PageTableRuns.SamePagesSameTablesInRuns` | libs/memory/src/page_table/page_table.rs:193-277 | Two runs that leave the same pages mapped leave tables on the same paths. |
| `UserTeardown.Teardown.ReleaseUserPageTable` | sophon/src/memory/utils.rs:15-37 | Releases exactly what lies under the visited entries of a table, each once and at its size, to the physical page resource, reads no released table, and leaves all other tables as they were. |
| `UserTeardown.Teardown.ReleaseAddressSpace` | sophon/src/task/proc.rs:37-45 | From the root: every table of the user part is released as a 4K frame, every other entry exactly when it is present, as the frame in it at the size of its level, and nothing else; exactly their cells return to the physical page resource, which stays valid; every kernel table is untouched. |
| `UserTeardown.CellIsBlock` | sophon/src/memory/utils.rs:23-36 | The cell returned for a page or table starts at its frame and is as large as its page. |
| `UserTeardown.SizesOfPages` | libs/memory/src/page.rs:18-36 | The sizes 4K, 2M and 1G are those of the pages that the last three levels of tables map. |
| `UserTeardown.UserByFirstIndex` | sophon/src/memory/utils.rs:17-19 | The user part is exactly what lies under the root entries below 510. |
| `UserTeardown.FramesReleasedOnce` | sophon/src/memory/utils.rs:23-36 | If no frame lies in the blocks of two user pages, none lies in two of the blocks released, of pages of any size or of tables. |
| `Scheduler.StepKeeps` | modules/round-robin/src/lib.rs:60-211 | Every operation keeps the queue free of duplicates and equal to the ready tasks, with one running task that has time left; no operation panics. |
| `Scheduler.StepChanges` | modules/round-robin/src/lib.rs:60-211 | What each operation does: a tick requeues the interrupted task behind all others, sleep and exit take the current task away, and then the head of the queue runs with a full time slice; a sleeping task that is woken and a new task join the queue at its end; nothing else changes. |
| `Scheduler.RunKeeps` | modules/round-robin/src/lib.rs:60-211 | The invariant holds in every state of every run, and no allowed event panics there. |
| `Scheduler.BoundedWaiting` | modules/round-robin/src/lib.rs:80-211 | A ready task at position k moves up with each dispatch and is run by exactly the (k+1)-st, whatever else happens. |
| `Scheduler.WaitsAtMostTicks` | modules/round-robin/src/lib.rs:192-211 | So it runs at or before the (k+1)-st timer tick. |
| `Scheduler.WakeAllSleeping` | modules/pm/src/locks.rs:33-36 | Waking a list of distinct sleeping tasks makes exactly them ready, and keeps the invariant. |
| `RoundRobinScheduler.RoundRobinScheduler.Schedule` | modules/round-robin/src/lib.rs:149-190 | The in-place method takes exactly the step of the specification, panics included. |
| `RoundRobinScheduler.RoundRobinScheduler.TimerTick` | modules/round-robin/src/lib.rs:192-211 | As above, for a timer tick. |
| `RoundRobinScheduler.RoundRobinScheduler.Sleep` | modules/round-robin/src/lib.rs:123-130 | As above, for sleeping. |
| `RoundRobinScheduler.RoundRobinScheduler.WakeUp` | modules/round-robin/src/lib.rs:132-147 | As above, for waking a task. |
| `RoundRobinScheduler.RoundRobinScheduler.Spawn` | modules/round-robin/src/lib.rs:99-106 | As above, for registering a new task. |
| `RoundRobinScheduler.RoundRobinScheduler.ExitCurrent` | modules/round-robin/src/lib.rs:108-121 | As above, for removing the current task and running another. |
| `RoundRobinScheduler.RoundRobinScheduler.WakeUpAll` | modules/pm/src/locks.rs:34-36 | The waking loop takes exactly the step of the specification. |
| `RawLocks.RawMutex.Lock` | modules/pm/src/locks.rs:21-28 | One turn of the locking loop does to lock, waiters and scheduler what the step of the transition system does. |
| `RawLocks.RawMutex.Unlock` | modules/pm/src/locks.rs:30-38 | As above, for unlocking. |
| `RawLocks.RawCondvar.Wait` | modules/pm/src/locks.rs:53-62 | As above, for waiting up to falling asleep. |
| `RawLocks.RawCondvar.NotifyAll` | modules/pm/src/locks.rs:65-72 | As above, for notifying. |
| `LockRuns.NextKeeps` | modules/pm/src/locks.rs:21-72 | Every enabled step, including timer ticks anywhere, is possible without a panic and keeps the invariant of locks, lists, program counters and scheduler. |
| `LockSteps.StepEffect` | modules/pm/src/locks.rs:21-72 | What each enabled step does to locks, waiter lists, tasks and scheduler, and that it does nothing else. |
| `LockSteps.UnlockReleases` | modules/pm/src/locks.rs:30-38 | An unlock, of a user or at the end of a wait for completion, leaves the lock free, without waiters and held by nobody, and its caller running its own code; every former waiter is ready, queued and trying for the lock; all other tasks and locks are unchanged. |
| `LockSteps.WaitReleases` | modules/pm/src/locks.rs:53-60 | Waiting on a condition variable leaves the lock free and held by nobody and the caller asleep on the variable, in one step; every waiter of the lock is awake and trying for it; all else is unchanged. |
| `LockSteps.NotifyReleases` | modules/pm/src/locks.rs:65-72 | A notification makes exactly the tasks asleep on the condition variable ready, queued and trying for their locks, and touches no lock. |
| `LockRuns.BootedIsConsistent` | modules/round-robin/src/lib.rs:149-190 | The state after boot satisfies the invariant. |
| `LockRuns.RunIsConsistent` | modules/pm/src/locks.rs:21-72 | The invariant holds in every state of every run. |
| `LockRuns.MutualExclusion` | modules/pm/src/locks.rs:21-38 | No two tasks hold the same lock, and a held lock is locked. |
| `LockRuns.NoLostWakeup` | modules/pm/src/locks.rs:21-38 | A sleeping task is in exactly one waiter list, once; if it waits for a lock, that lock is locked and held by an existing task. |
| `LockRuns.OthersOnlyWake` | modules/pm/src/locks.rs:33-36 | A step of another task leaves a task where it is or wakes it. |
| `LockRuns.WaitReturnsWithLock` | modules/pm/src/locks.rs:53-63 | A task that waits or tries to lock goes on only with the lock in hand. |
| `LockRuns.WaitEndsWithLock` | modules/pm/src/locks.rs:21-63 | In every run, when a task asleep or trying for a lock first stops doing so, it holds that lock and goes on where it should. |
| `LockRuns.NotifyWakes` | modules/pm/src/locks.rs:65-72 | Notifying makes every waiter ready and empties the list. |
| `LockRuns.NobodyAboutToWait` | libs/sync/src/lib.rs:118-153 | When a task is about to say it is dead, no task is between finding it alive and waiting for it. |
| `LockRuns.NoOneLeftAsleep` | modules/pm/src/task.rs:50-77 | Once a task has said it is dead and released its monitor, whoever waits for it is awake, or asleep only for the monitor's lock, which an awake waiter holds. |
| `LockRuns.CompletionIsSeen` | modules/pm/src/task.rs:50-77 | This holds at every later point of every run. |
| `LockRuns.ReturnsOnlyWhenDead` | modules/pm/src/task.rs:72-77 | Waiting for completion ends only when the target is dead. |
| `Paths.JoinSplit` | modules/vfs/src/lib.rs:117-138 | Joining the segments of a split gives the string back. |
| `Paths.SegmentsJoin` | modules/vfs/src/lib.rs:117-138 | Names joined by slashes come apart into the same names. |
| `WorkingDirectory.ResolveComposes` | modules/vfs/src/lib.rs:110-139 | Resolving a/b is resolving b in the directory a resolves to, errors included. |
| `WorkingDirectory.ResolveIsNormal` | modules/vfs/src/lib.rs:110-139 | From a normal directory a relative path resolves to a path without empty, dot or dot-dot segments. |
| `WorkingDirectory.NormalIsFixed` | modules/vfs/src/lib.rs:110-139 | Resolving the dot keeps a normal directory. |
| `WorkingDirectory.ResolveSegment` | modules/vfs/src/lib.rs:125-138 | From any directory, the dot leads nowhere, a name to the entry of that name, and the double dot to the directory above, or to an error at the root. |
| `WorkingDirectory.ResolveNames` | modules/vfs/src/lib.rs:125-138 | A path of plain names leads down by these names. |
| `WorkingDirectory.ResolveDownAndUp` | modules/vfs/src/lib.rs:125-138 | Down by a name and up again leads back. |
| `WorkingDirectory.ChdirComposes` | modules/vfs/src/lib.rs:101-109 | Two changes of directory end where their composition does. |
| `WorkingDirectory.ProcData.Canonicalize` | modules/vfs/src/lib.rs:110-139 | The loop with its segment stack computes the path specified by following segments: an absolute path stands for itself, plain names are appended to the directory, and the double dot takes its last name away or fails at the root. |
| `WorkingDirectory.ProcData.SetCwd` | modules/vfs/src/lib.rs:101-109 | Changes the directory, to the path resolved, exactly when the path resolves to an existing directory, and keeps it absolute. |
| `RamFs.ComponentsConcat` | libs/vfs/src/ramfs.rs:32-35 | A component ends at a slash; what follows the slash, if anything, gives the other components. |
| `RamFs.ComponentsAreSplit` | libs/vfs/src/ramfs.rs:32-35 | The components of a path are the segments between its slashes, one slash at its end ignored. |
| `RamFs.GetByComponents` | libs/vfs/src/ramfs.rs:31-44 | Lookup depends only on the components of a path. |
| `RamFs.PutByComponents` | libs/vfs/src/ramfs.rs:50-73 | So does insertion. |
| `RamFs.PutSucceeds` | libs/vfs/src/ramfs.rs:50-73 | Insertion succeeds if and only if the path is vacant and nothing but directories is on the way. |
| `RamFs.PutThenGet` | libs/vfs/src/ramfs.rs:31-73 | After insertion, lookup finds the leaf on every path with the same components, a directory on every path to it, and on every other path what it found before. |
| `RamFs.RunHolds` | libs/vfs/src/ramfs.rs:31-73 | After any run of insertions into an empty file system, a path holds the leaf inserted there, a directory if a leaf was inserted below it, and else nothing. |
| `RamFs.InsertThenLookup` | libs/vfs/src/ramfs.rs:149-177 | The file system finds the leaf by the path it was inserted at if and only if that is not the root path. |
| `RamFs.RootPathIsNotFound` | libs/vfs/src/ramfs.rs:149-177 | A leaf inserted at the root path of an empty file system is not found there. |
| `RamFs.RamFs.GetEntry` | libs/vfs/src/ramfs.rs:149-156 | Lookup of an absolute path by its components; the root path gives the root. |
| `RamFs.RamFs.Insert` | libs/vfs/src/ramfs.rs:158-177 | Succeeds exactly on vacant paths and then changes what is found as the law says; otherwise nothing changes. |

## Left out

- BitMapPageAllocator.BitMapPageAllocator.SearchAndAllocateCell: heaps of fewer than 64 units are excluded, because the source's unsigned subtraction of 6 from the log of the units underflows there.
- BitMapPageAllocator.SiblingCell: exclusive-or and masks on units are written as the arithmetic they amount to on aligned units.
- SizeClassLists.Pool.Push: addresses are unbounded naturals, so overflow at the end of the 64-bit address space is not modelled.
- FreeListAllocator.FreeListAllocator.AllocCellSlow: a range at address zero from the page resource is excluded: the loop's shift by the trailing zeros overflows there.
- PageTable.PageTable.Unmap: where the source is about to give a table back at the size of a large page, the model stops; what the allocator would do with it is not modelled.
- PageTable.PageTable.Map: `translate` and `map` use the tables through the identity mapping, so a frame is its own address; aliasing of data frames with table frames is not modelled, except in teardown, where it is excluded.
- UserTeardown.Teardown.ReleaseUserPageTable: pages and tables of the user part are taken to be distinct cells handed out by the physical page resource, with no page over a table; entries that are not empty but not present are skipped, as in the source, and so are not released.
- Scheduler.ExitCurrent: only the running task exits; removal of a process whose other threads are still queued is not modelled.
- Scheduler.StepKeeps: one core only, as the kernel's service for the number of cores answers.
- Locks.Enabled: a user unlocks, or waits with, only locks it holds, exits holding none, and uses a task's monitor only through `exit` and `wait_for_completion`; task ids are not reused.
- LockRuns.NoOneLeftAsleep: says that nobody is left asleep, not that everybody returns: that would need fairness among waiters, which `lock` does not give.
- RamFs.RamFs.Insert: the nested maps are updated as values; `insert` and `mount` differ only in the leaf.
- WorkingDirectory.ProcData.Canonicalize: an absolute path is returned as it is, as in the source, so it need not be normal.
- `sbrk`, `identity_map`, `update_flags` and switching between address spaces, which only call what is modelled or write registers.
- The lock wrappers over values whose construction records the interrupt state without disabling interrupts.
- Mapping and unmapping of the kernel heap's pages: released virtual ranges are never given back, so it has no inverse law.
- File descriptors, mount lookup and walking of paths across file systems.
- Device drivers, interrupt controller, timer, exception entry, cache and TLB maintenance, boot, ELF and device-tree loading, serialization.
