# Address-translation simulator: a verified model

This project models the translation core of the memory-management simulator.
It covers:

- the two physical allocators: the bitmap `MemoryManager` that every `Task` shares, and the legacy set-and-queue allocator behind `taskmulti`;
- the three page-table strategies of `Task` (hash map, flat array, lazily filled two-level table) and their hit/miss/frame accounting;
- the 64-entry LRU translation lookaside buffer;
- `taskmulti`, a two-level page directory with a TLB in front;
- the text format of trace lines: the `IO_Module` parser and its `run` loop, the older `processLine`/`parseSize` readers of `io.cpp` and `iomulti.cpp`, and the generators in `TestModule` and `test.cpp`;
- the configuration constants.

One Dafny module stands for each part of the program:

| file | module | models |
|---|---|---|
| common.dfy | `Common` | `Option`, 32/64-bit wrap-around, decimal and hex digits, the number parsing that `std::stoull`/`stoul`/`stoi` do |
| config.dfy | `Config` | `include/config.h`: page sizes, memory sizes, two-level split, section bases |
| frame_allocator.dfy | `FrameAllocator` | `include/memory_manager.h`: first-fit bitmap allocator, as a class over an `array<bool>` |
| legacy_allocator.dfy | `LegacyAllocator` | `src/memory_manager.cpp`: free set, allocated set, FIFO recycle queue |
| translation.dfy | `Translation` | the page arithmetic of a request, and hits, misses and mapped pages as functions of the visited pages |
| task.dfy | `Tasks` | `Task`: class with a tagged page-table variant, `process_request` as a loop over pages |
| tlb.dfy | `Tlb` | `TLB`: recency list plus index map, with a consistency invariant |
| taskmulti.dfy | `MultiLevel` | `taskmulti`: nested directory maps plus an owned TLB that always agrees with them |
| trace_format.dfy | `TraceFormat` | `IO_Module::parse_line`, the skip rules of `run`, and the legacy `parseSize`/`processLine` |
| io_spec.dfy | `IoSpec` | a fold over trace lines that gives each task the pages it visits; frame accounting across tasks |
| io_module.dfy | `IoModule` | `IO_Module::run` as a class whose loop creates and dispatches to `Task` objects |
| legacy_io.dfy | `LegacyIo` | `readTraceFile`/`processLine` of `io.cpp` (addresses per task) and of `iomulti.cpp` (driving `TaskMulti`) |
| generator.dfy | `Generator` | `TestModule` (`size_to_string`, `write_request`, `generate_for_task`) and the `test.cpp` generator |

The main results are these:

- `Task.ProcessRequest` is proved against `HitCount`/`MissCount`/`Seen` over the pages of the request. `StrategiesAgree` shows that the three strategies give identical counts with 4 KB pages.
- `IOModule.RunTrace` ties each task's counters to the pages that the trace lines addressed to it request. Every frame mapped by any task's table is allocated in the shared bitmap, and no frame is mapped twice (`FramesAccounted`, `FrameUniqueness`).
- Every `TLB` operation keeps its list and map consistent with each other and keeps the list within 64 entries.
- Every `TaskMulti` operation keeps the TLB agreeing with the page directory.
- Parsing round-trips with generation: `RequestLineRoundTrip`, `TestLineRoundTrip` and `TaskTraceLinesRead`.

Source behaviour a reader might not expect, which the model follows:

- The task id is the text before the first ':' with every whitespace character removed (src/io_module.cpp:64).
- A page that fails with out of range or out of memory stops the rest of its request and the whole `run`. The exception is not caught (src/task.cpp:125-127, src/io_module.cpp:44).
- `TLB::add` of a page already present pushes a second node for it and leaves the first in the list, so the model requires an absent page.
- The legacy allocator recycles pages from its queue when the free set is empty (src/memory_manager.cpp:18-37). No code ever pushes to that queue, so this path never runs.
- A two-level task creates and counts a second-level array before it allocates the frame, so a request that runs out of memory still adds the array of the page that failed (src/task.cpp:163-171).

## Model

| member | source | states |
|---|---|---|
| Common.ParseNumber | src/io_module.cpp:74 | an accepted number never exceeds the limit; a larger value is rejected, as `stoull`/`stoul`/`stoi` throw out_of_range |
| Common.DecimalRoundTrip | src/test_module.cpp:117-127 | reading back a number written in decimal, with any non-digit text after it, gives the same number |
| Common.HexRoundTrip | src/io_module.cpp:68-77 | reading "0x" followed by the hex digits of n in base 16 gives n, in either letter case |
| Common.ParseAfterSpaces | src/io_module.cpp:74 | leading whitespace does not change what is parsed, as the standard conversions skip it |
| Config.SizesArePowersOfTwo | include/config.h:27-62 | virtual memory is 2^32, physical memory 2^30, each level has 2^10 entries, and the page sizes are 2^10, 2^12 and 2^14 |
| Config.ConfiguredPageSizesValid | include/config.h:27-44 | each configured page size is non-zero and divides physical memory, so it passes the checks of `Task` and `TestModule` |
| Config.ValidPageSizeIsPowerOfTwo | src/task.cpp:17-20 | every page size the `Task` check accepts is a power of two of at most 2^30 |
| Config.TwoLevelSplitExact | include/config.h:47-62 | for an accepted page size, the 10/10 split covers the virtual pages exactly iff the page size is 4096 |
| Config.TwoLevelSplitOtherSizes | include/config.h:47-62 | 1 KB pages give four times the pages that the split covers, and 16 KB pages a quarter of them |
| Config.SectionBases | include/config.h:69-73 | there are five section base addresses, in section order |
| Config.SectionBasesAligned | include/config.h:65-73 | each base lies below the virtual memory size and is a multiple of 64 KB, hence of every page size |
| FrameAllocator.CountFree | include/memory_manager.h:42-45 | the free count is at most the bitmap's length and is zero iff no slot is free |
| FrameAllocator.CountFreeAllocate | include/memory_manager.h:26-29 | taking a free slot lowers the free count by exactly one |
| FrameAllocator.CountFreeRelease | include/memory_manager.h:31-35 | freeing an allocated slot raises the free count by exactly one |
| FrameAllocator.CountFreeAllFree | include/memory_manager.h:20-23 | in an all-free bitmap, the free count is the length |
| FrameAllocator.AllocatedCount | include/memory_manager.h:42-45 | allocated frames plus free frames is the total number of frames |
| FrameAllocator.MemoryManager.constructor | include/memory_manager.h:20-23 | physical memory / page size frames, all free |
| FrameAllocator.MemoryManager.AllocateFrame | include/memory_manager.h:26-29 | returns the lowest free frame and marks only that one allocated, lowering the free count by one; returns -1 exactly when no frame is free, and then changes nothing |
| FrameAllocator.MemoryManager.FreeFrame | include/memory_manager.h:31-35 | requires a frame below the total; marks exactly that slot free; freeing an allocated frame raises the free count by one |
| FrameAllocator.MemoryManager.TotalFrames | include/memory_manager.h:37-40 | physical memory size / page size, fixed at construction |
| FrameAllocator.MemoryManager.FreeFrames | include/memory_manager.h:42-45 | the number of free slots in the bitmap, never above the total |
| FrameAllocator.MemoryManager.TotalMemorySize | include/memory_manager.h:47-50 | total frames × page size: at most physical memory, and all of it for a dividing page size |
| FrameAllocator.MemoryManager.FreeMemorySize | include/memory_manager.h:52-55 | free frames × page size, never above the total memory size |
| LegacyAllocator.AllPages | src/memory_manager.cpp:5-10 | exactly the pages 0 .. n-1 |
| LegacyAllocator.SetMin | src/memory_manager.cpp:38-42 | the least element of the free set, which is the first element of a `std::set` |
| LegacyAllocator.ReplacementIndex | src/memory_manager.cpp:18-37 | the position of the first queued page still allocated; every page before it is not allocated |
| LegacyAllocator.HandoutFromEmptyQueue | src/memory_manager.cpp:17-43 | with the queue empty, which no code ever fills, a handed-out page was free and not allocated and is moved from the free set to the allocated set; the allocator is exhausted iff no page is free |
| LegacyAllocator.HandoutRecycles | src/memory_manager.cpp:18-37 | with no free page, a page handed out is one already allocated and queued, so it is recycled in place and both sets are unchanged |
| LegacyAllocator.LegacyMemoryManager.constructor | src/memory_manager.cpp:5-10 | every page 0 .. total-1 free, none allocated, queue empty |
| LegacyAllocator.LegacyMemoryManager.AllocatePage | src/memory_manager.cpp:17-43 | with a free page, hands out the least one and moves it to the allocated set; otherwise pops the queue up to the first allocated page and hands that one out again, or drains the queue and reports exhaustion; free and allocated stay a partition of all pages |
| LegacyAllocator.LegacyMemoryManager.RecycleFromQueue | src/memory_manager.cpp:18-37 | drops queued pages that are not allocated; the first allocated one is moved to free and the queue continues after it; with none, the queue ends empty |
| LegacyAllocator.LegacyMemoryManager.DeallocatePage | src/memory_manager.cpp:45-49 | an allocated page moves to the free set; any other page changes nothing |
| LegacyAllocator.LegacyMemoryManager.GetFreePageCount | src/memory_manager.cpp:51-53 | at most the total number of pages |
| LegacyAllocator.LegacyMemoryManager.GetAllocatedPageCount | src/memory_manager.cpp:55-57 | free count plus allocated count is the total number of pages |
| Translation.PageCount | src/task.cpp:65 | the least n with n pages covering the size: n × page size ≥ size > (n - 1) × page size |
| Translation.WrappedPageCountAgrees | src/task.cpp:65 | while size + page size - 1 fits the integer width, the count computed in that width equals `PageCount` |
| Translation.WrappedPageCountOverflow | src/task.cpp:65 | when size + page size - 1 reaches the modulus, the count computed in that width is 0 although the size is not |
| Translation.WrappedPageCountOverflow64 | src/task.cpp:65 | a size of 2^64 - 1024 with 4096-byte pages gives 0 pages in 64-bit arithmetic instead of 2^52 |
| Translation.WrappedPageCountOverflow32 | src/io.cpp:55 | a size of 2^32 - 1024 with pages of at least 2 KB gives 0 pages in 32-bit arithmetic, and a positive count without wrapping |
| TraceFormat.LegacySizeNoWrapAt1K | src/io.cpp:54-55 | with 1 KB pages the 32-bit count never wraps: every size parseSize yields is a multiple of 1024 below 2^32, and its wrapped page count equals the rounded-up quotient |
| Translation.PageRange | src/task.cpp:67-68 | count page numbers, the i-th being start + i modulo 2^64 |
| Translation.RequestPagesStart | src/task.cpp:59-81 | a request visits no page iff its size is 0; otherwise its first page is address / page size |
| Translation.AlignedRequestCoversBytes | include/task.h:51 | for an aligned address, the last visited page is the one holding the request's last byte |
| Translation.UnalignedRequestSkipsPage | include/task.h:51 | an unaligned 2-byte request at 4095 visits only page 0 though it touches page 1 |
| Translation.Seen | include/task.h:46-50 | a page is mapped after a visit sequence iff it was mapped before or was visited |
| Translation.HitsPlusMisses | src/task.cpp:117-186 | every visited page counts exactly once, as a hit or as a miss |
| Translation.MissesAreNewPages | include/task.h:46-50 | misses are exactly the pages newly added to the table |
| Translation.RevisitAllHits | include/task.h:46-50 | revisiting mapped pages gives only hits and maps nothing new |
| Translation.CountsAppend | src/task.cpp:67-80 | hits, misses and mapped pages of two consecutive visit sequences compose |
| Translation.TracePagesMember | src/io_module.cpp:37-44 | a page of any dispatched request is among the pages of the whole trace |
| Tasks.CountSome | include/task.h:87-88 | the number of created second-level arrays never exceeds the directory size |
| Tasks.CountSomeCreate | src/task.cpp:163-171 | creating a second-level array at an empty slot raises the count by one |
| Tasks.CountSomeNone | src/task.cpp:34-38 | a directory of null slots counts zero arrays |
| Tasks.CountSomeCreated | include/task.h:87-88 | the counted arrays are exactly the directory slots that hold one |
| Tasks.CreatedReplace | src/task.cpp:183 | storing into an existing second-level array keeps the set of created slots |
| Tasks.DirectoryIndicesStep | src/task.cpp:156 | the directory indices of a run of pages grow by vpn >> 10 of each further page |
| Tasks.DirectoryIndicesAppend | src/task.cpp:156 | the directory indices of two runs together are those of each run |
| Tasks.Touched | src/task.cpp:67-80 | the pages whose visit began: the completed ones, plus the one that ran out of memory |
| Tasks.CreatedBy | src/task.cpp:151-171 | a two-level visit leaves an array at vpn >> 10 exactly when the range check passes |
| Tasks.CreatedAdvances | src/task.cpp:67-80 | after one more visit, the created slots are those held before the request plus the directory indices of the pages touched |
| Tasks.CreatedAfterRequest | src/task.cpp:59-81 | after one more completed request, the created slots are those held before the trace plus the directory indices of its pages so far |
| Tasks.SingleAbsEmpty | src/task.cpp:27-31 | a flat table filled with -1 maps no page |
| Tasks.SingleAbsStore | src/task.cpp:146 | storing a frame in slot v maps page v to it and changes nothing else |
| Tasks.TwoLevelAbsCreate | src/task.cpp:163-171 | adding a second-level array filled with -1 maps no new page |
| Tasks.TwoLevelAbsStore | src/task.cpp:156-157 | storing a frame at (vpn >> 10, vpn & 1023) maps page vpn to it and changes nothing else |
| Tasks.VisitAdvances | src/task.cpp:117-186 | a completed page visit extends the table by that page, adds its hit or miss, and uses one frame per new page |
| Tasks.VisitStops | src/task.cpp:124-129 | a failed page visit changes nothing; out of range means the page is beyond the table, out of memory means a new page found no free frame |
| Tasks.TakesNothing | src/task.cpp:118-121 | a hit takes no frame |
| Tasks.TakesOne | src/task.cpp:124-128 | a miss that stores a free frame takes exactly that frame |
| Tasks.TakesMore | src/task.cpp:67-80 | the frames taken by successive visits are fresh and distinct across the whole request |
| Tasks.FramesHeldAfter | src/task.cpp:117-186 | after taking frames, every frame in a table is allocated and no two pages share one |
| Tasks.Task.constructor | src/task.cpp:5-44 | empty table and zero counters; SINGLE gets one -1 slot per virtual page and TWO_LEVEL 1024 null slots |
| Tasks.Task.MapProcess | src/task.cpp:117-131 | hit or miss on the map per the page-visit rule, taking a free frame for a miss |
| Tasks.Task.SingleProcess | src/task.cpp:133-149 | out of range iff vpn ≥ virtual pages; otherwise hit or miss per the page-visit rule |
| Tasks.Task.EnsureSecondLevel | src/task.cpp:163-171 | a missing second-level array is created filled with -1 and counted once; an existing one is kept; the created slots gain exactly this index; no mapping changes |
| Tasks.Task.TwoLevelProcess | src/task.cpp:151-186 | out of range iff vpn >> 10 ≥ 1024, and then the directory is unchanged; otherwise the created slots gain exactly vpn >> 10, counted if new, even when the frame allocation then fails |
| Tasks.Task.VisitPage | src/task.cpp:67-80 | one iteration of the request loop keeps the loop invariant, moving past the page exactly when the visit succeeded and counting the page as touched when it ran out of memory |
| Tasks.Task.Access | src/task.cpp:69-79 | dispatches to the task's strategy; the table only grows, the new frames were free and are now taken, and a two-level directory gains the array of the page unless it was out of range |
| Tasks.Task.ProcessRequest | src/task.cpp:59-81 | visits the request's pages in ascending order up to the first failing one: counters grow by the hits and misses of the visited prefix, the table maps exactly the earlier pages plus that prefix, old mappings are kept, and each new page took its own free frame; a two-level directory holds exactly its old arrays plus one per directory index of the visited pages and of a page that ran out of memory, and that is the array count; other tables keep no directory |
| Tasks.Task.GetPageTableMemory | src/task.cpp:91-115 | MAP: 16 bytes per entry; SINGLE: 8 bytes per virtual page, however many are mapped; TWO_LEVEL: 8 × 1024 plus 8 × 1024 per directory slot holding a second-level array |
| Tasks.NewTask | src/task.cpp:17-20 | construction fails exactly for a page size that is 0 or does not divide physical memory |
| Tasks.RunRequests | src/task.cpp:59-81 | with all pages in range and enough frames, a request sequence adds the hit and miss counts of all its pages and maps exactly them besides the old pages; a two-level directory then holds its old arrays plus one per distinct directory index of those pages, and counts them |
| Tasks.RequestCompletes | src/task.cpp:59-81 | with all pages in range and enough free frames, no request stops early |
| Tasks.TraceStep | src/task.cpp:59-81 | the counts of a request sequence extend by those of its next request |
| Tasks.StrategiesAgree | src/task.cpp:117-186 | with 4 KB pages, pages below 2^20 and enough frames, MAP, SINGLE and TWO_LEVEL give identical hit and miss counts for any request sequence |
| Tasks.RunFresh | src/task.cpp:59-115 | a fresh task of any strategy counts the hits and misses of the trace's pages; its page-table memory is then 16 bytes per distinct page (MAP), 8 × 2^20 (SINGLE), or 8 × 1024 plus 8 × 1024 per distinct directory index of the pages (TWO_LEVEL) |
| Tasks.InRangeOf4K | src/task.cpp:133-161 | with 4 KB pages, SINGLE and TWO_LEVEL accept exactly the pages below 2^20, and MAP accepts every page |
| Tlb.Without | src/tlb.cpp:33-39 | removes the entries of one page and keeps the others in order |
| Tlb.WithoutUnique | src/tlb.cpp:33-39 | removing entries keeps page numbers unique |
| Tlb.WithoutLength | src/tlb.cpp:33-39 | removing a held page shortens the list by one; removing an absent page changes nothing |
| Tlb.PromoteIndexed | src/tlb.cpp:10-13 | moving a hit entry to the front keeps list and index consistent and the size unchanged |
| Tlb.PushIndexed | src/tlb.cpp:27-30 | putting a new page's entry at the front and in the index keeps them consistent |
| Tlb.DropIndexed | src/tlb.cpp:22-25 | evicting the back entry from both list and index keeps them consistent |
| Tlb.RemoveIndexed | src/tlb.cpp:33-39 | invalidating a page in both list and index keeps them consistent |
| Tlb.CountOneMore | include/tlb.h:25-26 | a 32-bit counter increment keeps hits + misses equal to the lookups modulo 2^32 |
| Tlb.HitConsistent | src/tlb.cpp:6-14 | a hit keeps the TLB invariant |
| Tlb.MissConsistent | src/tlb.cpp:16-17 | a miss keeps the TLB invariant |
| Tlb.EvictConsistent | src/tlb.cpp:22-25 | eviction at capacity keeps the invariant and leaves room for one entry |
| Tlb.PushConsistent | src/tlb.cpp:27-30 | adding below capacity keeps the invariant |
| Tlb.RemoveConsistent | src/tlb.cpp:33-39 | invalidation keeps the invariant and changes nothing for an absent page |
| Tlb.TLB.constructor | src/tlb.cpp:4 | empty list and index, zero counters |
| Tlb.TLB.Lookup | src/tlb.cpp:6-18 | hit iff the page is indexed: returns its frame, moves it to the front and counts a hit; a miss counts a miss and leaves contents and order alone |
| Tlb.TLB.Add | src/tlb.cpp:20-31 | at 64 entries evicts exactly the back entry from list and index; puts the new entry at the front and indexes it; counters unchanged |
| Tlb.TLB.Invalidate | src/tlb.cpp:33-39 | removes the page from list and index, keeping the others' order; a no-op for an absent page |
| Tlb.TLB.InvalidateAll | src/tlb.cpp:41-44 | empties list and index and keeps the counters |
| Tlb.TLB.GetStats | src/tlb.cpp:46-49 | returns the counters unchanged; hits + misses equals the number of lookups modulo 2^32 |
| MultiLevel.DirectoryIndex | src/taskmulti.cpp:16-17 | bits 31-22 of the address, below 1024 |
| MultiLevel.TableIndex | src/taskmulti.cpp:18-19 | bits 21-12 of the address, below 1024 |
| MultiLevel.VirtualPageIsShift | src/taskmulti.cpp:16-20 | for a 32-bit address, the virtual page is address >> 12, below 2^20, with the directory index its high 10 bits and the table index its low 10 |
| MultiLevel.JoinSplits | src/taskmulti.cpp:20 | joining a directory index and a table index gives a page below 2^20 that splits back into the same two |
| MultiLevel.FlattenLookup | include/taskmulti.h:15-18 | page (d, t) is mapped iff the directory holds d and d's table holds t, and it maps to that table's entry |
| MultiLevel.FlattenCreate | src/taskmulti.cpp:33-36 | creating an empty table maps no new page |
| MultiLevel.FlattenStore | src/taskmulti.cpp:53 | storing a page at (d, t) maps exactly that page anew |
| MultiLevel.FlattenErase | src/taskmulti.cpp:80 | erasing (d, t) unmaps exactly that page |
| MultiLevel.FlattenPrune | src/taskmulti.cpp:85-88 | removing an empty table unmaps nothing |
| MultiLevel.AgreesAfterAdd | src/taskmulti.cpp:61 | adding a TLB entry taken from the directory keeps the TLB agreeing with it |
| MultiLevel.Allocation | src/taskmulti.cpp:45-58 | a table miss corresponds to an allocation result holding the same page; an exhausted allocator, to no page |
| MultiLevel.AccessCountsOnce | src/taskmulti.cpp:24-58 | every access adds one to page_hits + page_misses modulo 2^32 |
| MultiLevel.TaskMulti.constructor | src/taskmulti.cpp:8-12 | empty directory, zero counters, an empty TLB of its own |
| MultiLevel.TaskMulti.AccessMemory | src/taskmulti.cpp:14-62 | TLB hit iff the TLB holds the page. On a TLB or table hit the mapping and the allocator are unchanged and a hit is counted. On a table miss a miss is counted and the page that the legacy allocator hands out is stored, so it is allocated afterwards. Unless the allocator threw, the TLB then maps the page to the directory's frame. The TLB agrees with the directory throughout. TLB state: one more lookup. A TLB hit moves the hit entry to the front, keeps the index and counts a TLB hit. Any other outcome counts a TLB miss. After a table hit or miss the list and index are exactly those of `TLB.add` (evict the back entry at 64, push the clean entry in front). When the allocator threw they are unchanged |
| MultiLevel.TaskMulti.Translate | src/taskmulti.cpp:19-62 | AccessMemory for the VPN of directory index d and table index t, without the address history: the same outcome, counter, directory, allocator and TLB facts |
| MultiLevel.TaskMulti.ResolveMiss | src/taskmulti.cpp:33-61 | after a TLB miss: walks the directory and records the result in the TLB. The TLB counters are unchanged. When the allocator threw, the TLB list and index are unchanged. Otherwise they are those of `TLB.add` of the page and its directory frame |
| MultiLevel.TaskMulti.Remember | src/taskmulti.cpp:61 | the TLB now maps the page to its directory frame, still agreeing with the directory. The list and index are exactly those of `TLB.add` (back entry evicted at 64, clean entry in front), and the counters are unchanged |
| MultiLevel.TaskMulti.WalkPageTable | src/taskmulti.cpp:33-58 | a table hit returns the stored page; a miss stores the allocator's page; the allocator's change is the one allocation |
| MultiLevel.TaskMulti.PageMiss | src/taskmulti.cpp:45-58 | counts one miss modulo 2^32 and stores exactly the page handed out; nothing is stored if the allocator is exhausted |
| MultiLevel.TaskMulti.EnsureTable | src/taskmulti.cpp:33-36 | the directory holds d afterwards, a new d with an empty table; no mapping changes |
| MultiLevel.TaskMulti.MapNewPage | src/taskmulti.cpp:51-53 | stores the page handed out by one allocation, or nothing when the allocator is exhausted |
| MultiLevel.TaskMulti.AccessMemoryNeg | src/taskmulti.cpp:70-95 | for a mapped page: releases its frame if allocated, erases the entry, removes the directory index once empty, and invalidates the page in the TLB keeping the others' order. For an unmapped page: no state changes |
| TraceFormat.TrimFront | src/io_module.cpp:25 | drops exactly the leading spaces, tabs, CRs and LFs |
| TraceFormat.TrimBack | src/io_module.cpp:26 | drops exactly the trailing spaces, tabs, CRs and LFs |
| TraceFormat.Trim | src/io_module.cpp:70-71 | the result neither starts nor ends with one of " \t\r\n" |
| TraceFormat.RemoveSpaces | src/io_module.cpp:64 | keeps exactly the non-whitespace characters |
| TraceFormat.SplitOnce | src/io_module.cpp:62 | splits at the first separator, or fails iff there is none |
| TraceFormat.SplitLineFields | src/io_module.cpp:62-80 | the three fields are the text before the first ':', between it and the second, and the rest of the line; a line without ':' has no fields |
| TraceFormat.SplitJoined | src/io_module.cpp:62-80 | fields joined with ':' split back into the same fields |
| TraceFormat.ParseSizeField | src/io_module.cpp:80-103 | an accepted size is below 2^64; its value is stated by `Generator.SizeFieldValue` |
| TraceFormat.ParseSizeFieldSuffix | src/io_module.cpp:85-94 | an accepted size field, trimmed, ends in KB or MB in any letter case |
| TraceFormat.ParseLine | src/io_module.cpp:52-106 | a line without two fields is rejected; an accepted line's address and size fit 64 bits and its task id holds no whitespace |
| TraceFormat.ParseLineOfFields | src/io_module.cpp:52-106 | a line whose id, hex address and size fields parse yields exactly those values; a bad size rejects it |
| TraceFormat.FewColonsRejected | src/io_module.cpp:68 | a line with fewer than two ':' is rejected |
| TraceFormat.Occurs | src/io.cpp:17-19 | the pattern can only occur in a text at least as long |
| TraceFormat.ParseSizeLegacy | src/io.cpp:15-28 | the result fits 32 bits; a field with neither "KB" nor "MB" gives 0; its value with a unit is stated by `Generator.LegacySizeValue` |
| TraceFormat.ProcessLineLegacy | src/io.cpp:31-51 | a line without two ':' separators and a rest is skipped; an accepted line has a non-empty id and a 32-bit address and size |
| TraceFormat.ProcessLineLegacyOfFields | src/io.cpp:36-47 | with three non-empty fields that parse, the line accesses the untrimmed id at the address truncated to 32 bits with the parsed size |
| TraceFormat.LegacyAccessAddresses | src/io.cpp:54-60 | one 32-bit address per page of the size |
| TraceFormat.LegacyAccessAddressAt | src/io.cpp:58 | the i-th access is at address + i × page size modulo 2^32 |
| TraceFormat.LegacyVisitsRequestPages | src/io.cpp:54-60 | for an aligned request within 32 bits, the legacy reader visits the same pages as `process_request` |
| IoSpec.LineRequest | src/io_module.cpp:24-35 | empty or '#' lines yield no request; otherwise the request is the parse of the trimmed line |
| IoSpec.IdOf | src/io_module.cpp:37-41 | a request names exactly one task; a skipped line names none |
| IoSpec.TaskIdsStep | src/io_module.cpp:37-41 | the tasks of a trace grow by the id of each parsed line |
| IoSpec.Own | src/io_module.cpp:44 | a line contributes one request to a task iff it parses and names that task |
| IoSpec.VisitRequestPrior | src/io_module.cpp:44 | dispatching a line extends its own task's visited pages by the request's pages |
| IoSpec.VisitsKeys | src/io_module.cpp:37-41 | the tasks with visits are exactly the ids of the parsed lines |
| IoSpec.VisitsPerTask | src/io_module.cpp:37-44 | each task visits exactly the pages of its own requests, in trace order |
| IoSpec.VisitsStep | src/io_module.cpp:23-45 | the fold over lines advances one line at a time |
| IoSpec.VisitsSkip | src/io_module.cpp:27-35 | a skipped line changes nobody's visits |
| IoSpec.FramesAdd | src/io_module.cpp:38-41 | a new task with an empty table keeps frames accounted |
| IoSpec.ValuesInFrames | src/io_module.cpp:44 | every frame of one task's table is among all tasks' frames |
| IoSpec.FramesOfUpdate | src/io_module.cpp:44 | a task's growth adds exactly its new frames to the frames of all tasks |
| IoSpec.FramesServe | src/io_module.cpp:44 | one task taking free frames keeps all tasks' frames allocated, distinct within and across tasks, and equal with the pre-existing ones to the bitmap's allocated set |
| IoSpec.FrameUniqueness | src/io_module.cpp:16-46 | starting from an all-free allocator, a frame is in some table iff it is allocated, and their number is total frames - free frames |
| IoModule.Serve | src/io_module.cpp:44 | a task's process_request extends its visited pages by the visited prefix, and the status tells why it stopped |
| IoModule.IOModule.constructor | src/io_module.cpp:5-14 | no tasks; keeps the strategy, page size and allocator |
| IoModule.IOModule.RunLine | src/io_module.cpp:27-44 | one line: skip, create on first sight, dispatch, exactly as the line transition says |
| IoModule.IOModule.AddTask | src/io_module.cpp:38-41 | creates the task iff the page size is valid; other tasks keep their identity |
| IoModule.IOModule.Dispatch | src/io_module.cpp:44 | the named task's visits grow by the request's visited pages, and frames stay accounted across tasks |
| IoModule.IOModule.DispatchTracked | src/io_module.cpp:44 | the named task's table grows and takes free frames; the other tables stay the same |
| IoModule.IOModule.Step | src/io_module.cpp:23-45 | one loop iteration advances the fold by one line, or stops with the failing line's effect |
| IoModule.IOModule.Run | src/io_module.cpp:16-46 | a completed run has visited exactly the fold of the trace; a stopped run has handled the lines before the failing one, plus that line's partial effect |
| IoModule.RunTrace | src/io_module.cpp:16-46 | after a completed run, the tasks are the trace's ids and each counts the hits and misses of its own requests' pages. Frames are distinct within and across tasks and are accounted against the shared bitmap |
| LegacyIo.ParseLegacyLines | src/io.cpp:74-77 | one parsed line per trace line |
| LegacyIo.LegacyTraceStep | src/io.cpp:74-77 | the trace advances one line at a time and stays thrown once a line threw |
| LegacyIo.LegacyTraceStaysThrown | src/io.cpp:74-77 | an exception on some line ends the whole read |
| LegacyIo.LegacyTraceThrows | src/io.cpp:26-47 | the read throws iff some line with three non-empty fields has an address or a size number that the standard conversions reject |
| LegacyIo.LegacyTraceTasks | src/io.cpp:49-60 | a task exists for each id seen, and each task accesses exactly the addresses of its own lines in order |
| LegacyIo.ProcessLine | src/io.cpp:31-61 | one line's effect on the task map, per the line transition |
| LegacyIo.SendAccesses | src/io.cpp:49-60 | creates the task on first sight and appends one access per page |
| LegacyIo.ReadTraceFile | src/io.cpp:64-85 | the result is the fold of the parsed lines, or the exception of the first bad line |
| LegacyIo.ReadLine | src/io.cpp:74-77 | one non-empty line's effect |
| LegacyIo.MultiVisitAgrees | src/iomulti.cpp:31-61 | a served line matches the `io.cpp` reader. A throwing parse throws in both. An allocator exception leaves each task with a prefix of the accesses the `io.cpp` reader makes |
| LegacyIo.AccessPages | src/iomulti.cpp:54-60 | calls accessMemory once per page, at address + i × page size modulo 2^32, until the allocator throws |
| LegacyIo.TaskFor | src/iomulti.cpp:49-51 | one `taskmulti` per distinct id: existing tasks are reused and a new one is created on first sight |
| LegacyIo.ServeTask | src/iomulti.cpp:57-60 | the named task's access log grows by the accesses made |
| LegacyIo.SendAccessesMulti | src/iomulti.cpp:45-60 | one line's effect on the `taskmulti` map, including a partial line when the allocator throws |
| LegacyIo.ProcessLineMulti | src/iomulti.cpp:31-61 | parse, create on first sight, then access each page |
| LegacyIo.ReadLineMulti | src/iomulti.cpp:74-77 | one non-empty line's effect |
| LegacyIo.ReadTraceFileMulti | src/iomulti.cpp:64-85 | a finished read matches the `io.cpp` fold. A thrown read stops at the first failing line, after the fold of the lines before it |
| Generator.SizeToString | src/test_module.cpp:117-127 | ends in "MB" iff the size is a multiple of 1 MB, in "KB" iff it is a multiple of 1 KB and not of 1 MB, and otherwise in a digit followed by "B" |
| Generator.SizeToStringExamples | include/test_module.h:75-79 | 4096 gives "4KB" and 1048576 gives "1MB" |
| Generator.RequestLineFields | src/test_module.cpp:98-105 | a written request splits into its id, its address field and its size text |
| Generator.AddressFieldRoundTrip | src/test_module.cpp:98-105 | the written address field parses back to the address, trimmed or not |
| Generator.DigitSuffixNoUnit | src/io_module.cpp:88-94 | a suffix starting with a digit is no unit |
| Generator.DigitBeforeLastRejected | src/io_module.cpp:85-94 | a size field whose last-but-one character is a digit is rejected |
| Generator.ByteRejected | src/io_module.cpp:85-94 | a plain byte count "<n>B" is rejected |
| Generator.SizeFieldValue | src/io_module.cpp:84-98 | "<n>" followed by KB or MB in any of its four letter cases reads as n × 1024 or n × 1024², modulo 2^64 |
| Generator.SizeFieldWraps | src/io_module.cpp:96-97 | 2^54 "kb" is 2^64 bytes, read as a size of 0 |
| Generator.SizeToStringRead | src/test_module.cpp:117-127 | `parse_line` reads back exactly the sizes that are multiples of 1 KB; byte-unit sizes are rejected |
| Generator.RequestLineRoundTrip | src/test_module.cpp:96-115 | a written request line parses back to its task, address and size iff the size is a multiple of 1 KB; otherwise the line is skipped |
| Generator.DocumentedExample | include/io_module.h:55-66 | "T1: 0x4000:16KB" parses to ("T1", 0x4000, 16384) |
| Generator.AcceptedPageSizes | src/test_module.cpp:20-28 | the three configured page sizes pass the constructor's checks, and every accepted page size is a power of two |
| Generator.GeneratedAddress | src/test_module.cpp:90 | the generated address fits 64 bits |
| Generator.GeneratedAddressAligned | src/test_module.cpp:90 | the address is the section's base plus a whole number of pages, and page-aligned when the page size divides 64 KB |
| Generator.LargePageUnaligned | src/test_module.cpp:90 | 128 KB pages are accepted, yet the stack section gives an address 64 KB off a page boundary |
| Generator.GeneratedLines | src/test_module.cpp:71-94 | one line per draw |
| Generator.GeneratedLinesParse | src/test_module.cpp:71-115 | each generated line parses back to its task, generated address and page size iff the page size is a multiple of 1 KB |
| Generator.TestModule.constructor | src/test_module.cpp:12-30 | keeps the task count, requests per task and page size; no output yet |
| Generator.TestModule.WriteRequest | src/test_module.cpp:96-115 | appends exactly one formatted request line |
| Generator.TestModule.GenerateForTask | src/test_module.cpp:71-94 | appends one page-sized request line for each of the first requests-per-task draws |
| Generator.NewTestModule | src/test_module.cpp:20-28 | construction succeeds iff task count and requests per task are positive and the page size is non-zero and divides physical memory |
| Generator.SectionIndex | test.cpp:24 | each section's position is below 5 |
| Generator.SectionOf | test.cpp:78 | a draw selects the section at draw mod 5 |
| Generator.SectionName | test.cpp:26-35 | every section has a name of its own; "UNKNOWN" is never returned |
| Generator.SectionsCovered | test.cpp:26-35 | the mapping from draw to section covers every section, and the names are distinct |
| Generator.SectionBase | test.cpp:38-47 | the configured base as a 32-bit value |
| Generator.AlignedAddress | test.cpp:50-53 | base + (draw mod 1024) × page size, modulo 2^32 |
| Generator.AlignedAddressInSection | test.cpp:50-53 | for an aligned base with room, the address is page-aligned and within the base's first 1024 pages |
| Generator.RandomSizeKb | test.cpp:56-60 | 4, 8 or 16 KB; the array's 32 is never picked |
| Generator.RandomSizeStr | test.cpp:56-60 | "4KB", "8KB" or "16KB" |
| Generator.TestLineFields | test.cpp:81 | a generated line splits into id, address and " <size>" |
| Generator.TestLineRoundTrip | test.cpp:81 | both the legacy reader and `parse_line` read back a generated line's task, address and size |
| Generator.LegacySizeField | src/io.cpp:15-28 | the legacy parser reads " <n>KB" as n × 1024 |
| Generator.LegacyKiloRead | src/io.cpp:15-28 | a field with "KB" and a leading number n reads as n × 1024 |
| Generator.OccursAfter | src/io.cpp:17-19 | a unit found in the text after the number is found in the whole field |
| Generator.LegacySizeValue | src/io.cpp:15-28 | a number n ≤ INT_MAX followed by text holding a unit reads as n × 1024 when "KB" occurs anywhere in the field, else n × 1024², modulo 2^32 |
| Generator.LegacyMegaRead | src/io.cpp:15-28 | "<n>MB" reads as n × 1024² modulo 2^32 |
| Generator.LegacyKiloWins | src/io.cpp:17-21 | "3MB KB" reads as 3 KB: "KB" is tested first |
| Generator.LegacySizeWraps | src/io.cpp:15-28 | "4194304KB" is 2^32 bytes, read as 0 in 32 bits |
| Generator.TaskTraceLines | test.cpp:73-89 | one line per draw |
| Generator.GenerateTaskTrace | test.cpp:73-89 | the lines for the first num_lines draws, none for a non-positive count |
| Generator.TaskTraceLinesRead | test.cpp:73-89 | each generated line reads back, through both readers, as its task, aligned address and size |
| Generator.Tally | test.cpp:92-109 | one count per task |
| Generator.SumOnes | test.cpp:96-98 | n ones sum to n |
| Generator.SumBump | test.cpp:104 | adding one to an entry adds one to the sum |
| Generator.TallyCounts | test.cpp:92-109 | each task gets at least one line, and the counts sum to the tasks plus the remaining draws |
| Generator.DistributeLines | test.cpp:92-109 | each task gets at least one line; when there are at least as many lines as tasks, the counts sum to the total; the result equals the tally of the draws |

## Left out

- Threads, critical sections and the allocator mutex are not modelled: trace replay is sequential, and the generator's threads only share the output file.
- File input and output become sequences. The trace is a `seq<string>` of lines and the generated output is a `seq<string>`. Failure to open a file, `getline` buffering and the console reports (`printStats`, `std::cout`, `std::cerr`) are left out.
- `rand()` and `thread_safe_rand()` become draw sequences passed as parameters (`Draw`, `LineDraw`, the `draws` arguments).
- The legacy allocator is a process-wide singleton reached through `getInstance` (src/memory_manager.cpp:12-15). Here it is an explicit `LegacyMemoryManager` passed to every `TaskMulti` operation.
- `MIN_PAGE_SIZE_KB` and the section bases used by test.cpp come from headers that are not part of this model. They are parameters: `minPageSizeKb`, and `bases` for `SHARED_LIB_ADDR` and the other bases.
- `io.cpp` drives a `task` class whose source is not part of this model. `LegacyIo` records, per task, the sequence of addresses passed to its `accessMemory`; `iomulti.cpp` is modelled against the real `TaskMulti`.
- The constructor of the legacy allocator takes the minimum page size in KB as a parameter; the `taskmulti` constructor takes it too.
- ParseLine: a leading '+' or '-' is rejected by the number parser, while `std::stoull` accepts it. A line such as "T1: -0x10:4KB" is dispatched by the source with address 2^64 - 16 but skipped by the model.
- ProcessLineLegacy: a leading '+' or '-' is rejected, while `std::stoi`/`std::stoul` accept it. For "T1: 0x0: -4KB" the source computes a size of 2^32 - 4096, but the model ends the read as a parse exception.
- ParseNumber: a sign is not accepted (see the two lines above). Other text `std::sto*` rejects, and a value above the limit (out_of_range), is rejected as the source rejects it.
- Tlb.TLB.Add: requires that the page is not in the TLB. The only caller adds after a miss, and a duplicate add would leave a stale list node that this model does not represent.
- Tlb: virtual and physical page numbers are unbounded `nat`, not `uint32_t`. Every caller passes values below 2^20 (`taskmulti`) or pages handed out by the allocator.
- Tasks.Task: the `uint64_t` hit and miss counters are unbounded `nat`. They cannot wrap within fewer than 2^64 page visits.
- Generator.DistributeLines: takes `numTasks: nat`. In the source, a negative task count from `stoi` passes main's `total_lines < num_tasks` test, and then `std::vector<int>(num_tasks)` throws; that path is not modelled. Its requires also excludes zero tasks with a positive line count. Main lets that through (test.cpp:189), and the draw `thread_safe_rand() % num_tasks` (test.cpp:103) then divides by zero, which is undefined behaviour and has no value to model.
- The `Task` destructor, the `taskmulti` destructor and the release of second-level arrays are memory management with no observable effect on the model.
- Cross-task frame uniqueness under the legacy allocator is not stated for `iomulti.cpp`. Its allocator recycles allocated pages once its queue is non-empty (`HandoutRecycles`), so uniqueness holds only while the queue stays empty (`HandoutFromEmptyQueue`), and no code fills the queue.
- `MAX_TASKS` and `TRACE_LINE_BUFFER` (include/config.h:80-81) are used by no modelled code.
- src/main.cpp, src/performance.cpp and include/performance.h (the benchmark driver and its timing) are not part of this model.

## Findings

| source | as written | input that shows it | evidently intended | confidence | as-written member | corrected member |
|---|---|---|---|---|---|---|
| src/task.cpp:65 | the page count (size + page_size - 1) / page_size is computed in `uint64_t`, so the sum wraps when size + page_size - 1 ≥ 2^64 | `process_request(0, 2^64 - 1024)` with 4096-byte pages: 0 pages are visited | ceil(size / page_size) pages, here 2^52, as the comment on the computation at src/task.cpp:64 says | not executed | Translation.WrappedPageCountOverflow64 | Translation.PageCount |
| src/io.cpp:55 | the same count in `uint32_t` wraps when size + page_size - 1 ≥ 2^32; src/iomulti.cpp:55 is identical | only when `MIN_PAGE_SIZE_KB` ≥ 2. No source file defines that constant; with 4 KB pages the line "T1: 0x0: 4194303KB" has size 2^32 - 1024 and accesses no page. With 1 KB pages (the smallest size in include/config.h:27) no line triggers it (TraceFormat.LegacySizeNoWrapAt1K) | one access per page of the size | not executed | Translation.WrappedPageCountOverflow32 | Translation.PageCount |

`Translation.WrappedPageCount` is the count as the source computes it, for any integer width. `WrappedPageCountOverflow` proves that it is 0 whenever the sum reaches the modulus, although the size is positive. `WrappedPageCountAgrees` proves that it equals `PageCount` whenever the sum fits. The rest of the model (`RequestPages`, `Task.ProcessRequest`, `LegacyAccessAddresses`, `AccessPages`) uses `PageCount`, whose contract is the ceiling property.
