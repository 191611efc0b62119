# A verified model of the kernel, its loader, its libc and its build

This project models, in Dafny 4.11, the parts of a 64-bit UEFI operating
system where a wrong step corrupts memory or a build, and proves what those
parts keep.

- **Memory.** `FrameAllocator` (bitmap, cached cursor, count), `PageTables`
  (four-level tables from a bump counter) and `VirtualRanges` (commit, reserve,
  page fault, release) are the three layers as imperative code. `FramePool`,
  `PageTree` and `KernelMemory` are their meanings: a set of free frames, a
  partial map from pages to frames, and one machine over both. Each method is
  proved against the meaning; safety over every run is proved of the machine.
  `Cpu` is the translation the processor makes of the same words, defined apart
  from the walker after section 4.5 of the Intel SDM, volume 3A, and proved to
  agree with the page map. `RangeLaws` says what each operation owns, maps and
  frees, and `RangeViews` that a page backed by a fault is seen there.
- **Boot.** `BootMap` coalesces the firmware map, `BootFrames` picks frames,
  `BootTables` and `BootLoader` build the first tables through a cached cursor
  and map the table window, `FrameStartup` and `Startup` start the frame
  allocator. `KernelBoot.Boot` runs all of it into `VirtualRanges.VmInit`, says
  exactly when that succeeds, and ends with every page of the memory map on the
  account of one owner (`MapOwners`) and in the safety invariant of the running
  kernel; `KernelBoot.TablesStayApart` says when no later run can touch the
  tables, `TablesAtBase` is a map on which one does. `TableViews` is what the
  processor finds through the tables handed over, their own window included.
- **Heap.** `HeapBlocks` is the block list: first fit, growth, split, join.
  `Heap` is the header words in memory, with a switch `meant` that adds the two
  repairs the source omits. `HeapWords` is malloc and free without them, as
  functions of whatever the words are, which the methods of `Heap` are proved to
  compute. `WrittenHeap` runs the list they keep, `WordRuns` the words under any
  calls and writes of their callers, and `StaleLinks` a link that is out of date.
- **Formatter.** `Numerals`, `PrintedNumbers` and `Formatter` are `printf.c`
  with both callbacks optional. `PrintLaws` and `FormatLaws` read formats and
  numbers back: with a reader of their own, from text to value.
- **Console.** `Graphics` and `Console` are the framebuffer and the scrolling
  text buffer; `ConsoleLock` is the lock table and any number of CPUs
  interleaving single steps.
- **Build.** `IncludeClosure` is the include loop; `IncrementalBuild` the
  recompilation decision and what makes it right over runs of edits and builds;
  `BuildLoop` the loop that compiles, object by object; `StoppedBuilds` the runs
  in which a stopped build misleads the next; `HashFile` the record's format.
  `FreshNames` is the minifier's name generator.
- `Words`, `Bitmap` and `Division` hold the arithmetic.

`dafny verify dfyconfig.toml` checks all of it.

## What the source does differently from what it means

The code is modelled as written, except where a line below says otherwise.

- `src/kernel/memory/pm.c:91-101`: a return does not raise the count, and for an
  earlier word moves the bit cursor only to a lower bit. Modelled as written.
  `FramePool.PutKeepsCursorIff` and `KernelMemory.ReleaseOneSafeIff` give the
  exact condition, `KernelMemory.SharedFrame` a run that goes wrong, and
  `KernelMemory.ExhaustedForGood` the loss of frames.
- `src/kernel/memory/pm.c:60`: the ACPI-skipping loop never runs, so ACPI pages
  become free frames. Modelled as written.
- `src/kernel/memory/pm.c:31`: past the last entry the source reads the map
  array before it checks the index. The model lets the assertion that follows
  fail.
- `src/kernel/memory/pm.c:55-66`: the window is skipped only from inside an
  entry; the base of a later entry is marked even in the window. Modelled as
  written, with the exact condition in `MapOwners.StartAccounted` and, for the
  table frames, `Startup.WindowFrameIff`; `TablesAtBase.WindowAtBase` is a map on
  which it happens, `KernelBoot.TableOverwritten` what follows.
- `src/kernel/memory/paging.c:46` and below: tables are reached through the
  window's fixed offset, but the lower half still names the firmware's tables,
  which lie outside the window. For the low pages that `src/kernel/cpu/cpu.c:36`
  and `82` map and unmap the address computed is not the table's. The model
  asks that the walk stays in the window.
- `src/kernel/memory/vm.c:64-100`: nothing bounds `_n_va`, although `malloc`
  accepts 1TB and the ownership bitmap covers 1GB; past it the source writes
  behind the bitmap. The model asks that the pages fit.
- `src/kernel/memory/vm.c:44`: reads through a pointer before it is set. The
  model takes the meant `_n_va`.
- `src/libc/alloc.c:98-103` drops the NEXT bit of a block that had a successor,
  and lines 101-103, 149 and 154 leave the successor's back link. With `meant`
  both are repaired; without it the code is as written, and the contracts say
  exactly when the header words still follow the block list.
- `src/libc/alloc.c:79-81`: the contiguity assertion is skipped for the head
  block. As written: `Heap.Heap.Malloc` says when growth leaves the range
  contiguous. Together with the dropped NEXT bit it hands out bytes twice:
  `WrittenHeap.HeldTwice`. `WordRuns.RunKeepsHeld` gives the runs in which
  nothing goes wrong, `WordRuns.FreeExact` which frees do, and
  `StaleLinks.StaleHits` a free that writes in a held payload.
- `src/libc/alloc.c:112`: `calloc(c, 0)` divides by zero. As written in
  `Heap.CheckProduct`.
- `src/libc/printf.c:189`: `v+1` wraps at 2^64-1. As written.
- `src/libc/printf.c:424`: without a write callback `%c` leaves its argument. As
  written.
- `src/libc/printf.c:451` and `475-480`: with a precision of N, `%s` writes N
  characters and reads past a NUL. As written in `Formatter.EmitString`.
- `src/_build/create_kernel.py:260` records new header hashes although the build
  may stop. As written: `StoppedBuilds.StopSkips` and `StopMisleads`.
- `src/_build/create_kernel.py:339-391` compiles a libc file twice under one
  record entry, and lines 271, 300, 329 and 344 strip an object after it is
  written, so that a build may stop with an object replaced and its file's old
  hash recorded. As written: `IncrementalBuild.StopTrustedIff` has the exact
  condition, `StoppedBuilds.StopHalfway` and `StopUnstripped` runs that end with
  a wrong object.
- `src/_build/create_kernel.py:136-202` takes a structure from the first header
  that has it and does not look at others. As written:
  `IncrementalBuild.IncrementalIsClean` asks for one definition at each build,
  `StoppedBuilds.TwoDefinitions` is a stale object with two.
- `src/_build/minify.py:84-92` compares bytes with the text of reserved words,
  which never match, so that reserved words are not avoided. As written.
- `src/kernel/process/lock.c:39-43` reads behind the table before it checks the
  bound. The model asks for one more unused lock.

## Model

| member | source | states |
|---|---|---|
| FrameAllocator.FirstSetBitIsLeast | src/kernel/memory/pm.c:81-84 | With all earlier words zero, the lowest set bit of the first non-zero word is the least free frame |
| FrameAllocator.PageArray.constructor | src/kernel/memory/pm.c:39-50 | The zeroed bitmap is the empty pool with its cursor on the given frame |
| FrameAllocator.PageArray.Mark | src/kernel/memory/pm.c:52-53 | Start-up adds one frame to the free set and one to the count |
| FrameAllocator.PageArray.GetFree | src/kernel/memory/pm.c:73-87 | Word and bit cursors refine the pool: the cursor's frame is handed out, the count drops, and the scan stops in bounds on the least free frame; 0 when the count is zero |
| FrameAllocator.PageArray.Rescan | src/kernel/memory/pm.c:81-84 | The word scan ends inside the bitmap and leaves the cursor on the least free frame |
| FrameAllocator.PageArray.SetFree | src/kernel/memory/pm.c:91-101 | A returned frame joins the free set while the count stays, and the cursor moves as written: word and bit separately |
| FramePool.GetSound | src/kernel/memory/pm.c:73-87 | A hand-out keeps: the count does not exceed the free frames, no free frame lies in a word before the cursor's; and it leaves the cursor on the least free frame |
| FramePool.PutSound | src/kernel/memory/pm.c:91-101 | Returning any in-range frame keeps the same two facts, under any interleaving with hand-outs |
| FramePool.PutKeepsCursorIff | src/kernel/memory/pm.c:91-101 | After a return the cursor names a free frame exactly when the frame is not at a strictly higher bit of an earlier word |
| FramePool.MisplacedGetHandsOutTaken | src/kernel/memory/pm.c:73-101 | After a misplacing return the very next hand-out names a frame that is not free |
| FramePool.GetRunAscending | src/kernel/memory/pm.c:73-87 | Hand-outs alone give the free frames in ascending order, each once: with what is left they are the frames that were free |
| PageTree.WalkLabel | src/kernel/memory/paging.c:41-55 | On every walk each table met is in use and serves exactly that level and page prefix |
| PageTree.DistinctEntries | src/kernel/memory/paging.c:41-57 | Two different pages never share a page-table entry |
| PageTree.UniqueParent | src/kernel/memory/paging.c:41-54 | A table in use is named by exactly one entry |
| PageTree.InstallKeepsTree | src/kernel/memory/paging.c:41-54 | Storing a fresh table keeps the tree: one parent each, unused tables all zero |
| PageTree.InstallKeepsPages | src/kernel/memory/paging.c:41-54 | A fresh table changes no page's translation |
| PageTree.WritePageTranslate | src/kernel/memory/paging.c:55-57 | Writing a page's entry changes the translation of that page alone |
| PageTree.MapPageAddsOne | src/kernel/memory/paging.c:38-59 | Mapping adds exactly one pair to the partial map the tables mean, and takes as many tables as the walk lacked |
| PageTree.UnmapPageRemovesOne | src/kernel/memory/paging.c:91-105 | Unmapping removes exactly one pair and frees no table |
| PageTree.UnderUsesAtMost515 | src/kernel/memory/paging.c:41-54 | Tables serving one 1GB page directory number at most 515 |
| PageTree.MapPageWithinBudget | src/kernel/memory/paging.c:38-59 | Any number of maps in one page directory keeps to 515 tables, so a window of 518 never runs out |
| PageTables.Paging.EnsureTable | src/kernel/memory/paging.c:41-45 | One level of the walk: an absent table is taken from the bump counter and stored present, writable and not as a large page; a present one is followed |
| PageTables.Paging.MapPage | src/kernel/memory/paging.c:38-59 | The pointer code adds exactly the pair, or fails an assertion and changes nothing exactly when an address is unaligned or the page is mapped |
| PageTables.Paging.ReverseTranslate | src/kernel/memory/paging.c:69-87 | Gives the mapped physical address, or 0 for an unmapped page |
| PageTables.Paging.UnmapPage | src/kernel/memory/paging.c:91-105 | Removes exactly the page's pair; does nothing for a page without tables |
| PageTables.Paging.IdentityMap | src/kernel/memory/paging.c:109-115 | Maps c pages to themselves when none is mapped, and fails the assertion otherwise |
| PageTables.Paging.IdentityUnmap | src/kernel/memory/paging.c:119-125 | Removes exactly the pages of the range |
| PageTables.IdentityRoundTrip | src/kernel/memory/paging.c:109-125 | Identity mapping and unmapping a clear range gives the page map back |
| Cpu.SameTables | src/kernel/memory/paging.c:41-54 | The hardware walk of the Intel SDM, volume 3A, section 4.5 (present, write and size bits, 52-bit frames) meets at each level the table the pointer code finds, and no large page on its way |
| Cpu.CpuAgrees | src/kernel/memory/paging.c:38-105 | That walk, defined on its own, reaches exactly the mapped pages, at their frames and writable, and faults on every other address within the walker's reach: what is mapped is what the processor sees |
| VirtualRanges.RangeManager.Reserve | src/kernel/memory/vm.c:64-72 | Afterwards exactly the next c pages are owned besides those that were; no page, frame or count has changed; the first address is returned |
| VirtualRanges.RangeManager.Commit | src/kernel/memory/vm.c:76-90 | Refines the abstract commit: each page takes a free frame, is owned and mapped; stops when memory runs out |
| VirtualRanges.RangeManager.CommitFixed | src/kernel/memory/vm.c:94-100 | Owns and maps the next page at the given frame; an address off a page boundary, or a mapped page, fails the assertion |
| VirtualRanges.RangeManager.HandleFault | src/kernel/memory/vm.c:25-37 | Not handled exactly when the page is not owned; handled, it leaves the page mapped, to the frame RangeLaws.FaultBacks names |
| VirtualRanges.RangeManager.Release | src/kernel/memory/vm.c:104-115 | Each page loses its ownership, and a mapped page its mapping and frame, which goes back to the pool; an address off a page boundary fails the assertion and changes nothing |
| VirtualRanges.InitPage | src/kernel/memory/vm.c:45-53 | One page of the ownership bitmap: a free frame is mapped at the next address |
| VirtualRanges.VmInit | src/kernel/memory/vm.c:41-60 | Start-up maps the pages of the ownership bitmap, as many as hold it, and leaves a valid manager that owns nothing, or runs out of memory |
| VirtualRanges.OwnershipSizes | src/kernel/memory/vm.c:43-60 | The ownership bitmap has one bit for each page of the gigabyte, and the pages VmInit maps hold it with its header; no fewer do |
| RangeLaws.ReserveOwns | src/kernel/memory/vm.c:64-72 | Reserving c pages adds exactly these to the owned ones and changes nothing else |
| RangeLaws.FaultBacks | src/kernel/memory/vm.c:25-37 | A fault on an owned unmapped page takes a frame that was free and maps that page alone to it, runs out of memory exactly when the count is zero, and on a page not owned changes nothing |
| RangeLaws.FaultTwice | src/kernel/memory/vm.c:25-37 | On a page that is mapped it fails the walker's assertion, if a frame is left |
| RangeLaws.CommitIsReserveAndFault | src/kernel/memory/vm.c:76-90 | Committing a page is reserving it and a fault on it |
| RangeLaws.CommitMaps | src/kernel/memory/vm.c:76-90 | While hand-outs are left, c pages are owned and mapped, in order, to the frames of the next c hand-outs |
| RangeLaws.FixMaps | src/kernel/memory/vm.c:94-100 | A fixed commit owns the next page, maps it to the given frame, and ends the driver's hold on it |
| RangeLaws.ReleaseFrees | src/kernel/memory/vm.c:104-115 | A release ends the ownership of a page whether or not it is mapped; a mapped one is unmapped and its frame free |
| RangeLaws.ReleaseFreesAll | src/kernel/memory/vm.c:104-115 | So for c pages: what is owned, mapped and free afterwards is what was, less those pages, plus the frames they were mapped to, wherever the cursor ends up |
| RangeLaws.ReservedIsBacked | src/kernel/memory/vm.c:25-72 | After a reservation the first touch of each of its pages is handled and leaves it mapped, or runs out of memory exactly when the count is zero |
| RangeLaws.TouchBacks | src/kernel/memory/vm.c:25-37 | Owned pages touched in any order and again, with hand-outs enough, all end up mapped, to frames that were free, and no other mapping changes |
| RangeLaws.ReserveReleased | src/kernel/memory/vm.c:64-115 | Reserving and releasing untouched pages gives the state back but for the next address |
| RangeViews.RangeSeen | src/kernel/memory/vm.c:25-37 | At any address of the managed range the processor finds exactly the mapped pages, and faults on the others |
| KernelMemory.ReleaseOneSafeIff | src/kernel/memory/vm.c:104-115 | Releasing a page keeps safety exactly when its frame does not misplace the pool's cursor |
| KernelMemory.StepSafe | src/kernel/memory/vm.c:25-115 | Every allowed operation keeps safety and never meets the already-mapped assertion |
| KernelMemory.InitNSafe | src/kernel/memory/vm.c:45-53 | vm_init hands over a safe state, or runs out of memory exactly when fewer hand-outs are left than pages |
| KernelMemory.InitNFrames | src/kernel/memory/vm.c:45-53 | Start-up neither loses a frame nor brings in one it did not account for |
| KernelMemory.InitNMaps | src/kernel/memory/vm.c:45-53 | It maps the frames of a run of hand-outs, in order, at the next pages, and nothing else |
| KernelMemory.RunSafe | src/kernel/memory/vm.c:25-115 | Over every run: no two pages share a frame, no mapped or held frame is free, mapped pages are owned, nothing at or above n_va is owned or mapped, every frame stays accounted for, no assertion fails |
| KernelMemory.ExhaustedForGood | src/kernel/memory/pm.c:73-101 | Since a return never raises the count, once it is zero every later commit runs out of memory |
| KernelMemory.NeverHandedOut | src/kernel/memory/vm.c:25-115 | A frame the machine does not account for at the start is never free, held or mapped, after any run |
| KernelMemory.AccountedGetsMapped | src/kernel/memory/vm.c:76-90 | One it accounts for, and no driver holds, is mapped once all hand-outs are committed |
| KernelMemory.MisplacedCommitShares | src/kernel/memory/vm.c:76-115 | After a release that misplaces the cursor the next commit maps the frame the cursor names, which is not free; two pages share it exactly when one was mapped to it already |
| KernelMemory.SharedFrame | src/kernel/memory/vm.c:76-115 | A concrete allowed run, over frames above the first megabyte, after which two pages share a frame |
| BootMap.CountEntries | src/uefi/main.c:242-256 | The counting pass gives the number of coalesced entries |
| BootMap.FillEntries | src/uefi/main.c:271-296 | The filling pass writes exactly the coalesced entries and totals their bytes, so that the two passes agree |
| BootMap.CoalesceCovers | src/uefi/main.c:277-296 | Entries cover an address exactly when a descriptor at or above 1MB of one of the kinds taken holds it, tagged exactly when that is reclaimable ACPI memory |
| BootMap.CoalesceConservesBytes | src/uefi/main.c:277-296 | Total length is conserved |
| BootMap.CoalesceIsMaximal | src/uefi/main.c:277-296 | No two neighbouring entries could still be merged |
| BootMap.CoalesceOrderly | src/uefi/main.c:277-296 | An ascending list gives ascending, disjoint, page-aligned entries above the first megabyte |
| BootFrames.PickFrames | src/uefi/main.c:406-434 | Picks the first pages of the map in order, leaves n_pa on the next one, and fails exactly when too few pages exist |
| BootLoader.EstimateTables | src/uefi/main.c:391-405 | The estimate loop counts page directories and page tables of the image, plus 514, rounded up to 512 |
| BootLoader.EstimateCounts | src/uefi/main.c:391-405 | That is 514, one for each gigabyte and one for each 2MB slot the image reaches into, rounded up to a multiple of 512 and no further |
| BootLoader.EstimateSuffices | src/uefi/main.c:391-405 | The estimate covers every table the builder takes with 500 to spare, and is at least 1024 |
| BootTables.NextIndex | src/uefi/main.c:469-485 | From a page to the next, the cached index of a level differs exactly when the walk leaves its table |
| BootTables.CachedLevel | src/uefi/main.c:470-479 | The cached index differs exactly when the table below is missing; otherwise the cached table is the one a walk finds |
| BootTables.MissingCount | src/uefi/main.c:469-479 | Tables taken so far are those of the page range |
| BootTables.Builder.constructor | src/uefi/main.c:456-468 | Zeroed tables with the firmware's lower half, and a cursor that has not started |
| BootTables.Builder.Descend | src/uefi/main.c:470-479 | One level: the cursor's table is the one a full walk would find or install |
| BootTables.Builder.AddPage | src/uefi/main.c:469-485 | One page through the cached cursor leaves exactly what mapping by a full walk leaves |
| BootLoader.MapKernel | src/uefi/main.c:469-499 | Page pb+n*4096 translates to frame n for every n below the page count plus 17; the IDT address is that of page k_pg and the stack pointer the end of the range |
| BootLoader.WindowPage | src/uefi/main.c:500-501 | The window starts past the mapped range at a 2MB boundary |
| BootLoader.MapWindow | src/uefi/main.c:509-524 | The 2MB entries of the window change no page's translation |
| BootLoader.BuildTables | src/uefi/main.c:391-524 | The hand-over: a valid table tree, whose own entries all have the write bit and not the size bit, that means exactly the boot pages, u_pg at the tables needed, t_pg a multiple of 512 and at least 1024, walks above the window staying among its tables |
| TableViews.LargeEntry | src/uefi/main.c:523-524 | An entry of the window is read as a present, writable page of 2MB at its address |
| TableViews.WindowSeen | src/uefi/main.c:509-524 | Through the window the processor reaches every byte of every table, at the offset of its physical address |
| TableViews.HandedOverSeen | src/uefi/main.c:456-524 | After the hand-over it reaches the image, IDT and stack at the picked frames, the tables through the window, and faults on every address behind it |
| FrameStartup.MarkFree | src/kernel/memory/pm.c:43-68 | Marks exactly the pages of the map from n_pa on outside the table window, and the base of a later entry even inside it; the count is the set's size |
| Startup.NextUsable | src/kernel/memory/pm.c:29-36 | The next entry without ACPI tables, or the end of the map |
| BootFrames.OnwardWithin | src/kernel/memory/pm.c:29-36 | There is a page n on exactly when more than n remain in entries without ACPI tables, and then as many fewer remain |
| Startup.BackBitmap | src/kernel/memory/pm.c:22-38 | Maps the bitmap to the next pages of the map, in order, past ACPI entries; succeeds exactly when more such pages remain than the bitmap has |
| Startup.PmInit | src/kernel/memory/pm.c:21-69 | Succeeds exactly when more usable pages remain than the bitmap has and the first one after them lies below the tables; the pages mapped at nVa hold the header and all words, and no fewer do; the free set, cursor and count are those of the remaining map |
| Startup.BitmapSizes | src/kernel/memory/pm.c:22-42 | The bitmap has a bit for each page below the end of the map and no word more; the pages mapped for it hold header and words, and no fewer do |
| MapOwners.StartAccounted | src/kernel/memory/pm.c:21-69 | From the frames the loader picked, those of the frame bitmap and the marked ones: every page of the map is the image's, the frame bitmap's, an ACPI page left out, the tables' or free, nothing else is, and only one of these, save that the tables' pages at the base of a later entry are also free |
| MapOwners.TakenAccounted | src/kernel/memory/vm.c:45-53 | Frames that pass from the free ones to the ownership bitmap keep that account |
| Startup.WindowInsideEntry | src/kernel/memory/pm.c:45-57 | A window inside one entry and not at its base is not marked free |
| Startup.WindowFrameIff | src/kernel/memory/pm.c:45-68 | A frame of the tables is among the kernel's own, free or mapped, exactly when it is the base of a later entry |
| Startup.NoLaterBase | src/kernel/memory/pm.c:55-66 | Tables inside one entry and not at its base hold no such frame |
| TablesAtBase.WindowAtBase | src/kernel/memory/pm.c:55-66 | A concrete map with the tables at the loader's fixed address, the base of an entry: the loader's requirements are met, the kernel boots, and committing the pages left, which fit, maps the frame of the PML4 |
| Startup.StartSafe | src/kernel/memory/pm.c:21-69 | The pool and page map after start-up satisfy the safety invariant of the running kernel |
| KernelBoot.LoadAndStart | src/uefi/main.c:391-524 | Frame picking, table building and pm_init together: success exactly when there are frames for the loader and both assertions hold, which failure otherwise; on success the image and the frame bitmap are mapped at their frames, every page of the map is accounted for, the free set and count are exact, and the state is safe |
| KernelBoot.NowBooted | src/kernel/memory/vm.c:45-53 | The range manager's start takes the first free frames for its bitmap and leaves a booted kernel, or runs out of memory exactly when there are fewer |
| KernelBoot.Boot | src/kernel/memory/vm.c:41-60 | From memory map to range manager: success exactly when the loader and pm_init succeed and there is a free frame for each page of the ownership bitmap, which failure otherwise; then exactly the image, the frame bitmap and the ownership bitmap are mapped, each at its frames, every page of the map has one owner, the free set is the rest, and the state is safe and owns nothing |
| KernelBoot.TablesStayApart | src/kernel/memory/vm.c:25-115 | When the tables lie in one entry and not at its base, no run of the started kernel ever hands out, holds or maps one of their frames |
| KernelBoot.TableOverwritten | src/kernel/memory/vm.c:76-90 | Otherwise a table frame at the base of a later entry does get mapped as a page |
| HeapBlocks.PayloadsDisjoint | src/libc/alloc.c:97-105 | Payloads are 16-aligned, do not overlap and lie in the reserved range |
| HeapBlocks.BytesSplit | src/libc/alloc.c:97-104 | Payload and header bytes make up the range |
| HeapBlocks.GrowFits | src/libc/alloc.c:65-93 | After growth a block fits, exactly or with room for the remainder's header, and it is the last when pages were added |
| HeapBlocks.GrowthIsLeast | src/libc/alloc.c:65-69 | It asks for the fewest pages that make room for the block and a header behind a free last block, but for eight at least |
| HeapBlocks.GrowKeeps | src/libc/alloc.c:65-93 | Growth keeps every live payload and adds whole pages |
| HeapBlocks.TakeKeeps | src/libc/alloc.c:97-105 | An allocation adds exactly its payload to the live ones and keeps the tiling |
| HeapBlocks.FreeAtKeeps | src/libc/alloc.c:144-155 | A free removes exactly its payload, keeps the tiling, and leaves no two free neighbours |
| HeapBlocks.FreeUndoesTake | src/libc/alloc.c:97-155 | Freeing what was just taken gives the block list back |
| HeapBlocks.GrowAsked | src/libc/alloc.c:65-93 | Growth adds exactly the bytes of the pages it asks for |
| HeapBlocks.RunKeeps | src/libc/alloc.c:63-156 | Over every run no two neighbours are free, payloads stay apart, and payload plus header bytes equal the bytes of all pages the run asked for |
| HeapBlocks.StackAlloc | src/libc/alloc.c:63-105 | From used blocks and at most one free block at the end, an allocation takes the last and keeps that shape |
| HeapBlocks.StackUndo | src/libc/alloc.c:63-156 | Freeing the newest block undoes its allocation up to the growth |
| Heap.ReprIsWhole | src/libc/alloc.c:97-104 | Header words never represent both a list and a proper prefix of it |
| Heap.CutRepaired | src/libc/alloc.c:97-104 | A cut that keeps the NEXT bit and repairs the back link represents the whole list |
| Heap.CutLoses | src/libc/alloc.c:97-104 | The cut as written represents the list only up to the cut block and its remainder |
| Heap.JoinHolds | src/libc/alloc.c:144-155 | After a join the headers represent the joined list exactly when the next header links back to the joined block |
| Heap.Heap.Walk | src/libc/alloc.c:63-96 | The walk finds the first block that fits, or the last block |
| Heap.Heap.GrowLast | src/libc/alloc.c:65-93 | Growth at the last block; the contiguity assertion fails exactly when there is more than one block and the pages do not follow |
| Heap.Heap.CutAt | src/libc/alloc.c:97-104 | The header writes of the split, with and without the repairs |
| Heap.Heap.Malloc | src/libc/alloc.c:43-106 | NULL exactly for refused sizes; otherwise the first-fit block at its address; the headers follow the full list exactly when the repairs are made or the block was the last |
| Heap.Heap.Free | src/libc/alloc.c:140-156 | The freed block joins its free neighbours; the headers follow exactly when the repair is made, nothing is joined, or the joined block is the last |
| Heap.StackRunFollows | src/libc/alloc.c:43-156 | When every free frees the newest block, the code as written follows the block list at every step |
| Heap.OverflowCheckExact | src/libc/alloc.c:110-117 | The division check passes exactly when the product fits in 64 bits |
| Heap.CheckProduct | src/libc/alloc.c:110-117 | Refuses exactly the products that overflow, and divides by zero exactly when the size is zero |
| WrittenHeap.MallocApart | src/libc/alloc.c:43-106 | As written, an allocation that does not grow over lost blocks hands out bytes nobody holds and keeps the list's order |
| WrittenHeap.MallocApartIff | src/libc/alloc.c:43-106 | Any allocation as written hands out bytes nobody holds exactly when it ends before every payload that was lost |
| WrittenHeap.OvergrowthHits | src/libc/alloc.c:63-104 | Growth over lost blocks behind a lone block always spoils the payload lost directly behind it: by the new payload, or in one exact case by the header of what is left |
| WrittenHeap.EmptyKept | src/libc/alloc.c:53-62 | The empty heap meets what every such run keeps |
| WrittenHeap.HeldTwice | src/libc/alloc.c:79-104 | A concrete run of four calls after which a fifth hands out bytes still held |
| WordRuns.WalkInside | src/libc/alloc.c:63-96 | Over the words of blocks in order, whatever their NEXT bits and back links, the walk ends at a block that fits or at one without a NEXT bit |
| WordRuns.MallocGood | src/libc/alloc.c:43-106 | Unless it grows over blocks, malloc halts or keeps the blocks in order, gives a payload of its own, and leaves the words of the others |
| WordRuns.OvergrowthReturnsNext | src/libc/alloc.c:63-93 | Growth over blocks behind a first one in use hands out the address of the next block's payload, whoever holds it |
| WordRuns.FreeExact | src/libc/alloc.c:140-156 | A free of any held payload, reachable or not, keeps the blocks in order and the words of every other payload exactly when the block its back link names, if it is joined, is the one in front, or no header and in no payload |
| WordRuns.RunKeepsHeld | src/libc/alloc.c:43-156 | Over every run of mallocs, frees in any order and writes of the callers without those two failures, a payload that is neither freed nor written keeps its words and shares no byte with another |
| WordRuns.RunGood | src/libc/alloc.c:43-156 | At the end of such a run the blocks are in order and no two held payloads share a byte |
| WordRuns.EmptyGood | src/libc/alloc.c:37-55 | The empty heap is such a start |
| StaleLinks.FreeHitsIff | src/libc/alloc.c:140-156 | A free writes inside a payload exactly when its header names a previous block inside it and the word there has the FREE bit |
| StaleLinks.LinkedFreeHitsNothing | src/libc/alloc.c:140-156 | While the headers hold the list no free writes inside a payload |
| StaleLinks.JoinLeavesStale | src/libc/alloc.c:144-155 | A free that joins blocks, and not up to the last, leaves the next header with a link into the joined block, to a word with the FREE bit |
| StaleLinks.StaleHits | src/libc/alloc.c:140-156 | A concrete run of six calls after which a free writes inside a payload that is still held |
| PrintedNumbers.HandleSign | src/libc/printf.c:38-49 | The sign, reserved and written; PrintLaws.IntegerReads says which |
| PrintedNumbers.CountDecimal | src/libc/printf.c:187-195 | Digit count and power of ten without overflow, the twenty-digit case and the wrap at 2^64-1 included |
| PrintedNumbers.WriteShifted | src/libc/printf.c:173-176 | The shift loop writes the digits in base 8 or 16 |
| PrintedNumbers.WriteDecimal | src/libc/printf.c:211-218 | The power loop writes the decimal digits |
| PrintedNumbers.WriteUint | src/libc/printf.c:53-262 | Reserves exactly what it writes, before writing it, and returns that length: prefix, zero padding and digits |
| PrintedNumbers.ReadsBack | src/libc/printf.c:113-261 | The printed digits read back as the number exactly when it is not 2^64-1 in base ten and no zeros follow its digits |
| Numerals.ValueOfDigits | src/libc/printf.c:173-176 | The digits of a number have its value |
| Formatter.ReadConversion | src/libc/printf.c:309-407 | The conversion syntax: flags, width, precision, length; no index passes the terminator |
| Formatter.EmitChar | src/libc/printf.c:416-434 | Width, justification and the one character |
| Formatter.EmitString | src/libc/printf.c:435-482 | Precision characters, or up to the NUL, padded to the width; (null) for a null pointer |
| Formatter.EmitInteger | src/libc/printf.c:483-534 | Sign and digits of the argument cut to its length |
| PrintLaws.PrintableIs | src/libc/printf.c:490-530 | The number an integer conversion prints is its argument up to a multiple of the range of its length, and lies in that range |
| PrintLaws.IntegerReads | src/libc/printf.c:483-534 | The text of an integer conversion, sign and prefix included, reads back in its base as that number exactly under the condition of PrintsWell; it starts with a minus exactly when the number is negative, with a space or a plus exactly by the flags when it is not |
| PrintLaws.UnsignedForm | src/libc/printf.c:53-262 | The prefix exactly by flag and base, and as long as the precision or prefix and digits, whichever is more; a zero of precision zero prints nothing, or 0 in the octal form |
| PrintLaws.IntegerForm | src/libc/printf.c:490-534 | An integer conversion has capitals exactly for X, and the length of its sign and its precision, or of the digits with their prefix where they are more |
| PrintLaws.Justified | src/libc/printf.c:416-434 | The text stands at one end of its field, by the flag, and spaces fill the rest |
| PrintLaws.PointerForm | src/libc/printf.c:535-556 | Sixteen small digits, with an underscore after the eighth exactly in the kernel |
| Formatter.EmitPointer | src/libc/printf.c:535-556 | Sixteen hexadecimal digits, split by an underscore in the kernel, all reserved |
| Formatter.PointerReadsBack | src/libc/printf.c:535-556 | The hexadecimal digits of a pointer read back as the word |
| Formatter.EmitConversion | src/libc/printf.c:309-567 | One conversion; an unknown one prints the percent sign and goes on right after it |
| Formatter.Vprintf | src/libc/printf.c:292-576 | Ends on every format; with both callbacks every write is below what is reserved and all reserved is written; the output and the count are those of the pieces |
| FormatLaws.ConversionRead | src/libc/printf.c:309-407 | Any flags, width, precision, length and letter, given or from the arguments, are read as they were written |
| FormatLaws.IntegerPiece | src/libc/printf.c:490-534 | So at every integer conversion of any format: what is printed there reads back as its argument exactly under that condition, with that sign |
| FormatLaws.CharPiece | src/libc/printf.c:409-433 | A character conversion prints the low byte of its argument in its field; a pass that only measures leaves the argument |
| FormatLaws.StringPiece | src/libc/printf.c:434-489 | A string conversion prints the characters its argument points to, as many as the precision or up to the first NUL, in its field; (null) for a null pointer |
| FormatLaws.PointerPiece | src/libc/printf.c:535-556 | A pointer conversion prints sixteen digits that are those of its argument |
| FormatLaws.PrintedAlone | src/libc/printf.c:292-534 | From the text of a conversion to its output: the digits printed stand for the argument in the range its length letters name |
| FormatLaws.LiteralPrinted | src/libc/printf.c:298-308 | Text without a percent sign is printed as it stands and takes no argument |
| FormatLaws.PercentPrinted | src/libc/printf.c:400-408 | Two percent signs print one |
| Formatter.ReturnedCount | src/libc/printf.c:409-575 | The count is the characters written less the padding of characters and one for each kernel pointer, and exact just when there are none |
| Formatter.MeasureAgrees | src/libc/printf.c:292-576 | Without character conversions a pass that only reserves goes through the same pieces as one that writes |
| Formatter.MeasureDiffers | src/libc/printf.c:416-434 | With one it does not: a concrete format whose measured length is wrong |
| Graphics.FillRect | src/kernel/gfx/gfx.c:85-95 | Sets exactly h runs of w pixels a row apart, past the right edge too; inside the screen these are the pixels of the rectangle |
| Graphics.DrawWord | src/kernel/gfx/gfx.c:33-56 | The shifting loop shows bit 8*py+px of the word as the square of pixel (px, py), at every scale, and changes nothing else |
| Graphics.PrintChar | src/kernel/gfx/gfx.c:28-81 | Draws exactly the 8 by 16 glyph, at every scale; a character past the font blackens sixteen by eight pixels instead |
| Console.LinesHoldText | src/kernel/gfx/console.c:32-48 | Wrapping loses no character but newlines and keeps their order |
| Console.TextRecovered | src/kernel/gfx/console.c:32-48 | The text is read back off its lines: a line shorter than the width was ended by a newline, a full one by its last cell |
| Console.LinesRecovered | src/kernel/gfx/console.c:32-48 | No other lines within the width stand for that text |
| Console.ViewAfterChar | src/kernel/gfx/console.c:38-41 | A character sets the cell at the cursor; a space sets none, and the cell is blank already |
| Console.ViewAfterNewline | src/kernel/gfx/console.c:50-68 | A new line scrolls the view exactly when no row is left |
| Console.CellShown | src/kernel/gfx/console.c:38-41 | Drawing one cell shows the buffer with that cell set |
| Console.PastFontSpoils | src/kernel/gfx/gfx.c:28-31 | After a character past the font the next cell shows what it should exactly when its upper half is black |
| Console.Scroll | src/kernel/gfx/console.c:50-68 | Rows move up, the last becomes blank, and the framebuffer shows it |
| Console.TextConsole.constructor | src/kernel/gfx/console.c:81-89 | A blank buffer, shown |
| Console.TextConsole.PrintCharacter | src/kernel/gfx/console.c:32-69 | The buffer is the last h rows of the wrapped text, every 8 by 16 block shows its cell, the margins stay black |
| Console.TextConsole.Print | src/kernel/gfx/console.c:93-103 | A string leaves the lines of its characters in order |
| ConsoleLock.LockTable.Create | src/kernel/process/lock.c:35-46 | Hands out an unused lock, released, changes no other, and moves to the next unused one |
| ConsoleLock.LockTable.TryAcquire | src/kernel/process/lock.c:50-53 | One compare-and-swap: succeeds exactly when the lock was free |
| ConsoleLock.StepSerial | src/kernel/process/lock.c:50-60 | Every step of any CPU keeps: at most one CPU inside, and the output a sequence of whole strings and part of one more |
| ConsoleLock.RunSerial | src/kernel/gfx/console.c:93-103 | The same over every interleaving of any number of CPUs, each CPU's strings in its own order |
| ConsoleLock.FinishedScreen | src/kernel/gfx/console.c:93-103 | When all are done the screen is that of whole strings printed one after the other, each in its own colour |
| ConsoleLock.OthersWait | src/kernel/process/lock.c:50-53 | While a CPU is inside, a step of another changes nothing |
| ConsoleLock.CanFinish | src/kernel/process/lock.c:50-60 | From every state of every run some schedule, of no more steps than the strings still need, leads to the end: the lock is always given back |
| IncludeClosure.AddFrom | src/_build/create_kernel.py:251-255 | The inner loop appends exactly the missing files, each reachable |
| IncludeClosure.WalkList | src/_build/create_kernel.py:250-255 | The walk reaches the moving end of the list it extends |
| IncludeClosure.Pass | src/_build/create_kernel.py:248-256 | A pass that appends nothing leaves a transitive graph; otherwise the graph has grown |
| IncludeClosure.Close | src/_build/create_kernel.py:247-256 | The loop terminates with, on each file's list, exactly the files reachable in one or more steps |
| IncrementalBuild.ObjectsBelow | src/_build/create_kernel.py:264-391 | Every C and assembly file of loader and kernel has its object, a resource only when it is C, a file of the library one for the kernel and one beside it |
| IncrementalBuild.CompiledOnlyBelow | src/_build/create_kernel.py:264-391 | Nothing else is compiled: no header and nothing outside the four roots |
| IncrementalBuild.DirectIs | src/_build/create_kernel.py:122-244 | The direct list of a file holds the files with an included base name and, for an assembly file, the first header of the walk that fixes each constant it uses |
| IncrementalBuild.CheckNew | src/_build/create_kernel.py:62-74 | Current exactly when the file and all it includes have their recorded hashes and the object exists; each other reason when it applies |
| IncrementalBuild.SameObject | src/_build/create_kernel.py:62-74 | An unchanged file with an unchanged new closure had the same closure and compiles to the same object |
| IncrementalBuild.StepTrusted | src/_build/create_kernel.py:263-395 | Edits, added files, lost objects and builds keep the record trustworthy |
| IncrementalBuild.RecompiledIff | src/_build/create_kernel.py:62-74 | After a build an object is compiled again exactly when its file or one it now includes is new or has other contents |
| IncrementalBuild.SecondBuildIsIdle | src/_build/create_kernel.py:247-395 | A second build compiles nothing and changes nothing |
| IncrementalBuild.StopTrustedIff | src/_build/create_kernel.py:260-282 | A build that stops keeps the trust exactly when the objects it replaced at the file where it stopped are right for the contents that file is recorded with; given that only headers are included and none recorded has changed |
| IncrementalBuild.LeftRightAt | src/_build/create_kernel.py:260-282 | There is at most one such contents, so that it is enough to look at one |
| IncrementalBuild.HarmlessIsRight | src/_build/create_kernel.py:260-282 | That holds when nothing was replaced, when the file was never recorded, and when it is unchanged and the objects left are those it compiles to |
| BuildLoop.PlainStopIsHarmless | src/_build/create_kernel.py:339-391 | One of these is so for a stop at a file's first object before it is written, and of one at an unchanged file unless stripping failed |
| IncrementalBuild.IncrementalIsClean | src/_build/create_kernel.py:263-395 | After any run of edits, lost objects, builds and such stops, with no build while two headers fix one constant, a build leaves for each output the object a build from scratch makes |
| StoppedBuilds.TwoDefinitions | src/_build/create_kernel.py:136-202 | A concrete edit and build with two headers that fix one constant: the object keeps the value of the header that dropped it |
| BuildLoop.OneObject | src/_build/create_kernel.py:264-282 | One object is compiled unless it is current; a failed compilation leaves the old object, failed stripping the new one as it is |
| BuildLoop.OneFile | src/_build/create_kernel.py:339-391 | A file's objects have their turns in order, and the first that fails leaves the earlier ones replaced |
| BuildLoop.BuildAll | src/_build/create_kernel.py:247-395 | The loop over the files is one of the two modelled steps; it stops only at an object that had to be compiled and failed, leaving what that step says |
| StoppedBuilds.StopSkips | src/_build/create_kernel.py:260-282 | After a build that stops, a file that only includes recorded headers is skipped whether or not they changed: right exactly when its old object is |
| StoppedBuilds.LeftStays | src/_build/create_kernel.py:339-365 | What a stop replaced stays once its file gets contents it is recorded with: right exactly when those compile to it |
| StoppedBuilds.StopMisleads | src/_build/create_kernel.py:260-282 | A concrete header edit, failed build and successful build after which an object is stale |
| StoppedBuilds.StopHalfway | src/_build/create_kernel.py:339-365 | A concrete libc edit that compiles for the kernel and not for libc, taken back: the kernel object stays that of the edit |
| StoppedBuilds.StopUnstripped | src/_build/create_kernel.py:339-352 | A concrete lost object whose compilation succeeds and stripping fails: the next build takes it as current |
| HashFile.Read | src/_build/create_kernel.py:78-85 | The line loop reads the entries of the file |
| HashFile.ReadsWhatWasWritten | src/_build/create_kernel.py:78-85 | What a build writes is what the next one reads, exactly when every path is one nonempty line that does not start with a space |
| FreshNames.NumbersDiffer | src/_build/minify.py:66-83 | Two names with the same number are the same |
| FreshNames.NumbersInOrder | src/_build/minify.py:66-83 | Names are numbered by length, and within a length in the order of their letters |
| FreshNames.GenNext | src/_build/minify.py:66-83 | The v-th name: with the previous row, a bijection between the numbers from one on and the nonempty strings over distinct letters |
| FreshNames.NameOfRank | src/_build/minify.py:72-82 | Every string over the letters is the name of its rank |
| FreshNames.GenI | src/_build/minify.py:84-94 | The first name that is not taken; the loop ends |
| FreshNames.NameClasses | src/_build/minify.py:1076-1078 | The k-th class gets the k-th name, so no two share one |

## Left out

- Heap.Heap.Malloc: addresses and sizes of headers are unbounded here, so that an address range that wraps at 2^64 is not modelled; pages come from a counter that other users share, standing for the range manager's reserve; outside the kernel, where no pages are ever available, every call returns NULL.
- Formatter.MeasureAgrees: a format without character conversions suffices; with one, whether the passes agree depends on the arguments that come after it.
- WordRuns.RunKeepsHeld: the heap is the only one to reserve pages, and callers write only into what they hold.
- Formatter.Vprintf: counts are unbounded, so that the 32-bit `int` totals of texts of 2^31 characters and more, which the source truncates, are not modelled; arguments are 64-bit words and memory is assumed to hold a NUL at or after any string; the reallocation of the buffer is taken to succeed.
- PrintedNumbers.ReadsBack: the prefix of the alternative form is not part of the digits read back.
- PageTables.Paging.IdentityMap: only for slots whose tables lie in the window; through the firmware's tables of the low range the source computes an address that is no table's.
- PageTables.Paging.IdentityUnmap: the same.
- VirtualRanges.RangeManager.Reserve: counts that fit the gigabyte the ownership bitmap covers; past it the source writes behind the bitmap.
- VirtualRanges.RangeManager.Commit: the same.
- VirtualRanges.RangeManager.CommitFixed: not past the last page of the gigabyte.
- VirtualRanges.RangeManager.Release: pages of the managed range only; below it the source gives up pages of the kernel image, behind it it writes past the bitmap.
- BootLoader.MapWindow: a window in the page directory of the image; the kernel base is the last gigabyte of the address space, so that the next directory does not exist.
- BootLoader.BuildTables: the window is placed in the page directory of the image, as the kernel's link address gives, so that the loader's branch that would take new tables for the window (src/uefi/main.c:513-518) is not reached.
- KernelBoot.Boot: the memory map is ascending and disjoint, as coalescing an ascending list gives, and the structures fit the kernel gigabyte.
- Graphics.DrawWord: glyphs that do not pass the right edge.
- Graphics.PrintChar: the same for characters of the font.
- Console.TextConsole.PrintCharacter: characters of the font only, up to 126; what a later one does to the pixels is in Graphics.PrintChar, and what becomes of the next cell in Console.PastFontSpoils.
- Console.TextConsole.Print: the same.
- `_console_vprint`: its characters are those of Formatter.Vprintf without the NUL, printed under the same lock.
- ConsoleLock.LockTable.Create: needs a later unused lock, since the source reads behind the table at the last one.
- IncrementalBuild.StopTrustedIff: that no recorded header has changed and only headers are included is a condition that suffices, not the exact one; StoppedBuilds.StopSkips gives the outcome for a skipped file when they did change.
- IncrementalBuild.IncrementalIsClean: removing files and switching the debug flag are not modelled; a definition found twice, at which the script ends, is taken from the first header like a structure; no two source paths are taken to differ only in `/` and `$`, which object paths do not tell apart; hashes are taken as injective; a compiler run that fails is taken to leave the old object.
- HashFile.ReadsWhatWasWritten: hashes of 32 characters without spaces, as the digests are; spaces beyond ASCII are not stripped.
- Firmware calls, reading and checking the kernel file, and the choice of display mode.
- Cpu.CpuAgrees: accessed, dirty, user and no-execute bits and the canonical form of addresses are not part of the hardware walk; frames below 2^52 are asked for, since an entry holds no more.
- Translation caches, `invlpg` and the contents of CR2 and CR3: a fault is an access to a page that is not mapped.
- CPU start-up, interrupts, drivers, processes and threads: register writes and small counters.
- The layout of structures and definitions for assembly files in the build script, and the compiler, linker and disk-image commands, which are one function of a file and its closure.
- The rest of the minifier and the document and resource scripts: text rewriting by regular expressions.
- `realloc`, which returns NULL, and calloc's rounding of the product and its zeroing of what malloc gives.
