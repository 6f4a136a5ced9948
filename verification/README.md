# Memory management of an x86 kernel, in Dafny

This project models the stateful core of a small 32-bit x86 kernel and proves what it guarantees over every input,
every run and every interleaving. The classes and methods have the shape of the C++ code: word-packed bitmaps are
arrays of 32-bit words changed in place, the page directory and page tables are arrays, block headers lie in a
memory map and are relinked one by one, the loops are the loops of the source. Each method is proved against a small
specification on values, and the theorems are about that specification.

| file | what it holds |
|---|---|
| `Words`, `WordValues`, `BitWords`, `BitSeqs`, `Sequences` | 32-bit words, address rounding that wraps, masks and shifts as arithmetic, word-packed bitmaps as sequences of bits |
| `Hardware` | page-table writes, CR3 reloads and frame releases as a log of events, and a processor whose TLB may load or drop any present translation at any time (section 4.10 of the Intel SDM, Volume 3A) |
| `Paging` | the two-level page tables as a flat map from page to entry |
| `E820` | the memory map, and exactly which pages it yields |
| `FrameAlloc`, `FrameFacts` | the physical frame allocator, and what its scan means |
| `VmmSpec`, `VmmFacts`, `VmmRuns`, `VmmMeaning`, `Vmm` | the virtual memory manager: specification, invariant over runs, TLB safety and undoing, what one call does, the object |
| `HeapSpec`, `HeapFacts`, `Heap` | the kernel heap: sequence of blocks, facts over runs, the linked headers |
| `Platform` | the boot order, and the state it hands over |
| `Line`, `Keyboard`, `Console`, `ConsoleMeaning` | Bresenham lines, the keyboard ring buffer with `sys_read`, the text console with `sys_write` and where its glyphs stand |

## Main results

* **Three structures agree.** Over every run of `alloc_pages` and `free_pages` the page bitmap, the page-table
  entries and the frame bitmap agree, no frame is mapped twice in the managed region, free frames plus mapped pages
  are constant, and nothing outside the region is remapped (`VmmFacts.RunKeepsInv`). Boot establishes the invariant,
  with low memory, the page tables, both bitmaps and the heap outside the pool byte for byte (`Platform.PlatformInit`),
  so no run ever maps one of them into the region (`Platform.PagesMiss`). The kernel, low memory, the framebuffer and
  usable memory stay mapped as boot mapped them (`Platform.StaysMapped`).
* **What one call returns.** `alloc_pages` returns null exactly when there is no free window, and otherwise the address
  of the lowest one, now backed by the lowest free frames in order (`VmmMeaning.AllocMeaning`); the heap takes the first
  block that fits (`HeapFacts.FirstFit`).
* **No frame is freed while it can still be reached.** In every interleaving with TLB activity, from the switch to
  the new tables on and whatever the TLB held before it, the TLB agrees with the tables at the end of each run and at
  each `free_frame`, and then neither maps the frame within the managed region (`Platform.CoherentFromBoot`,
  `VmmRuns.TlbStaysCoherent`).
* **Undoing.** `free_pages` after `alloc_pages` restores bitmap, page tables and frame bitmap bit for bit; a freed
  range is what the next allocation of that size returns, after any number of further allocations.
* **The heap's state is a function of its live allocations.** Two block sequences of the same extent, without
  adjacent free blocks and with the same live allocations are equal (`HeapSpec.Canonical`). From this one lemma follow
  `free(alloc(s))` as the identity, the return to one free block in any order of frees, and more generally that any
  two runs leaving the same allocations live leave the same heap.
* **Lines, keys and text.** The pixels of `line` are determined: nearest to the ideal line, with a fixed choice halfway
  between two (`Line.TraceIsUnique`), and the size up to which it never overflows is exact. The keyboard delivers in
  order exactly when reads come in time, its buffer holds exactly the rest, and what each key types follows from the
  shift presses and releases before it (`Keyboard.KeysType`). Each glyph of a printed text is placed by counting the line
  breaks, tabs and backspaces before it (`ConsoleMeaning`); `kprint` and `kputc` agree exactly when `Console.Agrees` holds.

## Where the code does not do what it seems to promise

Each of these is kept as the code has it and stated as an exact condition.

* `mark` and `identity_map_range` round the end of a range up, which wraps to 0 above 0xFFFFF000, and then the whole
  range is skipped. A usable E820 entry that reaches past that address is lost, unless it contains no whole page
  below 4 GB (`E820.LostNearTop`). Both users of the map lose the same pages.
* Entries that are not page aligned are rounded outwards, so partial pages are handed out as whole ones, for an empty
  entry too (`E820.RoundsOutToPages`).
* `map_range` rounds the start and the size separately. A range is mapped whole exactly when it stays clear of the last
  page and its offset in the first page does not carry it over one more page boundary (`Paging.MapsWholeRange`);
  0x1000 bytes from 0x1800 on are not (`Paging.SecondPageUnmapped`).
* Initialisation writes past the end of the frame bitmap unless the bitmap tracks the frames reserved for it and no
  usable entry yields a page past the last frame tracked (`FrameFacts.InitStaysInBitmap`). Aligned maps that reach past
  the bitmap are safe (`FrameFacts.AlignedInitStaysInBitmap`); 0x7F00800 bytes from 1 MB on are not: the bit cleared
  lies in a frame that is itself handed out (`FrameFacts.WritesPastBitmap`).
* `alloc_frame` returns 0 when there is no free frame, and `alloc_pages` does not test for it: the page is then mapped to
  frame 0. With a free window the invariant survives exactly when enough frames are free
  (`VmmFacts.AllocKeepsInvExactlyWithEnoughFrames`). In every state with all pages free and fewer free frames than
  pages, some request breaks it (`VmmFacts.RunsOut`).
* `alloc_frame` scans `bitmap_size / 4` whole words. It reaches every tracked frame exactly when their number is a
  multiple of 32 or leaves more than 24 for the last word (`FrameFacts.ScanReachesAllFrames`); a free frame it does not
  reach stays free while memory is reported exhausted (`FrameFacts.HandedOutInTheEnd`). With 0x7F10000 usable bytes
  from 1 MB on, frame 0x800F is such a frame (`FrameFacts.LostFrame`).
* `heap.hpp` gives the heap size as `num_pages * PAGE_SIZE`; the code spans from the first to the last frame taken, which
  is that size exactly when the frames are consecutive (`FrameFacts.SpanOfLowest`).
* After a line break `kprint` returns the pen to the starting column but the cursor to column 0, so in a column other
  than 0 it draws what `kputc` would only for the texts `Console.Agrees` describes.
* When more than 256 characters are unread a read returns the newest character in the slot, not the oldest unread
  one (`Keyboard.ReadInTime`, `Keyboard.DeliveredInOrder`).
* `2 * err` in `line` overflows an `int` for some lines as soon as sizes above 0x2AAAAAAB are allowed
  (`Line.LargestSize`): on a line of even width and height 1 it reaches three times the width less two, which for the
  width 0x2AAAAAAC is too much (`Line.LargestError`).

## What is assumed of callers

The code does not check these, and the contracts require them: `free` and `free_pages` name live allocations;
at the heap's and the manager's initialisation enough frames are free and the first ones are consecutive; usable
memory ends at or below the kernel's address 0xC0000000; the framebuffer lies outside the managed region; lines are at
most 0x2AAAAAAB wide and high.

## Model

| member | source | states |
|---|---|---|
| WordValues.MasksAreArithmetic | src/arch/x86/paging/paging.cpp:26-34 | on the number written by the bits of any 32-bit word, the masks and shifts of the source are the model's `AlignDown`, `PageOf`, table indices and `Present` |
| WordValues.EntryIsOr | src/arch/x86/paging/paging.cpp:34 | or-ing the two flags into an aligned address gives the model's `Entry` |
| Words.AlignUp | src/arch/x86/paging/paging.cpp:27 | rounding up gives a page boundary: the next one from the address on, or 0 by wrapping above 0xFFFFF000 |
| Words.AdditionWraps | src/arch/x86/memory/frame_alloc.cpp:18 | 32-bit and 64-bit additions are sums modulo 2^32 and 2^64 |
| Words.Clamp | src/arch/x86/memory/frame_alloc.hpp:78-83 | addresses below 4 GB stay, higher ones become 0xFFFFFFFF |
| Words.CoversMeaning | src/arch/x86/memory/frame_alloc.hpp:62-65 | which pages a loop over a rounded range visits, including the ranges lost by wrapping |
| BitWords.BitsSet | src/arch/x86/memory/frame_alloc.cpp:99-107 | or-ing one mask into one word sets that bit of the bitmap and no other |
| BitWords.BitsClear | src/arch/x86/memory/frame_alloc.cpp:109-115 | and-ing with the complement of a mask clears that bit and no other |
| BitWords.FillBytes | src/arch/x86/memory/frame_alloc.cpp:37-41 | filling bytes fills exactly their eight bits each, across word boundaries |
| Hardware.StaleOnlyWhereDirty | src/arch/x86/paging/paging.cpp:114-115 | whatever the TLB loads and drops, a cached translation can differ from the tables only for a present entry rewritten since the last CR3 load |
| Hardware.SafeOnHardware | src/arch/x86/memory/vmm.cpp:103-104 | a safe event log keeps every interleaving coherent, and at each release neither tables nor TLB map the frame |
| Paging.PageDirectory.constructor | src/arch/x86/paging/paging.cpp:6-21 | every directory entry points to its own table and no page is mapped |
| Paging.PageDirectory.SetEntry | src/arch/x86/paging/paging.cpp:31-34 | the two-level indexing writes exactly the entry of that page in the flat map; directory entries stay |
| Paging.PageDirectory.IdentityMapRange | src/arch/x86/paging/paging.cpp:23-36 | exactly the pages of the rounded range map to themselves, none when rounding wraps |
| Paging.PageDirectory.MapRange | src/arch/x86/paging/paging.cpp:63-81 | exactly the pages of the rounded range map to consecutive frames, frame numbers wrapping at 4 GB |
| Paging.PageDirectory.UnmapRange | src/arch/x86/paging/paging.cpp:98-116 | exactly the pages of the rounded range become absent, then CR3 is reloaded |
| Paging.EntriesAreDistinct | src/arch/x86/paging/paging.cpp:31-34 | two addresses share a page-table entry exactly when they lie in the same page |
| Paging.MapsFromPageStart | src/arch/x86/paging/paging.cpp:65-71 | below 0xFFFFF000 the pages walked are those of `size` bytes counted from the start of the first page |
| Paging.MapsWholeRange | src/arch/x86/paging/paging.cpp:65-71 | every page that holds a byte of the range is mapped exactly when the separate rounding of start and size does not lose one |
| Paging.SecondPageUnmapped | src/arch/x86/paging/paging.cpp:65-71 | an input whose second page is not mapped |
| Paging.MapThenUnmap | src/arch/x86/paging/paging.cpp:63-116 | mapping absent pages and unmapping the same range restores the flat map |
| E820.MemoryMap.IdentityMapUsable | src/arch/x86/memory/memory_map.cpp:10-26 | a page is mapped to itself exactly when a usable entry yields it; other entries stay |
| E820.BelowFourGigabytes | src/arch/x86/memory/memory_map.cpp:18-22 | an entry starts and ends where it says below 4 GB, is cut off there, and yields nothing above |
| E820.LostNearTop | src/arch/x86/memory/memory_map.cpp:18-24 | any entry, its 64-bit end wrapping or not, yields all its whole pages exactly when rounding its end does not wrap or no such page exists |
| E820.RoundsOutToPages | src/arch/x86/paging/paging.cpp:25-29 | any entry yields only whole pages of its own exactly when it yields none or both its ends are aligned and not rounded, wrapped or clamped |
| E820.UsablePagesOfAlignedMap | src/arch/x86/memory/memory_map.cpp:12-25 | for aligned entries the pages mapped are exactly those inside a usable entry |
| E820.UsablePagesIgnoreOrder | src/arch/x86/memory/memory_map.cpp:12-25 | the pages found do not depend on the order of the entries |
| FrameAlloc.FrameAllocator.constructor | src/arch/x86/memory/frame_alloc.cpp:5-62 | each bit after initialisation, given the memory map and what the bitmap memory held |
| FrameAlloc.FrameAllocator.FindHighest | src/arch/x86/memory/frame_alloc.cpp:10-26 | the highest clamped end of a usable entry |
| FrameAlloc.FrameAllocator.MarkUsable | src/arch/x86/memory/frame_alloc.cpp:45-53 | a bit is cleared exactly when a usable entry yields its frame |
| FrameAlloc.FrameAllocator.MarkReserved | src/arch/x86/memory/frame_alloc.cpp:55-61 | the three reserved ranges are one prefix of frames, all marked used |
| FrameAlloc.FrameAllocator.Mark | src/arch/x86/memory/frame_alloc.hpp:60-76 | exactly the frames of the rounded range change |
| FrameAlloc.FrameAllocator.AllocFrame | src/arch/x86/memory/frame_alloc.cpp:64-91 | the word and bit scan is one step of the take-the-lowest specification |
| FrameAlloc.FrameAllocator.AllocFrames | src/arch/x86/memory/heap.cpp:12-19 | repeated calls are repeated steps, and the first and last address are kept |
| FrameAlloc.FrameAllocator.FreeFrame | src/arch/x86/memory/frame_alloc.cpp:93-97 | the bit of that frame is cleared and no other |
| FrameFacts.TakeIsLowest | src/arch/x86/memory/frame_alloc.cpp:73-90 | the lowest free frame is taken and nothing else changes; 0 comes back exactly when none is free or frame 0 itself is |
| FrameFacts.TakeManyIsLowest | src/arch/x86/memory/heap.cpp:14-19 | k calls return the k lowest free frames in increasing order and mark exactly those |
| FrameFacts.SpanOfLowest | src/arch/x86/memory/heap.cpp:24-25 | the span from first to last frame is the number of frames exactly when they are consecutive |
| FrameFacts.InitiallyFree | src/arch/x86/memory/frame_alloc.cpp:43-61 | a frame starts free exactly when a usable entry contains it and it lies above low memory, page tables and bitmap |
| FrameFacts.InitiallyFreeAnyMap | src/arch/x86/memory/frame_alloc.cpp:43-61 | for any map, a frame with a bit in the bitmap starts free exactly when a usable entry yields it and it lies past 0x500000 and the bitmap |
| FrameFacts.BitmapHoldsFrames | src/arch/x86/memory/frame_alloc.cpp:29-30 | the bitmap has a bit for every tracked frame, and a byte less would not |
| FrameFacts.ScanReachesAllFrames | src/arch/x86/memory/frame_alloc.cpp:73 | the scan reaches every tracked frame exactly for those numbers of frames whose last word has no byte missing |
| FrameFacts.HandedOutInTheEnd | src/arch/x86/memory/frame_alloc.cpp:64-91 | when memory is first reported exhausted a frame that was free has been handed out exactly if the scan reaches it, and is free otherwise |
| FrameFacts.LostFrame | src/arch/x86/memory/frame_alloc.cpp:29-30 | an input with a tracked free frame the scan does not reach |
| FrameFacts.InitStaysInBitmap | src/arch/x86/memory/frame_alloc.cpp:29-61 | memory past the bitmap is left as it was exactly when the bitmap tracks its own frames and no usable page lies past the last frame tracked |
| FrameFacts.AlignedInitStaysInBitmap | src/arch/x86/memory/frame_alloc.cpp:29-61 | so it is for aligned maps that reach past the bitmap |
| FrameFacts.WritesPastBitmap | src/arch/x86/memory/frame_alloc.cpp:52 | an input for which a bit past the bitmap is cleared, in a frame that can be handed out |
| FrameFacts.InitIgnoresOrder | src/arch/x86/memory/frame_alloc.cpp:11-53 | initialisation gives the same bitmap for every order of the entries |
| VmmSpec.FirstWindow | src/arch/x86/memory/vmm.hpp:56-63 | the lowest window of n free pages, none exactly when there is no such window or n is 0 |
| VmmSpec.BitmapFits | src/arch/x86/memory/vmm.cpp:14-15 | the frames taken for the page bitmap hold a bit for every page, and one frame less would not |
| Vmm.VMM.constructor | src/arch/x86/memory/vmm.cpp:6-27 | the lowest frames are taken, they hold the whole bitmap, which lies at the first and is mapped to itself, and every page starts free |
| Vmm.VMM.FindFreeRange | src/arch/x86/memory/vmm.cpp:29-52 | the counting scan finds the lowest free window, and reports 0xFFFFFFFF exactly when there is none |
| Vmm.ScanStep | src/arch/x86/memory/vmm.cpp:34-50 | what one step of the scan knows of the windows seen so far |
| Vmm.VMM.MarkRange | src/arch/x86/memory/vmm.cpp:54-72 | exactly the bits of the range change |
| Vmm.VMM.Alloc | src/arch/x86/memory/vmm.cpp:74-89 | `Allocated`: null exactly when no free window exists, else the address of the lowest, its bits and entries; and the page-table events, out of frames included |
| Vmm.VMM.FreePages | src/arch/x86/memory/vmm.cpp:91-108 | `Freed`: bits cleared, entries absent, exactly the frames they named free again; and the order of unmap, flush and release |
| VmmMeaning.AllocMeaning | src/arch/x86/memory/vmm.cpp:74-89 | on the states before and after: the lowest window, null exactly without one, only its bits set, its entries the lowest free frames in order |
| VmmMeaning.FreeMeaning | src/arch/x86/memory/vmm.cpp:91-108 | on the states before and after: only the bits and entries of the range cleared, only the frames they named released |
| VmmMeaning.WindowsAfter | src/arch/x86/memory/vmm.cpp:29-52 | after an allocation the free windows are those clear of it |
| VmmMeaning.FirstAddresses | src/arch/x86/platform/platform.cpp:77-82 | in an empty region the first two allocations start at 0xD0000000, one after the other |
| VmmFacts.InvMeaning | src/arch/x86/memory/vmm.hpp:14-19 | a page's bit is set exactly when its entry is present; distinct pages have distinct frames, used and identity mapped |
| VmmFacts.MapPagesKeepInv | src/arch/x86/memory/vmm.cpp:81-87 | backing a free window keeps the agreement and moves n frames from free to mapped |
| VmmFacts.UnmapPagesKeepInv | src/arch/x86/memory/vmm.cpp:95-107 | releasing used pages keeps the agreement and moves their frames back |
| VmmFacts.PerformKeepsInv | src/arch/x86/memory/vmm.cpp:74-108 | each operation keeps the agreement, the sum of free frames and mapped pages, and all entries outside the region |
| VmmFacts.RunKeepsInv | src/arch/x86/memory/vmm.cpp:74-108 | so does every run |
| VmmFacts.NextFrameIsIdentityMapped | src/arch/x86/memory/frame_alloc.cpp:82-86 | after any run the next frame handed out is not 0 and is mapped to itself |
| VmmFacts.AllocKeepsInvExactlyWithEnoughFrames | src/arch/x86/memory/vmm.cpp:81-85 | an allocation keeps the agreement exactly when enough frames are free |
| VmmFacts.RunsOut | src/arch/x86/memory/vmm.cpp:81-85 | in any state with all pages free and fewer frames than pages, one more page than there are free frames breaks the agreement |
| VmmFacts.OutOfFrames | src/arch/x86/memory/vmm.cpp:83-84 | with too few frames every allocation into a free window breaks the agreement |
| VmmFacts.MapsFrameZero | src/arch/x86/memory/vmm.cpp:83-84 | with no frame left the page is mapped to frame 0 |
| VmmRuns.MapLogIsSafe | src/arch/x86/memory/vmm.cpp:81-85 | backing absent pages replaces no present entry |
| VmmRuns.UnmapLogIsSafe | src/arch/x86/memory/vmm.cpp:95-105 | each frame is released only after its one entry is cleared and the TLB flushed |
| VmmRuns.RunLogIsSafe | src/arch/x86/memory/vmm.cpp:74-108 | every run's event log is safe and yields the page tables of the run |
| VmmRuns.TlbStaysCoherent | src/arch/x86/memory/vmm.cpp:95-105 | in every interleaving of a run with TLB activity the TLB agrees with the tables at the end and at each release |
| VmmRuns.FreeUndoesAlloc | src/arch/x86/memory/vmm.cpp:74-108 | freeing what was just allocated restores page bitmap, page tables and frame bitmap exactly |
| VmmRuns.ReallocReturnsSameAddress | src/arch/x86/platform/platform.cpp:77-88 | after any further allocations, freeing a range and allocating that size again returns the same address, that of the lowest window at first |
| HeapSpec.Canonical | src/arch/x86/memory/heap.cpp:110-122 | extent and live allocations determine the block sequence |
| HeapFacts.AllocMeaning | src/arch/x86/memory/heap.cpp:59-95 | null exactly when no free block is large enough; otherwise one new allocation of bounded excess, the others unchanged |
| HeapFacts.FirstFit | src/arch/x86/memory/heap.cpp:58-92 | the first free block that is large enough is taken, split exactly when 28 bytes more are there, and all others stay |
| HeapFacts.FreshHeap | src/arch/x86/memory/heap.cpp:30-33 | the initial heap has nothing live and grants any size up to all but one header |
| HeapFacts.AllocKeepsWellFormed | src/arch/x86/memory/heap.cpp:66-92 | splitting keeps the blocks tiling the heap with no two free ones adjacent |
| HeapFacts.CoalesceMeaning | src/arch/x86/memory/heap.cpp:110-122 | the merge pass keeps the extent and the allocations and leaves no two free blocks adjacent |
| HeapFacts.FreeMeaning | src/arch/x86/memory/heap.cpp:98-123 | free removes one allocation and no other, and keeps the heap well formed |
| HeapFacts.FreeUndoesAlloc | src/arch/x86/memory/heap.cpp:66-123 | freeing what was just allocated restores the block sequence, split or not |
| HeapFacts.RunKeepsWellFormed | src/arch/x86/memory/heap.cpp:36-123 | the blocks tile the heap with no two free ones adjacent after every run |
| HeapFacts.AllFreedIsInitial | src/arch/x86/memory/heap.cpp:30-33 | after any run that leaves nothing live, the heap is the single free block of its initialisation |
| HeapFacts.RunsWithSameLiveAgree | src/arch/x86/memory/heap.cpp:36-123 | two runs that leave the same allocations live leave the same heap |
| HeapFacts.PayloadsAvoidHeaders | src/arch/x86/memory/heap.cpp:86-92 | a live payload lies inside the heap and overlaps no header |
| HeapFacts.LivePayloadsDisjoint | src/arch/x86/memory/heap.cpp:86-92 | two live payloads are disjoint with a header between them |
| HeapFacts.FewFreeBlocks | src/arch/x86/memory/heap.cpp:112-122 | free blocks outnumber used ones by at most one |
| HeapFacts.FragmentationBound | src/arch/x86/memory/heap.cpp:59-95 | a request succeeds whenever the free bytes exceed what one more than the used blocks, each too small, could hold |
| Heap.Heap.constructor | src/arch/x86/memory/heap.cpp:6-34 | the heap spans the frames taken, mapped to themselves, as one free block |
| Heap.Heap.FindFit | src/arch/x86/memory/heap.cpp:58-65 | the walk stops at the first block that fits, or at the end when none does |
| Heap.Heap.Alloc | src/arch/x86/memory/heap.cpp:36-96 | the relinked headers are the blocks of the specification; only headers of the new list are written; no addition wraps |
| Heap.Heap.Free | src/arch/x86/memory/heap.cpp:98-123 | marking and merging in place is the specification's free; only headers of the old list are written |
| Heap.Heap.MergePass | src/arch/x86/memory/heap.cpp:112-122 | the nested loops end and coalesce every run of free blocks |
| Heap.LinkedElsewhere | src/arch/x86/memory/heap.hpp:6-10 | writes to payloads and stale headers do not disturb the list |
| Platform.SetUpPaging | src/arch/x86/platform/platform.cpp:37-58 | every entry of the new tables: low memory, page tables, framebuffer and usable pages map themselves, 4 MB from 0xC0000000 map physical 0, nothing else is mapped; CR3 is reloaded last |
| Platform.InitialFreeIsMapped | src/arch/x86/platform/platform.cpp:52-68 | for every memory map, every frame the allocator starts with is usable, unreserved and identity mapped |
| Platform.SameWritesAreSafe | src/arch/x86/memory/heap.cpp:21-22 | rewriting entries with the value they have leaves nothing stale |
| Platform.SetUpHeap | src/arch/x86/platform/platform.cpp:70-72 | with consecutive frames the heap has exactly the pages asked for, each mapped to itself, and its mapping changes no entry |
| Platform.SetUpMemory | src/arch/x86/platform/platform.cpp:66-75 | boot hands over the invariant, with no byte of low memory, page tables, either bitmap or the heap in the pool, heap and VMM bitmap mapped, by a safe event log |
| Platform.PlatformInit | src/arch/x86/platform/platform.cpp:37-75 | the whole boot order, from the memory for the tables to that hand-over, with all of boot's mappings in place and only the safe log after the CR3 reload |
| Platform.PagesMiss | src/arch/x86/memory/vmm.cpp:74-108 | after any run no page of the region is backed by a frame that holds a byte of memory outside the pool |
| Platform.StaysMapped | src/arch/x86/platform/platform.cpp:40-55 | after any run the kernel, low memory, page tables, framebuffer and usable pages are mapped as boot mapped them |
| Platform.CoherentFromBoot | src/arch/x86/platform/platform.cpp:58-88 | whatever the TLB held before the CR3 reload, boot and any run after it keep it coherent and release no frame still mapped |
| Platform.ReallocTest | src/arch/x86/platform/platform.cpp:77-88 | the boot test on the objects, for any sizes and state: when each address is null, that the third is the first, and the addresses in an empty region |
| Line.Line | src/driver/fb/primitives/line.cpp:7-18 | max(a,b)+1 pixels from end to end, each one step along the longer axis, each the nearest to the ideal line, in 32-bit arithmetic |
| Line.HalfPixel | src/driver/fb/primitives/line.cpp:10-17 | the bound the trace keeps is half-open: -a < 2*(a*j - b*i) <= a for a >= b, -b <= 2*(a*j - b*i) < b on steep lines |
| Line.TraceIsUnique | src/driver/fb/primitives/line.cpp:10-17 | only one pixel sequence of that length has these properties |
| Line.NextStep | src/driver/fb/primitives/line.cpp:14-16 | the error term decides the step: the longer axis always moves, the bound is kept, twice the error stays within three times the longer side, less two |
| Line.LargestSize | src/driver/fb/primitives/line.cpp:10-16 | no `2 * err` overflows for any line up to a size exactly when that size is at most 0x2AAAAAAB |
| Line.LargestError | src/driver/fb/primitives/line.cpp:14-16 | on a line of even width and height 1 that bound is reached |
| Keyboard.Keyboard.HandleInterrupt | src/driver/keyboard/keyboard.cpp:46-91 | the buffer holds the newest characters the scancodes so far type, the positions their counts modulo 2^32 |
| Keyboard.ModifiersMeaning | src/driver/keyboard/keyboard.cpp:55-74 | shift counts as held exactly when some shift press has no shift release after it; control likewise |
| Keyboard.KeysType | src/driver/keyboard/keyboard.cpp:9-28 | what each key adds to the text, row by row, the shifted character exactly while shift is held |
| Keyboard.OthersTypeNothing | src/driver/keyboard/keyboard.cpp:55-86 | modifiers, all other keys and all releases add nothing |
| Keyboard.Keyboard.ReadChar | src/driver/keyboard/keyboard.cpp:93-102 | the newest character in the slot of the oldest unread one, and 0 exactly when the positions meet |
| Keyboard.Keyboard.SysRead | src/arch/x86/syscall/read/read.cpp:4-17 | min(count, unread) characters in order, the rest of the caller's buffer untouched |
| Keyboard.Keyboard.Serve | src/driver/keyboard/keyboard.cpp:46-107 | one interrupt or read on the object is one event of the session the interleavings are made of |
| Keyboard.PositionWraps | src/driver/keyboard/keyboard.cpp:88-89 | slots stay right when the 32-bit positions wrap |
| Keyboard.PositionsMeet | src/driver/keyboard/keyboard.cpp:97-107 | the positions are equal exactly when the number of unread characters is a multiple of 2^32 |
| Keyboard.ReadInTime | src/driver/keyboard/keyboard.cpp:88-100 | a read finds its own character exactly when at most 256 are unread |
| Keyboard.DeliveredInOrder | src/driver/keyboard/keyboard.cpp:46-107 | in every interleaving characters are delivered once each and in order exactly when every read comes in time |
| Keyboard.ReadIsPrefix | src/arch/x86/syscall/read/read.cpp:8-15 | then what was read is a prefix of what the scancodes type, and while at most 256 are unread the object's buffer holds exactly the rest |
| Console.Console.DrawString | src/driver/fb/primitives/string.cpp:3-64 | the pen loop draws `Paint` of the text |
| ConsoleMeaning.PaintMeaning | src/driver/fb/primitives/string.cpp:11-63 | one glyph for each byte that draws, in order: the byte, '?' or a blank, 16 pixels down for each newline before it, in the cell its line's moves reach |
| Console.Console.Kprint | src/driver/fb/kprint.cpp:8-38 | the whole string is painted from the cursor, and the cursor advanced by each byte |
| ConsoleMeaning.PrintedMeaning | src/driver/fb/kprint.cpp:8-10 | glyph and place of each byte of a `kprint`, later lines starting in the cursor's column |
| ConsoleMeaning.CursorMeaning | src/driver/fb/kprint.cpp:12-37 | the cursor ends a row down for each newline, in the column its last line reaches from 0 |
| ConsoleMeaning.PrintableText | src/driver/fb/kprint.cpp:8-38 | printable bytes are drawn one per cell, byte i in cell i from the cursor, which moves past them |
| Console.Console.SysWrite | src/arch/x86/syscall/write/write.cpp:4-15 | the write prints each byte that is not zero in turn and returns the count |
| ConsoleMeaning.PutEachMeaning | src/driver/fb/kprint.cpp:47-51 | glyph and place of each byte printed one by one, later lines starting in column 0 |
| ConsoleMeaning.ZerosLeftOut | src/arch/x86/syscall/write/write.cpp:8-13 | the bytes a write prints are its bytes without the zeros |
| Console.PutEachIsPaintFromZero | src/driver/fb/kprint.cpp:47-51 | printing byte by byte is painting with line breaks that return to column 0 |
| Console.KprintIsKputcEach | src/driver/fb/kprint.cpp:8-51 | one kprint draws what a kputc of each character does exactly when `Agrees` |
| Console.AgreesAtMargin | src/driver/fb/kprint.cpp:15-23 | in column 0, or without line breaks, they always agree |
| Console.SysWriteIsOneKprint | src/arch/x86/syscall/write/write.cpp:8-13 | a write without zero bytes draws what one print would exactly when `Agrees`, and always leaves the same cursor |

## Left out

* One physical memory: page tables, bitmaps and heap headers are separate arrays and maps, so that they do not overlap
  is part of the model; what is proved is that their frames differ. The memory a bitmap or heap is placed in is
  a parameter.
* Heap payload bytes: headers are a map from address to header, `Alloc` and `Free` write headers only, and no header
  overlaps a live payload. Alignment of heap results is not claimed: the source does not round sizes.
* `zero_memory` and the fill of the frame bitmap: the first stores words where the source stores bytes; the second is
  byte by byte.
* Bit masks in address arithmetic are written as division and remainder; `WordValues.MasksAreArithmetic` justifies it,
  on the number written by the bits of a word.
* The loop bodies of `alloc_pages`, `free_pages`, the merge pass and `line` are methods of their own (`BackPage`,
  `UnbackPage`, `Absorb`, `Step`), and `mark_used` and `mark_free` of the manager are one method with a flag.
* The page-table log and the frame releases in it are ghost state; TLB entries are whole translations, without
  permissions, global pages or paging-structure caches.
* Line.Line: coordinate differences up to 0x2AAAAAAB, the largest size without overflow; what a compiler makes of
  a signed overflow is not modelled.
* The frame bitmap is given room for every frame a 32-bit address can name, so writes past its `bitmap_size` bytes are
  writes to later bits; `FrameFacts.InitStaysInBitmap` says when there are none. What else lies there is not modelled.
* Console cursor columns and pixel positions are unbounded integers, and the place of a glyph is stated for pens on the
  9-pixel grid, where the console always is; `putpixel`, `draw_char` and the font are a log of
  pixels or glyphs; colours are not modelled.
* `sys_read` runs without interrupts between its steps, because its gate is an interrupt gate
  (src/arch/x86/idt/idt.cpp:98-99); interrupts between two calls are arbitrary.
* `kprintf` and `convert`: digit printing, easy beside the rest.
* `kmalloc` and `kfree`: wrappers of a heap object that is never initialised.
* Port I/O, PIC, GDT, IDT, boot sectors and E820 collection: hardware effects without state of interest; the E820 map
  and the scancodes are arbitrary inputs.
