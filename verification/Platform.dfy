/** The boot sequence: page tables, frame allocator, heap and memory manager, and the state it hands over. */
module Platform {
  import opened Words
  import opened Sequences
  import opened BitWords
  import opened BitSeqs
  import opened Hardware
  import opened Paging
  import opened E820
  import opened FrameAlloc
  import opened FrameFacts
  import Heap
  import HeapSpec
  import opened VmmSpec
  import opened VmmFacts
  import opened VmmRuns
  import opened VmmMeaning
  import Vmm

  // ----- what boot assumes of the machine

  ghost predicate UsableBelowKernel(entries: seq<Entry820>) {
    forall page: nat :: UsablePage(entries, page) ==> page < RAM_FRAMES
  }

  /** The framebuffer lies outside the managed region. */
  ghost predicate FramebufferFits(framebuffer: u32, size: u32) {
    forall page: nat :: Covers(framebuffer, Add32(framebuffer, size), page) ==> !(REGION <= page < REGION_END)
  }

  ghost predicate FirstFreeConsecutive(used: seq<bool>, limit: nat, n: nat)
    requires limit <= |used|
  {
    var frames := TakeMany(used, limit, n).1;
    forall i :: 0 <= i < n ==> frames[i] == frames[0] + i
  }

  ghost predicate RegionAbsent(flat: seq<u32>) {
    |flat| == PAGE_COUNT && forall v :: REGION <= v < REGION_END ==> flat[v] == 0
  }

  ghost predicate UsableIdentity(flat: seq<u32>, entries: seq<Entry820>) {
    |flat| == PAGE_COUNT && forall page :: 0 <= page < PAGE_COUNT && UsablePage(entries, page) ==> flat[page] == Entry(page)
  }

  /** The page tables of `platform_init` at the switch: low memory with the page tables, the framebuffer and every usable
      page map themselves; 4 MB from 0xC0000000 on map physical memory from 0 on; nothing else is mapped. */
  ghost predicate BootTables(flat: seq<u32>, entries: seq<Entry820>, framebuffer: u32, size: u32) {
    && |flat| == PAGE_COUNT
    && forall v {:trigger flat[v]} :: 0 <= v < PAGE_COUNT ==>
         flat[v] ==
           if v < 0x500 || Covers(framebuffer, Add32(framebuffer, size), v) || UsablePage(entries, v) then Entry(v)
           else if 0xC_0000 <= v < 0xC_0400 then Entry(v - 0xC_0000)
           else 0
  }

  /** Steps 1 to 4 of `platform_init` and the switch to the new tables. */
  method SetUpPaging(directory: array<u32>, memory: array<u32>, framebuffer: u32, size: u32, mmap: MemoryMap)
    returns (pd: PageDirectory)
    requires directory.Length == PAGE_TABLE_COUNT && memory.Length == PAGE_COUNT && directory != memory
    modifies directory, memory
    ensures fresh(pd) && pd.entries == directory && pd.tables == memory && pd.Valid()
    ensures pd.log != [] && pd.log[|pd.log| - 1] == Flush
    ensures BootTables(pd.Flat(), mmap.entries, framebuffer, size)
  {
    pd := new PageDirectory(directory, memory);
    MapKernel(pd);
    ghost var kernel := pd.Flat();
    MapThemselves(pd, 0, PAGE_TABLES_BASE);
    ghost var low := pd.Flat();
    MapThemselves(pd, PAGE_TABLES_BASE, PAGE_TABLES_BASE + PAGE_SIZE * PAGE_TABLE_COUNT);
    ghost var tables := pd.Flat();
    MapThemselves(pd, framebuffer, Add32(framebuffer, size));
    ghost var drawn := pd.Flat();
    mmap.IdentityMapUsable(pd);
    FiveSteps(kernel, low, tables, drawn, pd.Flat(), mmap.entries, framebuffer, size);
    pd.ReloadCr3();
  }

  method MapKernel(pd: PageDirectory)
    requires pd.Valid() && pd.Flat() == Absent(PAGE_COUNT)
    modifies pd.tables, pd`log
    ensures pd.Valid() && KernelMapped(pd.Flat())
  {
    KernelWindow();
    pd.MapRange(KERNEL_VMA, 0, 0x40_0000);
  }

  method MapThemselves(pd: PageDirectory, start: u32, end: u32)
    requires pd.Valid()
    modifies pd.tables, pd`log
    ensures pd.Valid() && IdentityMapped(old(pd.Flat()), pd.Flat(), start, end)
  {
    SplicedIdentity(pd.Flat(), start, end);
    pd.IdentityMapRange(start, end);
  }

  /** The kernel's 4 MB window. */
  lemma KernelWindow()
    ensures PageOf(KERNEL_VMA) == 0xC_0000 && PageSpan(KERNEL_VMA, RangeEnd(KERNEL_VMA, 0x40_0000)) == 0x400
  {
  }

  ghost predicate KernelMapped(flat: seq<u32>) {
    && |flat| == PAGE_COUNT
    && forall v :: 0 <= v < PAGE_COUNT ==> flat[v] == if 0xC_0000 <= v < 0xC_0400 then Entry(v - 0xC_0000) else 0
  }

  lemma FiveSteps(kernel: seq<u32>, low: seq<u32>, tables: seq<u32>, drawn: seq<u32>, flat: seq<u32>,
                  entries: seq<Entry820>, framebuffer: u32, size: u32)
    requires KernelMapped(kernel)
    requires IdentityMapped(kernel, low, 0, 0x10_0000) && IdentityMapped(low, tables, 0x10_0000, 0x50_0000)
    requires IdentityMapped(tables, drawn, framebuffer, Add32(framebuffer, size)) && UsableMapped(drawn, flat, entries)
    ensures BootTables(flat, entries, framebuffer, size)
  {
    assert forall v: nat :: v < PAGE_COUNT ==> (Covers(0, 0x10_0000, v) <==> v < 0x100);
    assert forall v: nat :: v < PAGE_COUNT ==> (Covers(0x10_0000, 0x50_0000, v) <==> 0x100 <= v < 0x500);
  }

  /** What the memory manager needs of them. */
  lemma RegionIsAbsent(flat: seq<u32>, entries: seq<Entry820>, framebuffer: u32, size: u32)
    requires BootTables(flat, entries, framebuffer, size)
    requires UsableBelowKernel(entries) && FramebufferFits(framebuffer, size)
    ensures RegionAbsent(flat) && UsableIdentity(flat, entries)
  {
    forall v: nat | v < PAGE_COUNT
      ensures REGION <= v < REGION_END ==> flat[v] == 0
      ensures UsablePage(entries, v) ==> flat[v] == Entry(v)
    {
      BootEntry(flat, entries, framebuffer, size, v);
    }
  }

  lemma BootEntry(flat: seq<u32>, entries: seq<Entry820>, framebuffer: u32, size: u32, v: nat)
    requires BootTables(flat, entries, framebuffer, size) && v < PAGE_COUNT
    ensures v < 0x500 || Covers(framebuffer, Add32(framebuffer, size), v) || UsablePage(entries, v) ==> flat[v] == Entry(v)
    ensures 0xC_0000 <= v < 0xC_0400 && !Covers(framebuffer, Add32(framebuffer, size), v) && !UsablePage(entries, v) ==>
      flat[v] == Entry(v - 0xC_0000)
    ensures UsableBelowKernel(entries) && FramebufferFits(framebuffer, size) && REGION <= v < REGION_END ==> flat[v] == 0
  {
  }

  // ----- taking frames that are already identity mapped

  ghost predicate FreeIsIdentity(used: seq<bool>, limit: nat, flat: seq<u32>) {
    && limit <= |used| == |flat| == PAGE_COUNT
    && forall f :: 0 <= f < limit && !used[f] ==> 0 < f < RAM_FRAMES && flat[f] == Entry(f)
  }

  /** For every memory map, each frame the allocator starts out with is a usable page above the reserved ones, and
      identity mapped. */
  lemma InitialFreeIsMapped(memory: seq<bool>, entries: seq<Entry820>, flat: seq<u32>)
    requires |memory| == PAGE_COUNT && UsableIdentity(flat, entries)
    ensures forall f :: 0 <= f < BitmapSize(entries) / 4 * 32 && !InitialUsed(memory, entries)[f] ==>
      BITMAP_BASE + BitmapSize(entries) <= f * 0x1000 && UsablePage(entries, f) && flat[f] == Entry(f)
  {
    forall f: nat
      ensures f >= FirstUnreserved(BitmapSize(entries)) <==> BITMAP_BASE + BitmapSize(entries) <= f * 0x1000
    {
      UnreservedIsAbove(BitmapSize(entries), f);
    }
  }

  lemma InitialFreeIsIdentity(memory: seq<bool>, entries: seq<Entry820>, flat: seq<u32>)
    requires |memory| == PAGE_COUNT && UsableBelowKernel(entries) && UsableIdentity(flat, entries)
    ensures FreeIsIdentity(InitialUsed(memory, entries), BitmapSize(entries) / 4 * 32, flat)
  {
    InitialFreeIsMapped(memory, entries, flat);
  }

  /** The frames taken were free and are used now; no others changed. */
  lemma TakenFrames(used: seq<bool>, limit: nat, n: nat)
    requires limit <= |used| && 0 < n <= FreeCount(used, limit) && FirstFreeConsecutive(used, limit, n)
    ensures var (after, frames) := TakeMany(used, limit, n);
      && frames[n - 1] == frames[0] + n - 1 && FreeCount(after, limit) == FreeCount(used, limit) - n
      && (forall f :: frames[0] <= f < frames[0] + n ==> f < limit && !used[f] && after[f])
      && (forall f :: 0 <= f < |used| && !after[f] ==> !used[f])
  {
    TakeManyIsLowest(used, limit, n);
    var (after, frames) := TakeMany(used, limit, n);
    forall f | frames[0] <= f < frames[0] + n
      ensures f < limit && !used[f] && after[f]
    {
      assert frames[f - frames[0]] == f;
      assert f in frames;
    }
  }

  /** Mapping frames just taken to themselves rewrites entries with the value they have. */
  lemma TakenStayMapped(used: seq<bool>, limit: nat, flat: seq<u32>, n: nat)
    requires FreeIsIdentity(used, limit, flat) && 0 < n <= FreeCount(used, limit) && FirstFreeConsecutive(used, limit, n)
    ensures var (after, frames) := TakeMany(used, limit, n);
      && 0 < frames[0] && frames[0] + n <= RAM_FRAMES && frames[n - 1] == frames[0] + n - 1
      && Splice(flat, frames[0], Mapping(frames[0], n)) == flat
      && FreeIsIdentity(after, limit, flat) && FreeCount(after, limit) == FreeCount(used, limit) - n
      && (forall f :: frames[0] <= f < frames[0] + n ==> after[f])
      && (forall f :: 0 <= f < |used| && !after[f] ==> !used[f])
  {
    TakenFrames(used, limit, n);
    var first := TakeMany(used, limit, n).1[0];
    assert !used[first] && !used[first + n - 1];
    IdentitySplice(flat, first, n);
  }

  lemma IdentitySplice(flat: seq<u32>, first: nat, n: nat)
    requires |flat| == PAGE_COUNT && first + n <= RAM_FRAMES
    requires forall f :: first <= f < first + n ==> flat[f] == Entry(f)
    ensures Splice(flat, first, Mapping(first, n)) == flat
  {
    var values := Mapping(first, n);
    forall i | 0 <= i < n
      ensures values[i] == flat[first + i]
    {
      assert first + i < PAGE_COUNT;
    }
    SpliceOfSame(flat, first, values);
  }

  lemma SpliceOfSame(flat: seq<u32>, first: nat, values: seq<u32>)
    requires first + |values| <= |flat| && forall i :: 0 <= i < |values| ==> values[i] == flat[first + i]
    ensures Splice(flat, first, values) == flat
  {
  }

  lemma {:induction false} SameWritesAreSafe(flat: seq<u32>, first: nat, values: seq<u32>)
    requires first + |values| <= |flat| && Splice(flat, first, values) == flat
    ensures Replay(flat, Writes(first, values)) == flat && SafeLog(flat, Writes(first, values), REGION, REGION_END)
  {
    if values != [] {
      var n := |values| - 1;
      var before, last := Writes(first, values[..n]), [Write(first + n, values[n])];
      assert Splice(flat, first, values)[first + n] == values[n];
      forall v | 0 <= v < |flat|
        ensures Splice(flat, first, values[..n])[v] == flat[v]
      {
        assert Splice(flat, first, values)[v] == flat[v];
      }
      assert Splice(flat, first, values[..n]) == flat;
      SameWritesAreSafe(flat, first, values[..n]);
      OneWrite(flat, first + n, values[n]);
      assert Writes(first, values) == before + last;
      assert flat[first + n := values[n]] == flat;
      SafeThen(flat, before, flat, last, flat, REGION, REGION_END);
    }
  }

  ghost function FreeSet(used: seq<bool>, limit: nat): set<nat>
    requires limit <= |used|
  {
    set f | 0 <= f < limit && !used[f]
  }

  lemma HandOver(m: Machine)
    requires m.Sized() && RegionAbsent(m.flat) && FreeIsIdentity(m.frames, m.limit, m.flat)
    requires forall p :: 0 <= p < TOTAL_PAGES ==> !m.pages[p]
    ensures Inv(m, FreeSet(m.frames, m.limit))
  {
  }

  /** What is left to take from, and what the page tables hold, between the steps of the boot sequence. */
  ghost predicate CanTake(used: seq<bool>, limit: nat, flat: seq<u32>, n: nat) {
    FreeIsIdentity(used, limit, flat) && 0 < n <= FreeCount(used, limit) && FirstFreeConsecutive(used, limit, n)
  }

  /** Mapping `n` frames just taken to themselves is a safe log that changes no entry. */
  lemma Rewrite(used: seq<bool>, limit: nat, flat: seq<u32>, n: nat, first: nat)
    requires CanTake(used, limit, flat, n) && first == TakeMany(used, limit, n).1[0]
    ensures 0 < first && first + n <= RAM_FRAMES && TakeMany(used, limit, n).1[n - 1] == first + n - 1
    ensures Splice(flat, first, Mapping(first, n)) == flat && Replay(flat, Writes(first, Mapping(first, n))) == flat
    ensures SafeLog(flat, Writes(first, Mapping(first, n)), REGION, REGION_END)
    ensures MapsItself(flat, first * PAGE_SIZE, n * PAGE_SIZE)
  {
    TakenFrames(used, limit, n);
    TakenStayMapped(used, limit, flat, n);
    SameWritesAreSafe(flat, first, Mapping(first, n));
  }

  lemma HeapCanTake(used: seq<bool>, limit: nat, flat: seq<u32>, n: nat)
    requires CanTake(used, limit, flat, n)
    ensures Heap.FreeAboveZero(used, limit) && 0 < n <= FreeCount(used, limit)
  {
  }

  method SetUpHeap(fa: FrameAllocator, pd: PageDirectory, numPages: nat, heapMemory: map<u32, Heap.BlockHeader>)
    returns (heap: Heap.Heap, ghost log: seq<Event>)
    requires fa.Valid() && pd.Valid() && CanTake(fa.Used(), fa.Limit(), pd.Flat(), numPages)
    modifies fa.bitmap, pd.tables, pd`log
    ensures fa.Valid() && pd.Valid() && heap.Valid() && fresh(heap)
    ensures fa.Used() == TakeMany(old(fa.Used()), fa.Limit(), numPages).0
    ensures heap.totalSize == numPages * PAGE_SIZE && heap.blocks == HeapSpec.Initial(heap.totalSize)
    ensures heap.head == TakeMany(old(fa.Used()), fa.Limit(), numPages).1[0] * PAGE_SIZE
    ensures pd.Flat() == old(pd.Flat()) && pd.log == old(pd.log) + log
    ensures SafeLog(pd.Flat(), log, REGION, REGION_END) && Replay(pd.Flat(), log) == pd.Flat()
    ensures MapsItself(pd.Flat(), heap.head, heap.totalSize)
  {
    ghost var first := TakeMany(fa.Used(), fa.Limit(), numPages).1[0];
    Rewrite(fa.Used(), fa.Limit(), pd.Flat(), numPages, first);
    HeapCanTake(fa.Used(), fa.Limit(), pd.Flat(), numPages);
    heap := new Heap.Heap(fa, pd, numPages, heapMemory);
    log := Writes(first, Mapping(first, numPages));
  }

  method SetUpVmm(fa: FrameAllocator, pd: PageDirectory, memory: array<bv32>)
    returns (vmm: Vmm.VMM, ghost log: seq<Event>)
    requires fa.Valid() && pd.Valid() && memory.Length == TOTAL_PAGES / 32 && memory != fa.bitmap
    requires CanTake(fa.Used(), fa.Limit(), pd.Flat(), BITMAP_PAGES) && RegionAbsent(pd.Flat())
    modifies memory, fa.bitmap, pd.tables, pd`log
    ensures vmm.Valid() && vmm.fa == fa && vmm.pd == pd && vmm.bitmap == memory && fresh(vmm)
    ensures fa.Used() == TakeMany(old(fa.Used()), fa.Limit(), BITMAP_PAGES).0
    ensures vmm.bitmapStart == TakeMany(old(fa.Used()), fa.Limit(), BITMAP_PAGES).1[0] * PAGE_SIZE
    ensures Inv(vmm.State(), FreeSet(fa.Used(), fa.Limit()))
    ensures pd.Flat() == old(pd.Flat()) && pd.log == old(pd.log) + log
    ensures SafeLog(pd.Flat(), log, REGION, REGION_END) && Replay(pd.Flat(), log) == pd.Flat()
    ensures 4 * vmm.bitmap.Length <= BITMAP_PAGES * PAGE_SIZE
    ensures MapsItself(pd.Flat(), vmm.bitmapStart, 4 * vmm.bitmap.Length)
  {
    ghost var flat, used, count := pd.Flat(), fa.Used(), BITMAP_PAGES;
    ghost var first := TakeMany(used, fa.Limit(), count).1[0];
    TakenStayMapped(used, fa.Limit(), flat, count);
    Rewrite(used, fa.Limit(), flat, count, first);
    SpanOfPages(first, count, first * PAGE_SIZE, count * PAGE_SIZE);
    vmm := new Vmm.VMM(fa, pd, memory);
    log := Writes(first, Mapping(first, count));
    HandOver(vmm.State());
  }

  /** The frames left once the heap has taken `a` of them and the manager's bitmap `b`. */
  ghost function LeftOver(used: seq<bool>, limit: nat, a: nat, b: nat): set<nat>
    requires limit <= |used| && a + b <= FreeCount(used, limit)
  {
    var after := TakeMany(used, limit, a).0;
    FreeSet(TakeMany(after, limit, b).0, limit)
  }

  ghost predicate CanTakeBoth(used: seq<bool>, limit: nat, flat: seq<u32>, a: nat, b: nat) {
    && FreeIsIdentity(used, limit, flat) && 0 < a && 0 < b && a + b <= FreeCount(used, limit)
    && FirstFreeConsecutive(used, limit, a) && FirstFreeConsecutive(TakeMany(used, limit, a).0, limit, b)
  }

  /** No frame of the set holds one of the `bytes` from `start` on. */
  ghost predicate Misses(frames: set<nat>, start: nat, bytes: nat) {
    forall f :: f in frames ==> f * 0x1000 + 0x1000 <= start || start + bytes <= f * 0x1000
  }

  lemma TakenTwice(used: seq<bool>, limit: nat, flat: seq<u32>, a: nat, b: nat)
    requires CanTakeBoth(used, limit, flat, a, b)
    ensures var after := TakeMany(used, limit, a).0;
      && CanTake(used, limit, flat, a) && CanTake(after, limit, flat, b)
      && Misses(LeftOver(used, limit, a, b), TakeMany(used, limit, a).1[0] * PAGE_SIZE, a * PAGE_SIZE)
      && Misses(LeftOver(used, limit, a, b), TakeMany(after, limit, b).1[0] * PAGE_SIZE, b * PAGE_SIZE)
      && forall f :: f in LeftOver(used, limit, a, b) ==> f < limit && !used[f]
  {
    TakenStayMapped(used, limit, flat, a);
    TakenStayMapped(TakeMany(used, limit, a).0, limit, flat, b);
  }

  method SetUpHeapAndVmm(fa: FrameAllocator, pd: PageDirectory, vmmMemory: array<bv32>,
                         heapMemory: map<u32, Heap.BlockHeader>, heapPages: nat)
    returns (heap: Heap.Heap, vmm: Vmm.VMM, ghost log: seq<Event>)
    requires fa.Valid() && pd.Valid() && vmmMemory.Length == TOTAL_PAGES / 32 && fa.bitmap != vmmMemory
    requires RegionAbsent(pd.Flat()) && CanTakeBoth(fa.Used(), fa.Limit(), pd.Flat(), heapPages, BITMAP_PAGES)
    modifies fa.bitmap, vmmMemory, pd.tables, pd`log
    ensures heap.Valid() && vmm.Valid() && vmm.fa == fa && vmm.pd == pd && vmm.bitmap == vmmMemory
    ensures var used, limit := old(fa.Used()), old(fa.Limit());
      && Inv(vmm.State(), LeftOver(used, limit, heapPages, BITMAP_PAGES))
      && heap.head == TakeMany(used, limit, heapPages).1[0] * PAGE_SIZE
      && vmm.bitmapStart == TakeMany(TakeMany(used, limit, heapPages).0, limit, BITMAP_PAGES).1[0] * PAGE_SIZE
    ensures heap.totalSize == heapPages * PAGE_SIZE && heap.blocks == HeapSpec.Initial(heap.totalSize)
    ensures pd.Flat() == old(pd.Flat()) && pd.log == old(pd.log) + log
    ensures SafeLog(pd.Flat(), log, REGION, REGION_END) && Replay(pd.Flat(), log) == pd.Flat()
    ensures 4 * vmm.bitmap.Length <= BITMAP_PAGES * PAGE_SIZE
    ensures MapsItself(pd.Flat(), heap.head, heap.totalSize)
    ensures MapsItself(pd.Flat(), vmm.bitmapStart, 4 * vmm.bitmap.Length)
  {
    ghost var flat, heapLog, vmmLog := pd.Flat(), [], [];
    TakenTwice(fa.Used(), fa.Limit(), flat, heapPages, BITMAP_PAGES);
    heap, heapLog := SetUpHeap(fa, pd, heapPages, heapMemory);
    vmm, vmmLog := SetUpVmm(fa, pd, vmmMemory);
    SafeThen(flat, heapLog, flat, vmmLog, flat, REGION, REGION_END);
    log := heapLog + vmmLog;
    AppendAssociates(old(pd.log), heapLog, vmmLog);
  }

  /** The map and the memory size give boot enough frames, and the first free ones are consecutive. */
  ghost predicate EnoughMemory(memory: seq<bool>, entries: seq<Entry820>, heapPages: nat)
    requires |memory| == PAGE_COUNT
  {
    var used, limit := InitialUsed(memory, entries), BitmapSize(entries) / 4 * 32;
    && 0 < heapPages && heapPages + BITMAP_PAGES <= FreeCount(used, limit)
    && FirstFreeConsecutive(used, limit, heapPages)
    && FirstFreeConsecutive(TakeMany(used, limit, heapPages).0, limit, BITMAP_PAGES)
  }

  /** What is left is neither below the address `reserved` nor the heap's nor the bitmap's. */
  ghost predicate LeavesOthers(used: seq<bool>, limit: nat, reserved: nat, a: nat, b: nat)
    requires limit <= |used| && 0 < a && 0 < b && a + b <= FreeCount(used, limit)
  {
    var (after, frames) := TakeMany(used, limit, a);
    && Misses(LeftOver(used, limit, a, b), 0, reserved)
    && Misses(LeftOver(used, limit, a, b), frames[0] * PAGE_SIZE, a * PAGE_SIZE)
    && Misses(LeftOver(used, limit, a, b), TakeMany(after, limit, b).1[0] * PAGE_SIZE, b * PAGE_SIZE)
  }

  lemma LeftOverIsFresh(memory: seq<bool>, entries: seq<Entry820>, flat: seq<u32>, heapPages: nat)
    requires |memory| == PAGE_COUNT && UsableBelowKernel(entries) && UsableIdentity(flat, entries)
    requires EnoughMemory(memory, entries, heapPages)
    ensures var used, limit := InitialUsed(memory, entries), BitmapSize(entries) / 4 * 32;
      && CanTakeBoth(used, limit, flat, heapPages, BITMAP_PAGES)
      && LeavesOthers(used, limit, BITMAP_BASE + BitmapSize(entries), heapPages, BITMAP_PAGES)
  {
    var used, limit := InitialUsed(memory, entries), BitmapSize(entries) / 4 * 32;
    InitialFreeIsMapped(memory, entries, flat);
    InitialFreeIsIdentity(memory, entries, flat);
    TakenTwice(used, limit, flat, heapPages, BITMAP_PAGES);
  }

  method SetUpFrames(mmap: MemoryMap, bitmapMemory: array<bv32>, ghost flat: seq<u32>, ghost heapPages: nat)
    returns (fa: FrameAllocator)
    requires bitmapMemory.Length == BITMAP_WORDS
    requires UsableBelowKernel(mmap.entries) && UsableIdentity(flat, mmap.entries)
    requires EnoughMemory(Bits(bitmapMemory[..]), mmap.entries, heapPages)
    modifies bitmapMemory
    ensures fresh(fa) && fa.Valid() && fa.bitmap == bitmapMemory
    ensures CanTakeBoth(fa.Used(), fa.Limit(), flat, heapPages, BITMAP_PAGES)
    ensures LeavesOthers(fa.Used(), fa.Limit(), BITMAP_BASE + fa.bitmapSize, heapPages, BITMAP_PAGES)
  {
    LeftOverIsFresh(Bits(bitmapMemory[..]), mmap.entries, flat, heapPages);
    fa := new FrameAllocator(mmap, bitmapMemory);
  }

  /** Steps 5 and on of `platform_init`: what it hands over satisfies the invariant of the memory manager, its pool
      holds neither reserved, heap nor bitmap frames, and no write after the switch left the TLB stale. */
  method SetUpMemory(pd: PageDirectory, mmap: MemoryMap, bitmapMemory: array<bv32>, vmmMemory: array<bv32>,
                     heapMemory: map<u32, Heap.BlockHeader>, heapPages: nat)
    returns (fa: FrameAllocator, heap: Heap.Heap, vmm: Vmm.VMM, ghost pool: set<nat>, ghost log: seq<Event>)
    requires pd.Valid() && bitmapMemory.Length == BITMAP_WORDS && vmmMemory.Length == TOTAL_PAGES / 32
    requires bitmapMemory != vmmMemory
    requires UsableBelowKernel(mmap.entries) && RegionAbsent(pd.Flat()) && UsableIdentity(pd.Flat(), mmap.entries)
    requires EnoughMemory(Bits(bitmapMemory[..]), mmap.entries, heapPages)
    modifies bitmapMemory, vmmMemory, pd.tables, pd`log
    ensures heap.Valid() && vmm.Valid() && vmm.fa == fa && vmm.pd == pd && vmm.bitmap == vmmMemory
    ensures Inv(vmm.State(), pool)
    ensures Misses(pool, 0, 0x50_0000 + fa.bitmapSize)
    ensures Misses(pool, heap.head, heap.totalSize) && Misses(pool, vmm.bitmapStart, 4 * vmm.bitmap.Length)
    ensures MapsItself(vmm.pd.Flat(), heap.head, heap.totalSize)
    ensures MapsItself(vmm.pd.Flat(), vmm.bitmapStart, 4 * vmm.bitmap.Length)
    ensures heap.totalSize == heapPages * PAGE_SIZE && heap.blocks == HeapSpec.Initial(heap.totalSize)
    ensures pd.Flat() == old(pd.Flat()) && pd.log == old(pd.log) + log
    ensures SafeLog(pd.Flat(), log, REGION, REGION_END) && Replay(pd.Flat(), log) == pd.Flat()
  {
    fa := SetUpFrames(mmap, bitmapMemory, pd.Flat(), heapPages);
    pool := LeftOver(fa.Used(), fa.Limit(), heapPages, BITMAP_PAGES);
    heap, vmm, log := SetUpHeapAndVmm(fa, pd, vmmMemory, heapMemory, heapPages);
  }

  /** `platform_init` up to its test, for any machine that meets its assumptions: after the CR3 reload only `log` is
      written, and `CoherentFromBoot` starts from what it ensures. */
  method PlatformInit(directory: array<u32>, tables: array<u32>, framebuffer: u32, size: u32, mmap: MemoryMap,
                      bitmapMemory: array<bv32>, vmmMemory: array<bv32>,
                      heapMemory: map<u32, Heap.BlockHeader>, heapPages: nat)
    returns (fa: FrameAllocator, heap: Heap.Heap, vmm: Vmm.VMM, ghost pool: set<nat>,
             ghost before: seq<Event>, ghost log: seq<Event>)
    requires directory.Length == PAGE_TABLE_COUNT && tables.Length == PAGE_COUNT && directory != tables
    requires bitmapMemory.Length == BITMAP_WORDS && vmmMemory.Length == TOTAL_PAGES / 32 && bitmapMemory != vmmMemory
    requires UsableBelowKernel(mmap.entries) && FramebufferFits(framebuffer, size)
    requires EnoughMemory(Bits(bitmapMemory[..]), mmap.entries, heapPages)
    modifies directory, tables, bitmapMemory, vmmMemory
    ensures heap.Valid() && vmm.Valid() && Inv(vmm.State(), pool)
    ensures Misses(pool, 0, 0x50_0000 + fa.bitmapSize)
    ensures Misses(pool, heap.head, heap.totalSize) && Misses(pool, vmm.bitmapStart, 4 * vmm.bitmap.Length)
    ensures MapsItself(vmm.pd.Flat(), heap.head, heap.totalSize)
    ensures MapsItself(vmm.pd.Flat(), vmm.bitmapStart, 4 * vmm.bitmap.Length)
    ensures vmm.pd.log == before + [Flush] + log
    ensures BootTables(vmm.pd.Flat(), mmap.entries, framebuffer, size)
    ensures SafeLog(vmm.pd.Flat(), log, REGION, REGION_END) && Replay(vmm.pd.Flat(), log) == vmm.State().flat
  {
    var pd := SetUpPaging(directory, tables, framebuffer, size, mmap);
    RegionIsAbsent(pd.Flat(), mmap.entries, framebuffer, size);
    before := pd.log[..|pd.log| - 1];
    assert pd.log == before + [Flush];
    fa, heap, vmm, pool, log := SetUpMemory(pd, mmap, bitmapMemory, vmmMemory, heapMemory, heapPages);
  }

  /** So after any run no page of the region lies in memory the pool misses: low memory, page tables, heap, bitmaps. */
  lemma PagesMiss(m: Machine, pool: set<nat>, ops: seq<Op>, page: nat, start: nat, bytes: nat)
    requires Inv(m, pool) && LegalRun(m, ops) && page < TOTAL_PAGES && Misses(pool, start, bytes)
    ensures var r := Run(m, ops);
      var frame := FrameOf(r.flat[REGION + page]);
      r.pages[page] ==> frame * 0x1000 + 0x1000 <= start || start + bytes <= frame * 0x1000
  {
    RunKeepsInv(m, pool, ops);
    InvMeaning(Run(m, ops), pool, page, page);
  }

  /** And after any run the kernel, low memory with the page tables, the framebuffer and usable memory are mapped as
      boot left them. */
  lemma StaysMapped(m: Machine, pool: set<nat>, ops: seq<Op>, entries: seq<Entry820>, framebuffer: u32, size: u32, v: nat)
    requires Inv(m, pool) && LegalRun(m, ops) && BootTables(m.flat, entries, framebuffer, size) && v < PAGE_COUNT
    requires UsableBelowKernel(entries) && FramebufferFits(framebuffer, size)
    ensures var flat := Run(m, ops).flat;
      && (v < 0x500 || Covers(framebuffer, Add32(framebuffer, size), v) || UsablePage(entries, v) ==> flat[v] == Entry(v))
      && (0xC_0000 <= v < 0xC_0400 && !Covers(framebuffer, Add32(framebuffer, size), v) ==>
            flat[v] == Entry(v - 0xC_0000))
      && (!(0xD_0000 <= v < 0xF_0000) ==> flat[v] == m.flat[v])
  {
    RunKeepsInv(m, pool, ops);
    BootEntry(m.flat, entries, framebuffer, size, v);
    var r := Run(m, ops);
    if v < REGION {
      assert r.flat[v] == r.flat[..REGION][v] == m.flat[..REGION][v];
    } else if v >= REGION_END {
      assert r.flat[v] == r.flat[REGION_END..][v - REGION_END] == m.flat[REGION_END..][v - REGION_END];
    }
  }

  /** Whatever the TLB held before: from the CR3 reload on, through the rest of boot and any run of the memory manager,
      the TLB never goes stale, and no frame is released while the region still translates to it. */
  lemma CoherentFromBoot(before: Processor, boot: seq<Event>, m: Machine, pool: set<nat>, ops: seq<Op>, steps: seq<Step>)
    requires SafeLog(before.flat, boot, REGION, REGION_END) && Replay(before.flat, boot) == m.flat
    requires Inv(m, pool) && LegalRun(m, ops) && Software(steps) == boot + RunLog(m, ops)
    ensures var start := Apply(before, Do(Flush));
      && Exec(start, steps).Coherent() && Exec(start, steps).flat == Run(m, ops).flat
      && ReleasesSafely(start, steps, REGION, REGION_END)
  {
    var start := Apply(before, Do(Flush));
    RunLogIsSafe(m, pool, ops);
    SafeThen(before.flat, boot, m.flat, RunLog(m, ops), Run(m, ops).flat, REGION, REGION_END);
    StaleOnlyWhereDirty(start, steps);
    SafeOnHardware(start, steps, REGION, REGION_END);
  }

  lemma SpanOfPages(first: nat, n: nat, start: u32, bytes: u32)
    requires start == first * PAGE_SIZE && bytes == n * PAGE_SIZE && first + n <= RAM_FRAMES
    ensures PageSpan(start, start + bytes) == PageSpan(start, Add32(start, bytes)) == n
  {
  }

  /** Two allocations, of `n` and then `k` pages, returned `p1` and `p2`: the first failed exactly when no `n` free pages
      lie side by side, the second exactly when no `k` do clear of the first. From a region without used pages the
      addresses are the first of it, in order. */
  ghost predicate TwoAddresses(pages: seq<bool>, n: nat, k: nat, p1: u32, p2: u32)
    requires |pages| == TOTAL_PAGES
  {
    && (p1 == 0 <==> NoWindow(pages, n))
    && (p2 == 0 <==> k == 0 || forall s: nat :: FreeWindow(pages, s, k) ==>
          p1 != 0 && s < p1 / 0x1000 - 0xD_0000 + n && p1 / 0x1000 - 0xD_0000 < s + k)
    && ((forall p :: 0 <= p < TOTAL_PAGES ==> !pages[p]) && 0 < n && 0 < k && n + k <= TOTAL_PAGES ==>
          p1 == 0xD000_0000 && p2 == 0xD000_0000 + n * 0x1000)
  }

  lemma TestAddresses(m: Machine, after: Machine, r: Machine, n: nat, k: nat, p1: u32, p2: u32)
    requires Allocated(m, after, n, p1) && Allocated(after, r, k, p2)
    ensures TwoAddresses(m.pages, n, k, p1, p2)
  {
    if k > 0 {
      WindowsAfter(m, after, n, p1, k);
    }
    if (forall p :: 0 <= p < TOTAL_PAGES ==> !m.pages[p]) && 0 < n && 0 < k && n + k <= TOTAL_PAGES {
      FirstAddresses(m, after, r, n, k, p1, p2);
    }
  }

  /** The test at the end of `platform_init`, for any sizes and state: the address freed is the address given again. */
  method ReallocTest(vmm: Vmm.VMM, n: u32, k: u32) returns (p1: u32, p2: u32, p3: u32)
    requires vmm.Valid()
    modifies vmm.bitmap, vmm.fa.bitmap, vmm.pd.tables, vmm.pd`log
    ensures vmm.Valid() && p3 == p1
    ensures TwoAddresses(old(vmm.Pages()), n, k, p1, p2)
  {
    ghost var m := vmm.State();
    p1, p2 := AllocTwice(vmm, n, k);
    if p1 == 0 {
      return p1, p2, 0;
    }
    WindowAddress(m, n, p1);
    ReallocAfterOne(m, n, k);
    p3 := FreeThenAlloc(vmm, p1, n, FirstWindow(m.pages, n).value);
  }

  lemma WindowAddress(m: Machine, n: nat, addr: u32)
    requires m.Sized() && addr == AllocResult(m, n) && addr != 0
    ensures FirstWindow(m.pages, n).Some? && addr == (REGION + FirstWindow(m.pages, n).value) * PAGE_SIZE
    ensures FirstWindow(m.pages, n).value + n <= TOTAL_PAGES
  {
  }

  method FreeThenAlloc(vmm: Vmm.VMM, addr: u32, n: u32, ghost start: nat) returns (again: u32)
    requires vmm.Valid() && addr == (REGION + start) * PAGE_SIZE && start + n <= TOTAL_PAGES
    modifies vmm.bitmap, vmm.fa.bitmap, vmm.pd.tables, vmm.pd`log
    ensures vmm.Valid() && again == AllocResult(Perform(old(vmm.State()), FreePages(start, n)), n)
  {
    vmm.FreePages(addr, n);
    again := vmm.Alloc(n);
  }

  method AllocTwice(vmm: Vmm.VMM, n: u32, k: u32) returns (p1: u32, p2: u32)
    requires vmm.Valid()
    modifies vmm.bitmap, vmm.fa.bitmap, vmm.pd.tables, vmm.pd`log
    ensures vmm.Valid() && TwoAddresses(old(vmm.Pages()), n, k, p1, p2)
    ensures p1 == AllocResult(old(vmm.State()), n)
    ensures vmm.State() == Perform(Perform(old(vmm.State()), AllocPages(n)), AllocPages(k))
  {
    ghost var m := vmm.State();
    p1 := vmm.Alloc(n);
    ghost var after := vmm.State();
    p2 := vmm.Alloc(k);
    TestAddresses(m, after, vmm.State(), n, k, p1, p2);
  }
}
