/** The virtual memory manager object: a word-packed page bitmap beside the frame allocator and page tables. */
module Vmm {
  import opened Words
  import opened BitWords
  import opened BitSeqs
  import opened Hardware
  import opened Paging
  import opened FrameAlloc
  import opened VmmSpec
  import opened VmmFacts
  import opened VmmMeaning

  const NONE: u32 := 0xFFFF_FFFF

  class VMM {
    var bitmap: array<bv32>
    var bitmapStart: u32       // the address `bitmap` lies at
    var regionStart: u32
    var totalPages: u32
    var fa: FrameAllocator
    var pd: PageDirectory

    ghost predicate Valid()
      reads this, fa, pd, pd.entries, pd.tables
    {
      && fa.Valid() && pd.Valid()
      && bitmap.Length == TOTAL_PAGES / 32 && bitmap != fa.bitmap
      && regionStart == REGION_START && totalPages == TOTAL_PAGES
    }

    ghost function Pages(): (pages: seq<bool>)
      requires bitmap.Length == TOTAL_PAGES / 32
      reads this, bitmap
      ensures |pages| == TOTAL_PAGES
    {
      Bits(bitmap[..])
    }

    predicate PageUsed(i: nat)
      requires bitmap.Length == TOTAL_PAGES / 32 && i < TOTAL_PAGES
      reads this, bitmap
      ensures PageUsed(i) == Pages()[i]
    {
      BitAt(bitmap[..], i);
      BitSet(bitmap[i / 32], i % 32)
    }

    ghost function State(): (m: Machine)
      requires Valid()
      reads this, fa, pd, bitmap, fa.bitmap, pd.entries, pd.tables
      ensures m.Sized()
    {
      Machine(Pages(), pd.Flat(), fa.Used(), fa.Limit())
    }

    /** `memory` is what lies at the address of the first frame taken. */
    constructor (allocator: FrameAllocator, directory: PageDirectory, memory: array<bv32>)
      requires allocator.Valid() && directory.Valid()
      requires memory.Length == TOTAL_PAGES / 32 && memory != allocator.bitmap
      modifies memory, allocator.bitmap, directory.tables, directory`log
      ensures Valid() && fa == allocator && pd == directory && bitmap == memory
      ensures var count := BitmapPages(totalPages);
        var (used, taken) := TakeMany(old(allocator.Used()), allocator.Limit(), count);
        var start := taken[0] * PAGE_SIZE;
        var span := PageSpan(start, Add32(start, count * PAGE_SIZE));
        && fa.Used() == used && bitmapStart == start
        && pd.Flat() == Splice(old(directory.Flat()), taken[0], Mapping(taken[0], span))
        && pd.log == old(directory.log) + Writes(taken[0], Mapping(taken[0], span))
      ensures forall p :: 0 <= p < TOTAL_PAGES ==> !Pages()[p]
      ensures 32 * bitmap.Length == totalPages && 4 * bitmap.Length <= BitmapPages(totalPages) * 0x1000
      ensures MapsFrames(bitmapStart, BitmapPages(totalPages) * 0x1000)
    {
      BitmapFits(TOTAL_PAGES);
      fa := allocator;
      pd := directory;
      regionStart := REGION_START;
      totalPages := TOTAL_PAGES;
      bitmap := memory;
      new;
      PlaceBitmap(BitmapPages(totalPages));
    }

    method PlaceBitmap(count: nat)
      requires Valid() && 4 * bitmap.Length <= count * PAGE_SIZE <= 0xFFFF_FFFF
      modifies `bitmapStart, bitmap, fa.bitmap, pd.tables, pd`log
      ensures Valid()
      ensures var (used, taken) := TakeMany(old(fa.Used()), fa.Limit(), count);
        var span := PageSpan(bitmapStart, Add32(bitmapStart, count * PAGE_SIZE));
        && fa.Used() == used && bitmapStart == taken[0] * PAGE_SIZE
        && pd.Flat() == Splice(old(pd.Flat()), taken[0], Mapping(taken[0], span))
        && pd.log == old(pd.log) + Writes(taken[0], Mapping(taken[0], span))
      ensures forall p :: 0 <= p < TOTAL_PAGES ==> !Pages()[p]
      ensures MapsFrames(bitmapStart, count * PAGE_SIZE)
    {
      bitmapStart := TakeBitmapFrames(count);
      ZeroBitmap();
    }

    method TakeBitmapFrames(count: nat) returns (start: u32)
      requires Valid() && 0 < count && count * PAGE_SIZE <= 0xFFFF_FFFF
      modifies fa.bitmap, pd.tables, pd`log
      ensures Valid()
      ensures var (used, taken) := TakeMany(old(fa.Used()), fa.Limit(), count);
        var span := PageSpan(start, Add32(start, count * PAGE_SIZE));
        && fa.Used() == used && start == taken[0] * PAGE_SIZE
        && pd.Flat() == Splice(old(pd.Flat()), taken[0], Mapping(taken[0], span))
        && pd.log == old(pd.log) + Writes(taken[0], Mapping(taken[0], span))
      ensures MapsFrames(start, count * PAGE_SIZE)
    {
      var last;
      ghost var first := TakeMany(fa.Used(), fa.Limit(), count).1[0];
      start, last := fa.AllocFrames(count);
      MapFrames(start, count * PAGE_SIZE, first);
    }

    ghost predicate MapsFrames(start: u32, bytes: u32)
      requires Valid()
      reads this, fa, pd, pd.entries, pd.tables
    {
      start + bytes <= 0xFFFF_F000 ==> MapsItself(pd.Flat(), start, bytes)
    }

    method MapFrames(start: u32, bytes: u32, ghost first: nat)
      requires Valid() && start == first * PAGE_SIZE
      modifies pd.tables, pd`log
      ensures Valid() && MapsFrames(start, bytes)
      ensures var span := PageSpan(start, Add32(start, bytes));
        && pd.Flat() == Splice(old(pd.Flat()), first, Mapping(first, span))
        && pd.log == old(pd.log) + Writes(first, Mapping(first, span))
    {
      PageStart(start, first);
      SplicedBytes(pd.Flat(), first, start, bytes);
      pd.IdentityMapRange(start, Add32(start, bytes));
    }

    method ZeroBitmap()
      requires Valid()
      modifies bitmap
      ensures Valid() && forall p :: 0 <= p < TOTAL_PAGES ==> !Pages()[p]
    {
      FillBytes(bitmap, totalPages / 8, false);
    }

    method FindFreeRange(numPages: u32) returns (start: u32)
      requires Valid()
      ensures start == match FirstWindow(Pages(), numPages) case None => NONE case Some(s) => s
    {
      var count, startIndex := 0, 0;
      ghost var pages := Pages();
      for i := 0 to totalPages
        invariant Scanned(pages, numPages, i, count) && (count > 0 ==> startIndex == i - count)
      {
        ScanStep(pages, numPages, i, count);
        var used := PageUsed(i);
        if !used {
          if count == 0 {
            startIndex := i;
          }
          count := count + 1;
          if count == numPages {
            return startIndex;
          }
        } else {
          count := 0;
        }
      }
      return NONE;
    }

    method MarkRange(pageIndex: u32, count: u32, used: bool)
      requires Valid() && pageIndex + count <= TOTAL_PAGES
      modifies bitmap
      ensures Valid() && Pages() == SetRange(old(Pages()), pageIndex, count, used)
    {
      for i := pageIndex to pageIndex + count
        invariant Pages() == SetRange(old(Pages()), pageIndex, i - pageIndex, used)
      {
        ghost var words := bitmap[..];
        if used {
          BitsSet(words, i);
          bitmap[i / 32] := SetBit(bitmap[i / 32], i % 32);
          assert bitmap[..] == words[i / 32 := SetBit(words[i / 32], i % 32)];
        } else {
          BitsClear(words, i);
          bitmap[i / 32] := ClearBit(bitmap[i / 32], i % 32);
          assert bitmap[..] == words[i / 32 := ClearBit(words[i / 32], i % 32)];
        }
      }
    }

    /** The body of the loop of `alloc_pages`: `m` is the machine whose page tables and frames are reached. */
    method BackPage(virtAddr: u32, ghost m: Machine, ghost page: nat)
      requires Valid() && m.Sized() && page < TOTAL_PAGES && virtAddr == (REGION + page) * PAGE_SIZE
      requires fa.Used() == m.frames && fa.Limit() == m.limit && pd.Flat() == m.flat
      modifies fa.bitmap, pd.tables, pd`log
      ensures Valid() && fa.Used() == MapPage(m, page).frames && pd.Flat() == MapPage(m, page).flat
      ensures pd.log == old(pd.log) + MapStep(m, page)
    {
      var frame := fa.AllocFrame();
      pd.MapOnePage(virtAddr, frame, REGION + page);
    }

    method BackPages(virtAddr: u32, n: nat, ghost m: Machine, ghost start: nat)
      requires Valid() && m.Sized() && start + n <= TOTAL_PAGES && virtAddr == (REGION + start) * PAGE_SIZE
      requires fa.Used() == m.frames && fa.Limit() == m.limit && pd.Flat() == m.flat
      modifies fa.bitmap, pd.tables, pd`log
      ensures Valid() && fa.Used() == MapPages(m, start, n).frames && pd.Flat() == MapPages(m, start, n).flat
      ensures pd.log == old(pd.log) + MapLog(m, start, n)
    {
      for i := 0 to n
        invariant Valid() && fa.Used() == MapPages(m, start, i).frames && pd.Flat() == MapPages(m, start, i).flat
        invariant pd.log == old(pd.log) + MapLog(m, start, i)
      {
        BackPage(virtAddr + i * PAGE_SIZE, MapPages(m, start, i), start + i);
        NextMapped(old(pd.log), m, start, i);
      }
    }

    method Alloc(numPages: u32) returns (addr: u32)
      requires Valid()
      modifies bitmap, fa.bitmap, pd.tables, pd`log
      ensures Valid()
      ensures State() == Perform(old(State()), AllocPages(numPages))
      ensures addr == AllocResult(old(State()), numPages)
      ensures Allocated(old(State()), State(), numPages, addr)
      ensures pd.log == old(pd.log) + LogOf(old(State()), AllocPages(numPages))
    {
      ghost var m := State();
      AllocMeaning(m, numPages);
      var start := FindFreeRange(numPages);
      if start == NONE {
        return 0;
      }
      var virtAddr := regionStart + start * PAGE_SIZE;
      BackPages(virtAddr, numPages, m, start);
      MapPagesShape(m, start, numPages);
      MarkRange(start, numPages, true);
      return virtAddr;
    }

    /** The body of the loop of `free_pages`. */
    method UnbackPage(virtAddr: u32, ghost m: Machine, ghost page: nat)
      requires Valid() && m.Sized() && page < TOTAL_PAGES && virtAddr == (REGION + page) * PAGE_SIZE
      requires fa.Used() == m.frames && fa.Limit() == m.limit && pd.Flat() == m.flat
      modifies fa.bitmap, pd.tables, pd`log
      ensures Valid() && fa.Used() == UnmapPage(m, page).frames && pd.Flat() == UnmapPage(m, page).flat
      ensures pd.log == old(pd.log) + UnmapStep(m, page)
    {
      var physAddr := AlignDown(pd.tables[pd.EntryIndex(virtAddr)]);
      pd.UnmapOnePage(virtAddr, REGION + page);
      fa.FreeFrame(physAddr);
      pd.NoteRelease(PageOf(physAddr));
    }

    method UnbackPages(virtAddr: u32, n: nat, ghost m: Machine, ghost start: nat)
      requires Valid() && m.Sized() && start + n <= TOTAL_PAGES && virtAddr == (REGION + start) * PAGE_SIZE
      requires fa.Used() == m.frames && fa.Limit() == m.limit && pd.Flat() == m.flat
      modifies fa.bitmap, pd.tables, pd`log
      ensures Valid() && fa.Used() == UnmapPages(m, start, n).frames && pd.Flat() == UnmapPages(m, start, n).flat
      ensures pd.log == old(pd.log) + UnmapLog(m, start, n)
    {
      for i := 0 to n
        invariant Valid() && fa.Used() == UnmapPages(m, start, i).frames && pd.Flat() == UnmapPages(m, start, i).flat
        invariant pd.log == old(pd.log) + UnmapLog(m, start, i)
      {
        UnbackPage(virtAddr + i * PAGE_SIZE, UnmapPages(m, start, i), start + i);
        NextUnmapped(old(pd.log), m, start, i);
      }
    }

    method FreePages(addr: u32, numPages: u32)
      requires Valid()
      requires addr % PAGE_SIZE == 0 && REGION_START <= addr
      requires addr + numPages * PAGE_SIZE <= REGION_START + TOTAL_PAGES * PAGE_SIZE
      modifies bitmap, fa.bitmap, pd.tables, pd`log
      ensures Valid()
      ensures var op := Request.FreePages(PageOf(addr) - REGION, numPages);
        State() == Perform(old(State()), op) && pd.log == old(pd.log) + LogOf(old(State()), op)
      ensures Freed(old(State()), State(), addr / 0x1000 - 0xD_0000, numPages)
    {
      ghost var m := State();
      var pageIdx := (addr - regionStart) / PAGE_SIZE;
      FreeMeaning(m, pageIdx, numPages);
      UnbackPages(addr, numPages, m, pageIdx);
      UnmapPagesShape(m, pageIdx, numPages);
      MarkRange(pageIdx, numPages, false);
    }
  }

  lemma NextMapped(log: seq<Event>, m: Machine, start: nat, i: nat)
    requires m.Sized() && start + i < TOTAL_PAGES
    ensures MapPages(m, start, i + 1) == MapPage(MapPages(m, start, i), start + i)
    ensures log + MapLog(m, start, i + 1) == log + MapLog(m, start, i) + MapStep(MapPages(m, start, i), start + i)
  {
  }

  lemma NextUnmapped(log: seq<Event>, m: Machine, start: nat, i: nat)
    requires m.Sized() && start + i < TOTAL_PAGES
    ensures UnmapPages(m, start, i + 1) == UnmapPage(UnmapPages(m, start, i), start + i)
    ensures log + UnmapLog(m, start, i + 1) == log + UnmapLog(m, start, i) + UnmapStep(UnmapPages(m, start, i), start + i)
  {
  }

  /** The scan has seen `i` pages, the last `count` of them free, and no window of `n` free ones. */
  ghost predicate Scanned(pages: seq<bool>, n: nat, i: nat, count: nat) {
    && count <= i <= |pages|
    && (forall k :: i - count <= k < i ==> !pages[k])
    && (i > count ==> pages[i - count - 1])
    && (n > 0 ==> count < n && forall s :: 0 <= s && s + n <= i ==> !FreeWindow(pages, s, n))
  }

  lemma ScanStep(pages: seq<bool>, n: nat, i: nat, count: nat)
    requires Scanned(pages, n, i, count) && i < |pages|
    ensures pages[i] ==> Scanned(pages, n, i + 1, 0)
    ensures !pages[i] && count + 1 != n ==> Scanned(pages, n, i + 1, count + 1)
    ensures !pages[i] && count + 1 == n ==> FirstWindow(pages, n) == Some(i - count)
  {
    var runEnd := if pages[i] then i else i - count - 1;
    if 0 < n <= i + 1 && i + 1 - n <= runEnd {
      assert !FreeWindow(pages, i + 1 - n, n);
    }
    if !pages[i] && count + 1 == n {
      FirstWindowIs(pages, n, i - count);
    }
  }
}
