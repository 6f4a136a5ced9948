/** The two-level page tables of `PageDirectory` (section 4.3 of the Intel SDM, Volume 3A). */
module Paging {
  import opened Words
  import opened Hardware

  /** Entries that map consecutive pages to consecutive frames from `frame` on. */
  function Mapping(frame: nat, count: nat): (values: seq<u32>)
    ensures |values| == count
    ensures forall i :: 0 <= i < count ==> values[i] == Entry((frame + i) % PAGE_COUNT)
  {
    seq<u32>(count, i requires 0 <= i < count => Entry((frame + i) % PAGE_COUNT))
  }

  function Absent(count: nat): (values: seq<u32>)
    ensures |values| == count && forall i :: 0 <= i < count ==> values[i] == 0
  {
    seq(count, _ => 0)
  }

  /** Where `map_range` stops: the start rounded down plus the size rounded up, each on its own. */
  function RangeEnd(virt: u32, size: u32): u32 {
    Add32(AlignDown(virt), AlignUp(size))
  }

  lemma EndIsAligned(virt: u32, size: u32)
    ensures AlignUp(RangeEnd(virt, size)) == RangeEnd(virt, size)
  {
  }

  class PageDirectory {
    var entries: array<u32>
    var tables: array<u32>     // the words of physical memory from PAGE_TABLES_BASE on
    ghost var log: seq<Event>

    ghost predicate Valid()
      reads this, entries, tables
    {
      && entries.Length == PAGE_TABLE_COUNT && tables.Length == PAGE_COUNT && entries != tables
      && forall i :: 0 <= i < PAGE_TABLE_COUNT ==> entries[i] == Entry(PAGE_TABLES_BASE / PAGE_SIZE + i)
    }

    /** The two levels as a flat map from page number to page-table entry. */
    ghost function Flat(): (flat: seq<u32>)
      requires Valid()
      reads this, entries, tables
      ensures |flat| == PAGE_COUNT
    {
      tables[..]
    }

    /** Where the entry for `addr` lies in the page-table memory, found through the directory. */
    function EntryIndex(addr: u32): (index: nat)
      requires Valid()
      reads this, entries, tables
      ensures index == addr / PAGE_SIZE
    {
      var pageTable := AlignDown(entries[addr / 0x40_0000]);
      (pageTable - PAGE_TABLES_BASE) / 4 + addr / PAGE_SIZE % 0x400
    }

    constructor (directory: array<u32>, memory: array<u32>)
      requires directory.Length == PAGE_TABLE_COUNT && memory.Length == PAGE_COUNT && directory != memory
      modifies directory, memory
      ensures entries == directory && tables == memory
      ensures Valid() && log == [] && Flat() == Absent(PAGE_COUNT)
    {
      entries := directory;
      tables := memory;
      log := [];
      new;
      ZeroMemory(entries);
      ZeroMemory(tables);
      for i := 0 to PAGE_TABLE_COUNT
        invariant entries == directory && tables == memory && log == []
        invariant forall k :: 0 <= k < i ==> entries[k] == Entry(PAGE_TABLES_BASE / PAGE_SIZE + k)
        invariant forall k :: 0 <= k < PAGE_COUNT ==> tables[k] == 0
      {
        entries[i] := Entry(PAGE_TABLES_BASE / PAGE_SIZE + i);
      }
    }

    method SetEntry(addr: u32, entry: u32, ghost page: nat)
      requires Valid() && addr == page * PAGE_SIZE
      modifies tables, `log
      ensures Valid() && log == old(log) + [Write(page, entry)]
      ensures Flat() == old(Flat())[page := entry]
    {
      tables[EntryIndex(addr)] := entry;
      log := log + [Write(page, entry)];
    }

    method ReloadCr3()
      requires Valid()
      modifies `log
      ensures Valid() && log == old(log) + [Flush] && Flat() == old(Flat())
    {
      log := log + [Flush];
    }

    /** Records that the memory manager hands a frame back at this point. */
    ghost method NoteRelease(frame: nat)
      requires Valid()
      modifies `log
      ensures Valid() && log == old(log) + [Release(frame)] && Flat() == old(Flat())
    {
      log := log + [Release(frame)];
    }

    method IdentityMapRange(start: u32, end: u32)
      requires Valid()
      modifies tables, `log
      ensures Valid()
      ensures var values := Mapping(PageOf(start), PageSpan(start, end));
        && log == old(log) + Writes(PageOf(start), values)
        && Flat() == Splice(old(Flat()), PageOf(start), values)
    {
      var lo, hi := AlignDown(start), AlignUp(end);
      ghost var first := PageOf(start);
      var addr := lo;
      ghost var n := 0;
      while addr < hi && addr >= lo
        invariant Valid() && addr == (first + n) * PAGE_SIZE
        invariant 0 <= n <= PageSpan(start, end)
        invariant log == old(log) + Writes(first, Mapping(first, n))
        invariant Flat() == Splice(old(Flat()), first, Mapping(first, n))
        decreases PageSpan(start, end) - n
      {
        NextInSpan(start, end, addr, n);
        SetEntry(addr, Entry(PageOf(addr)), first + n);
        GrowMapping(old(log), old(Flat()), first, first, n);
        addr := Add32(addr, PAGE_SIZE);
        n := n + 1;
      }
    }

    method MapRange(virt: u32, phys: u32, size: u32)
      requires Valid()
      modifies tables, `log
      ensures Valid()
      ensures var values := Mapping(PageOf(phys), PageSpan(virt, RangeEnd(virt, size)));
        && log == old(log) + Writes(PageOf(virt), values)
        && Flat() == Splice(old(Flat()), PageOf(virt), values)
    {
      var virtStart, physStart := AlignDown(virt), AlignDown(phys);
      var virtEnd := RangeEnd(virt, size);
      EndIsAligned(virt, size);
      ghost var first, frame := PageOf(virt), PageOf(phys);
      ghost var n := 0;
      while virtStart < virtEnd
        invariant Valid() && virtStart == (first + n) * PAGE_SIZE
        invariant 0 <= n <= PageSpan(virt, virtEnd)
        invariant physStart == (frame + n) % PAGE_COUNT * PAGE_SIZE
        invariant log == old(log) + Writes(first, Mapping(frame, n))
        invariant Flat() == Splice(old(Flat()), first, Mapping(frame, n))
        decreases PageSpan(virt, virtEnd) - n
      {
        NextFrame(physStart, frame + n);
        SetEntry(virtStart, Entry(PageOf(physStart)), first + n);
        GrowMapping(old(log), old(Flat()), first, frame, n);
        NextPage(virtStart, virtEnd, first + n);
        physStart := Add32(physStart, PAGE_SIZE);
        virtStart := Add32(virtStart, PAGE_SIZE);
        n := n + 1;
      }
    }

    method UnmapRange(virt: u32, size: u32)
      requires Valid()
      modifies tables, `log
      ensures Valid()
      ensures var values := Absent(PageSpan(virt, RangeEnd(virt, size)));
        && log == old(log) + Writes(PageOf(virt), values) + [Flush]
        && Flat() == Splice(old(Flat()), PageOf(virt), values)
    {
      var virtStart := AlignDown(virt);
      var virtEnd := RangeEnd(virt, size);
      EndIsAligned(virt, size);
      ghost var first := PageOf(virt);
      ghost var n := 0;
      while virtStart < virtEnd
        invariant Valid() && virtStart == (first + n) * PAGE_SIZE
        invariant 0 <= n <= PageSpan(virt, virtEnd)
        invariant log == old(log) + Writes(first, Absent(n))
        invariant Flat() == Splice(old(Flat()), first, Absent(n))
        decreases PageSpan(virt, virtEnd) - n
      {
        SetEntry(virtStart, 0, first + n);
        GrowAbsent(old(log), old(Flat()), first, n);
        virtStart := Add32(virtStart, PAGE_SIZE);
        n := n + 1;
      }
      ReloadCr3();
    }

    /** `map_range` and `unmap_range` as the memory manager calls them, for a single page. */
    method MapOnePage(virt: u32, phys: u32, ghost page: nat)
      requires Valid() && virt == page * PAGE_SIZE < 0xFFFF_F000
      modifies tables, `log
      ensures Valid() && Flat() == old(Flat())[page := Entry(PageOf(phys))]
      ensures log == old(log) + [Write(page, Entry(PageOf(phys)))]
    {
      OnePage(Flat(), virt, PageOf(phys));
      MapRange(virt, phys, PAGE_SIZE);
    }

    method UnmapOnePage(virt: u32, ghost page: nat)
      requires Valid() && virt == page * PAGE_SIZE < 0xFFFF_F000
      modifies tables, `log
      ensures Valid() && Flat() == old(Flat())[page := 0]
      ensures log == old(log) + [Write(page, 0), Flush]
    {
      OnePage(Flat(), virt, 0);
      UnmapRange(virt, PAGE_SIZE);
    }
  }

  method ZeroMemory(memory: array<u32>)
    modifies memory
    ensures forall k :: 0 <= k < memory.Length ==> memory[k] == 0
  {
    for i := 0 to memory.Length
      invariant forall k :: 0 <= k < i ==> memory[k] == 0
    {
      memory[i] := 0;
    }
  }

  lemma NextPage(addr: u32, end: u32, page: nat)
    requires addr == page * PAGE_SIZE && addr < AlignUp(end)
    ensures Add32(addr, PAGE_SIZE) == (page + 1) * PAGE_SIZE && PageOf(addr) == page && page < PageOf(AlignUp(end))
  {
  }

  lemma NextInSpan(start: u32, end: u32, addr: u32, n: nat)
    requires addr == (PageOf(start) + n) * PAGE_SIZE && addr < AlignUp(end) && n <= PageSpan(start, end)
    ensures n < PageSpan(start, end) && PageOf(addr) == PageOf(start) + n == (PageOf(start) + n) % PAGE_COUNT
    ensures Add32(addr, PAGE_SIZE) == (PageOf(start) + n + 1) * PAGE_SIZE
  {
  }

  lemma NextFrame(phys: u32, frame: nat)
    requires phys == frame % PAGE_COUNT * PAGE_SIZE
    ensures PageOf(phys) == frame % PAGE_COUNT && Add32(phys, PAGE_SIZE) == (frame + 1) % PAGE_COUNT * PAGE_SIZE
  {
  }

  lemma GrowMapping(log: seq<Event>, flat: seq<u32>, first: nat, frame: nat, n: nat)
    requires first + n < |flat|
    ensures var entry := Entry((frame + n) % PAGE_COUNT);
      && log + Writes(first, Mapping(frame, n + 1)) == log + Writes(first, Mapping(frame, n)) + [Write(first + n, entry)]
      && Splice(flat, first, Mapping(frame, n + 1)) == Splice(flat, first, Mapping(frame, n))[first + n := entry]
  {
    assert Writes(first, Mapping(frame, n + 1)) ==
           Writes(first, Mapping(frame, n)) + [Write(first + n, Entry((frame + n) % PAGE_COUNT))];
  }

  lemma GrowAbsent(log: seq<Event>, flat: seq<u32>, first: nat, n: nat)
    requires first + n < |flat|
    ensures log + Writes(first, Absent(n + 1)) == log + Writes(first, Absent(n)) + [Write(first + n, 0)]
    ensures Splice(flat, first, Absent(n + 1)) == Splice(flat, first, Absent(n))[first + n := 0]
  {
    assert Writes(first, Absent(n + 1)) == Writes(first, Absent(n)) + [Write(first + n, 0)];
  }

  // ----- what the ranges mean

  /** The page tables with every page of a range mapped to the frame of the same number. */
  ghost predicate IdentityMapped(before: seq<u32>, after: seq<u32>, start: u32, end: u32) {
    && |before| == |after| == PAGE_COUNT
    && forall page :: 0 <= page < PAGE_COUNT ==>
         after[page] == if Covers(start, end, page) then Entry(page) else before[page]
  }

  lemma SplicedIdentity(flat: seq<u32>, start: u32, end: u32)
    requires |flat| == PAGE_COUNT
    ensures IdentityMapped(flat, Splice(flat, PageOf(start), Mapping(PageOf(start), PageSpan(start, end))), start, end)
  {
  }

  /** Every page that holds one of the bytes is mapped to the frame of the same number. */
  ghost predicate MapsItself(flat: seq<u32>, start: nat, bytes: nat) {
    && |flat| == PAGE_COUNT
    && forall page :: 0 <= page < PAGE_COUNT && start < page * 0x1000 + 0x1000 && page * 0x1000 < start + bytes ==>
         flat[page] == Entry(page)
  }

  lemma SplicedBytes(flat: seq<u32>, first: nat, start: u32, bytes: u32)
    requires |flat| == PAGE_COUNT && start == first * PAGE_SIZE
    ensures var span := PageSpan(start, Add32(start, bytes));
      start + bytes <= 0xFFFF_F000 ==> MapsItself(Splice(flat, first, Mapping(first, span)), start, bytes)
  {
    SplicedIdentity(flat, start, Add32(start, bytes));
  }

  /** Two addresses share a page-table entry exactly when they lie on the same page. */
  lemma EntriesAreDistinct(pd: PageDirectory, a: u32, b: u32)
    requires pd.Valid()
    ensures pd.EntryIndex(a) == pd.EntryIndex(b) <==> PageOf(a) == PageOf(b)
  {
  }

  /** The pages walked are those that meet `size` bytes from the start of the first page on. */
  lemma MapsFromPageStart(virt: u32, size: u32)
    requires AlignDown(virt) + size <= 0xFFFF_F000
    ensures forall page: nat :: Covers(virt, RangeEnd(virt, size), page) <==>
      AlignDown(virt) <= page * PAGE_SIZE < AlignDown(virt) + size
  {
  }

  /** The page holds a byte of the `size` bytes from `virt` on. */
  predicate Touches(virt: u32, size: u32, page: nat) {
    size > 0 && virt - PAGE_SIZE < page * PAGE_SIZE < virt + size
  }

  ghost predicate MapsWhole(virt: u32, size: u32) {
    forall page: nat :: Touches(virt, size, page) ==> Covers(virt, RangeEnd(virt, size), page)
  }

  /** Start and size are rounded separately: a range is mapped whole exactly when it stays clear of the last page and
      its offset in the first page does not carry it over one more page boundary. */
  lemma MapsWholeRange(virt: u32, size: u32)
    ensures MapsWhole(virt, size) <==>
      size == 0 || (AlignDown(virt) + size <= 0xFFFF_F000 && virt % PAGE_SIZE + size <= AlignUp(size))
  {
    if size > 0 {
      WalkedPages(virt, size);
      assert Touches(virt, size, (virt + size - 1) / PAGE_SIZE);
    }
  }

  lemma WalkedPages(virt: u32, size: u32)
    requires 0 < size
    ensures AlignDown(virt) + size <= 0xFFFF_F000 ==>
      PageOf(virt) + PageSpan(virt, RangeEnd(virt, size)) == (AlignDown(virt) + AlignUp(size)) / PAGE_SIZE
    ensures AlignDown(virt) + size > 0xFFFF_F000 ==> PageSpan(virt, RangeEnd(virt, size)) == 0
  {
  }

  /** An input that is not: 0x1000 bytes from 0x1800 on lie in two pages, and only the first is mapped. */
  lemma SecondPageUnmapped()
    ensures Touches(0x1800, 0x1000, 2) && !Covers(0x1800, RangeEnd(0x1800, 0x1000), 2)
    ensures !MapsWhole(0x1800, 0x1000)
  {
    assert Touches(0x1800, 0x1000, 2);
  }

  /** Mapping absent pages and unmapping the same range leaves the page tables as they were. */
  lemma MapThenUnmap(flat: seq<u32>, first: nat, values: seq<u32>)
    requires first + |values| <= |flat|
    requires forall v :: first <= v < first + |values| ==> flat[v] == 0
    ensures Splice(Splice(flat, first, values), first, Absent(|values|)) == flat
  {
  }

  lemma OnePage(flat: seq<u32>, virt: u32, frame: nat)
    requires |flat| == PAGE_COUNT && virt % PAGE_SIZE == 0 && virt < 0xFFFF_F000 && frame < PAGE_COUNT
    ensures PageSpan(virt, RangeEnd(virt, PAGE_SIZE)) == 1
    ensures Mapping(frame, 1) == [Entry(frame)] && Absent(1) == [0]
    ensures Splice(flat, PageOf(virt), [Entry(frame)]) == flat[PageOf(virt) := Entry(frame)]
    ensures Splice(flat, PageOf(virt), [0]) == flat[PageOf(virt) := 0]
    ensures Writes(PageOf(virt), [Entry(frame)]) == [Write(PageOf(virt), Entry(frame))]
    ensures Writes(PageOf(virt), [0]) == [Write(PageOf(virt), 0)]
  {
  }
}
