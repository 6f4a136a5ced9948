/** What the virtual memory manager computes: a bitmap of virtual pages, the page tables and the frame bitmap,
    changed together by `alloc_pages` and `free_pages`. */
module VmmSpec {
  import opened Words
  import opened BitSeqs
  import opened Hardware
  import opened Paging
  import opened FrameAlloc

  const REGION_START := 0xD000_0000
  const REGION := 0xD_0000          // the first page of the managed region
  const TOTAL_PAGES := 0x2_0000

  datatype Option<T> = None | Some(value: T)

  datatype Machine = Machine(pages: seq<bool>, flat: seq<u32>, frames: seq<bool>, limit: nat) {
    ghost predicate Sized() {
      |pages| == TOTAL_PAGES && |flat| == PAGE_COUNT && |frames| == PAGE_COUNT && limit <= PAGE_COUNT
    }

    ghost function FreeFrames(): nat
      requires Sized()
    {
      FreeCount(frames, limit)
    }

    ghost function MappedPages(): nat
      requires Sized()
    {
      TOTAL_PAGES - FreeCount(pages, TOTAL_PAGES)
    }
  }

  /** How many frames the page bitmap itself takes. */
  function BitmapPages(totalPages: nat): nat {
    (totalPages / 8 + PAGE_SIZE - 1) / PAGE_SIZE
  }

  const BITMAP_PAGES := BitmapPages(TOTAL_PAGES)

  /** They hold a bit for every page, and one frame less would not. */
  lemma BitmapFits(totalPages: nat)
    requires totalPages % 8 == 0
    ensures totalPages <= 8 * 0x1000 * BitmapPages(totalPages)
    ensures BitmapPages(totalPages) > 0 ==> totalPages > 8 * 0x1000 * (BitmapPages(totalPages) - 1)
  {
  }

  // ----- searching for free pages

  ghost predicate FreeWindow(pages: seq<bool>, start: nat, n: nat) {
    start + n <= |pages| && forall i :: start <= i < start + n ==> !pages[i]
  }

  /** The lowest window of `n >= 1` free pages that starts at `from` or later. */
  ghost function FirstWindow(pages: seq<bool>, n: nat, from: nat := 0): (r: Option<nat>)
    ensures r.Some? ==> n > 0 && from <= r.value && FreeWindow(pages, r.value, n)
    ensures r.Some? ==> forall s :: from <= s < r.value ==> !FreeWindow(pages, s, n)
    ensures r.None? ==> n == 0 || forall s :: from <= s ==> !FreeWindow(pages, s, n)
    decreases |pages| - from
  {
    if n == 0 || from + n > |pages| then None
    else if FreeWindow(pages, from, n) then Some(from)
    else FirstWindow(pages, n, from + 1)
  }

  lemma FirstWindowIs(pages: seq<bool>, n: nat, start: nat)
    requires n > 0 && FreeWindow(pages, start, n)
    requires forall s :: 0 <= s < start ==> !FreeWindow(pages, s, n)
    ensures FirstWindow(pages, n) == Some(start)
  {
  }

  // ----- allocating and freeing, a page at a time

  /** Backs page `page` of the region with the next free frame; with none left the source maps frame 0. */
  ghost function MapPage(m: Machine, page: nat): (r: Machine)
    requires m.Sized() && page < TOTAL_PAGES
    ensures r.Sized() && r.limit == m.limit
  {
    var (frames, frame) := Take(m.frames, m.limit);
    Machine(m.pages[page := true], m.flat[REGION + page := Entry(frame)], frames, m.limit)
  }

  ghost function MapPages(m: Machine, start: nat, n: nat): (r: Machine)
    requires m.Sized() && start + n <= TOTAL_PAGES
    ensures r.Sized() && r.limit == m.limit
  {
    if n == 0 then m else MapPage(MapPages(m, start, n - 1), start + n - 1)
  }

  ghost function MapStep(m: Machine, page: nat): seq<Event>
    requires m.Sized() && page < TOTAL_PAGES
  {
    [Write(REGION + page, MapPage(m, page).flat[REGION + page])]
  }

  ghost function MapLog(m: Machine, start: nat, n: nat): seq<Event>
    requires m.Sized() && start + n <= TOTAL_PAGES
  {
    if n == 0 then [] else MapLog(m, start, n - 1) + MapStep(MapPages(m, start, n - 1), start + n - 1)
  }

  /** Unmaps page `page` of the region and releases the frame its page-table entry names. */
  ghost function UnmapPage(m: Machine, page: nat): (r: Machine)
    requires m.Sized() && page < TOTAL_PAGES
    ensures r.Sized() && r.limit == m.limit
  {
    Machine(m.pages[page := false], m.flat[REGION + page := 0],
            m.frames[FrameOf(m.flat[REGION + page]) := false], m.limit)
  }

  ghost function UnmapPages(m: Machine, start: nat, n: nat): (r: Machine)
    requires m.Sized() && start + n <= TOTAL_PAGES
    ensures r.Sized() && r.limit == m.limit
  {
    if n == 0 then m else UnmapPage(UnmapPages(m, start, n - 1), start + n - 1)
  }

  /** A page is unmapped and the TLB flushed before its frame is released. */
  ghost function UnmapStep(m: Machine, page: nat): seq<Event>
    requires m.Sized() && page < TOTAL_PAGES
  {
    [Write(REGION + page, 0), Flush, Release(FrameOf(m.flat[REGION + page]))]
  }

  ghost function UnmapLog(m: Machine, start: nat, n: nat): seq<Event>
    requires m.Sized() && start + n <= TOTAL_PAGES
  {
    if n == 0 then []
    else UnmapLog(m, start, n - 1) + UnmapStep(UnmapPages(m, start, n - 1), start + n - 1)
  }

  // ----- the two operations

  datatype Request = AllocPages(n: nat) | FreePages(start: nat, n: nat)

  /** A free names pages of the region. */
  type Op = r: Request | r.FreePages? ==> r.start + r.n <= TOTAL_PAGES witness AllocPages(0)

  /** `alloc_pages` returns an address, 0 standing for the null pointer. */
  ghost function AllocResult(m: Machine, n: nat): u32
    requires m.Sized()
  {
    match FirstWindow(m.pages, n)
    case None => 0
    case Some(start) => (REGION + start) * PAGE_SIZE
  }

  ghost function Perform(m: Machine, op: Op): (r: Machine)
    requires m.Sized()
    ensures r.Sized() && r.limit == m.limit
  {
    match op
    case AllocPages(n) =>
      (match FirstWindow(m.pages, n) case None => m case Some(start) => MapPages(m, start, n))
    case FreePages(start, n) => UnmapPages(m, start, n)
  }

  ghost function LogOf(m: Machine, op: Op): seq<Event>
    requires m.Sized()
  {
    match op
    case AllocPages(n) =>
      (match FirstWindow(m.pages, n) case None => [] case Some(start) => MapLog(m, start, n))
    case FreePages(start, n) => UnmapLog(m, start, n)
  }
}
