/** The agreement of page bitmap, page tables and frame bitmap, over every run of the memory manager. */
module VmmFacts {
  import opened Words
  import opened BitSeqs
  import opened Hardware
  import opened Paging
  import opened FrameAlloc
  import opened FrameFacts
  import opened VmmSpec

  const RAM_FRAMES := KERNEL_VMA / PAGE_SIZE

  // ----- the invariant

  /** A used page of the region maps a frame of the pool that the frame bitmap has as used. */
  ghost predicate Backed(m: Machine, pool: set<nat>, page: nat)
    requires m.Sized() && page < TOTAL_PAGES
  {
    var entry := m.flat[REGION + page];
    && entry == Entry(FrameOf(entry))
    && FrameOf(entry) in pool
    && m.frames[FrameOf(entry)]
  }

  ghost predicate PagesBacked(m: Machine, pool: set<nat>)
    requires m.Sized()
  {
    && (forall p :: 0 <= p < TOTAL_PAGES && m.pages[p] ==> Backed(m, pool, p))
    && (forall p :: 0 <= p < TOTAL_PAGES && !m.pages[p] ==> m.flat[REGION + p] == 0)
  }

  ghost predicate PoolMapped(m: Machine, pool: set<nat>)
    requires m.Sized()
  {
    && (forall f {:trigger f in pool} :: f in pool ==> 0 < f < m.limit && f < RAM_FRAMES && m.flat[f] == Entry(f))
    && (forall f {:trigger m.frames[f]} :: 0 <= f < m.limit && !m.frames[f] ==> f in pool)
  }

  /** `pool` holds the frames the manager may hand out: those free or behind a page of the region, each identity
      mapped. All others (low memory, page tables, bitmaps, heap) stay used. */
  ghost predicate Inv(m: Machine, pool: set<nat>) {
    m.Sized() && PoolMapped(m, pool) && PagesBacked(m, pool) && Distinct(m)
  }

  ghost predicate Distinct(m: Machine)
    requires m.Sized()
  {
    forall p, q :: 0 <= p < q < TOTAL_PAGES && m.pages[p] && m.pages[q] ==>
      FrameOf(m.flat[REGION + p]) != FrameOf(m.flat[REGION + q])
  }

  /** What the invariant says in the system's own terms. */
  lemma InvMeaning(m: Machine, pool: set<nat>, p: nat, q: nat)
    requires Inv(m, pool) && p < TOTAL_PAGES && q < TOTAL_PAGES
    ensures m.pages[p] <==> Present(m.flat[REGION + p])
    ensures m.pages[p] && m.pages[q] && p != q ==> FrameOf(m.flat[REGION + p]) != FrameOf(m.flat[REGION + q])
    ensures m.pages[p] ==> var f := FrameOf(m.flat[REGION + p]); f in pool && m.frames[f] && m.flat[f] == Entry(f)
  {
    if m.pages[p] {
      assert Backed(m, pool, p);
    }
  }

  // ----- one page

  lemma MapPageCounts(m: Machine, page: nat)
    requires m.Sized() && page < TOTAL_PAGES && !m.pages[page] && m.FreeFrames() > 0
    ensures var r := MapPage(m, page);
      r.FreeFrames() == m.FreeFrames() - 1 && r.MappedPages() == m.MappedPages() + 1
    ensures var frame := Take(m.frames, m.limit).1;
      frame < m.limit && !m.frames[frame] && MapPage(m, page).frames == m.frames[frame := true]
  {
    var frame := Take(m.frames, m.limit).1;
    TakeIsLowest(m.frames, m.limit);
    assert [frame][0] == frame;
    FreeCountUpdate(m.pages, TOTAL_PAGES, page, true);
    FreeCountUpdate(m.frames, m.limit, frame, true);
  }

  lemma MapPageKeepsInv(m: Machine, pool: set<nat>, page: nat)
    requires Inv(m, pool) && page < TOTAL_PAGES && !m.pages[page] && m.FreeFrames() > 0
    ensures Inv(MapPage(m, page), pool)
  {
    MapPageCounts(m, page);
    var r := MapPage(m, page);
    forall p | 0 <= p < TOTAL_PAGES && m.pages[p]
      ensures Backed(r, pool, p) && FrameOf(m.flat[REGION + p]) != FrameOf(r.flat[REGION + page])
    {
      assert Backed(m, pool, p);
    }
    assert Backed(r, pool, page);
  }

  lemma UnmapPageCounts(m: Machine, pool: set<nat>, page: nat)
    requires Inv(m, pool) && page < TOTAL_PAGES && m.pages[page]
    ensures var r := UnmapPage(m, page);
      r.FreeFrames() == m.FreeFrames() + 1 && r.MappedPages() == m.MappedPages() - 1
  {
    assert Backed(m, pool, page);
    var frame := FrameOf(m.flat[REGION + page]);
    FreeCountUpdate(m.pages, TOTAL_PAGES, page, false);
    FreeCountUpdate(m.frames, m.limit, frame, false);
  }

  lemma UnmapPageKeepsInv(m: Machine, pool: set<nat>, page: nat)
    requires Inv(m, pool) && page < TOTAL_PAGES && m.pages[page]
    ensures Inv(UnmapPage(m, page), pool)
  {
    var r := UnmapPage(m, page);
    assert Backed(m, pool, page);
    var frame := FrameOf(m.flat[REGION + page]);
    forall p | 0 <= p < TOTAL_PAGES && r.pages[p]
      ensures Backed(r, pool, p)
    {
      assert Backed(m, pool, p);
      assert p < page ==> FrameOf(m.flat[REGION + p]) != frame;
      assert page < p ==> FrameOf(m.flat[REGION + p]) != frame;
    }
  }

  lemma MapPageStep(m: Machine, pool: set<nat>, page: nat)
    requires Inv(m, pool) && page < TOTAL_PAGES && !m.pages[page] && m.FreeFrames() > 0
    ensures var r := MapPage(m, page);
      Inv(r, pool) && r.FreeFrames() == m.FreeFrames() - 1 && r.MappedPages() == m.MappedPages() + 1
  {
    MapPageCounts(m, page);
    MapPageKeepsInv(m, pool, page);
  }

  lemma UnmapPageStep(m: Machine, pool: set<nat>, page: nat)
    requires Inv(m, pool) && page < TOTAL_PAGES && m.pages[page]
    ensures var r := UnmapPage(m, page);
      Inv(r, pool) && r.FreeFrames() == m.FreeFrames() + 1 && r.MappedPages() == m.MappedPages() - 1
  {
    UnmapPageCounts(m, pool, page);
    UnmapPageKeepsInv(m, pool, page);
  }

  // ----- a range of pages

  /** Which pages and page-table entries an operation touches. */
  lemma {:induction false} MapPagesShape(m: Machine, start: nat, n: nat)
    requires m.Sized() && start + n <= TOTAL_PAGES
    ensures var r := MapPages(m, start, n);
      && r.pages == SetRange(m.pages, start, n, true)
      && forall v :: 0 <= v < PAGE_COUNT && !(REGION + start <= v < REGION + start + n) ==> r.flat[v] == m.flat[v]
  {
    if n > 0 {
      MapPagesShape(m, start, n - 1);
      assert SetRange(m.pages, start, n, true) == SetRange(m.pages, start, n - 1, true)[start + n - 1 := true];
    } else {
      assert SetRange(m.pages, start, n, true) == m.pages;
    }
  }

  lemma {:induction false} UnmapPagesShape(m: Machine, start: nat, n: nat)
    requires m.Sized() && start + n <= TOTAL_PAGES
    ensures var r := UnmapPages(m, start, n);
      && r.pages == SetRange(m.pages, start, n, false)
      && r.flat == Splice(m.flat, REGION + start, Absent(n))
  {
    if n > 0 {
      UnmapPagesShape(m, start, n - 1);
      assert SetRange(m.pages, start, n, false) == SetRange(m.pages, start, n - 1, false)[start + n - 1 := false];
      GrowAbsent([], m.flat, REGION + start, n - 1);
    } else {
      assert SetRange(m.pages, start, n, false) == m.pages;
      assert Splice(m.flat, REGION + start, Absent(n)) == m.flat;
    }
  }

  lemma NextPageUntouched(m: Machine, start: nat, n: nat)
    requires m.Sized() && 0 < n && start + n <= TOTAL_PAGES
    ensures MapPages(m, start, n - 1).pages[start + n - 1] == m.pages[start + n - 1]
    ensures UnmapPages(m, start, n - 1).pages[start + n - 1] == m.pages[start + n - 1]
  {
    MapPagesShape(m, start, n - 1);
    UnmapPagesShape(m, start, n - 1);
  }

  lemma {:induction false} MapPagesKeepInv(m: Machine, pool: set<nat>, start: nat, n: nat)
    requires Inv(m, pool) && FreeWindow(m.pages, start, n) && start + n <= TOTAL_PAGES && n <= m.FreeFrames()
    ensures var r := MapPages(m, start, n);
      && Inv(r, pool)
      && r.FreeFrames() == m.FreeFrames() - n
      && r.MappedPages() == m.MappedPages() + n
  {
    if n > 0 {
      MapPagesKeepInv(m, pool, start, n - 1);
      NextPageUntouched(m, start, n);
      MapPageStep(MapPages(m, start, n - 1), pool, start + n - 1);
    }
  }

  ghost predicate AllUsed(pages: seq<bool>, start: nat, n: nat) {
    start + n <= |pages| && forall p :: start <= p < start + n ==> pages[p]
  }

  lemma {:induction false} UnmapPagesKeepInv(m: Machine, pool: set<nat>, start: nat, n: nat)
    requires Inv(m, pool) && AllUsed(m.pages, start, n)
    ensures var r := UnmapPages(m, start, n);
      && Inv(r, pool)
      && r.FreeFrames() == m.FreeFrames() + n
      && r.MappedPages() == m.MappedPages() - n
  {
    if n > 0 {
      UnmapPagesKeepInv(m, pool, start, n - 1);
      NextPageUntouched(m, start, n);
      UnmapPageStep(UnmapPages(m, start, n - 1), pool, start + n - 1);
    }
  }

  // ----- every run

  /** The callers' side: an allocation finds enough free frames, and a free names pages in use. */
  ghost predicate Legal(m: Machine, op: Op)
    requires m.Sized()
  {
    match op
    case AllocPages(n) => FirstWindow(m.pages, n).Some? ==> n <= m.FreeFrames()
    case FreePages(start, n) => AllUsed(m.pages, start, n)
  }

  ghost predicate LegalRun(m: Machine, ops: seq<Op>)
    requires m.Sized()
    decreases |ops|
  {
    ops == [] || (Legal(m, ops[0]) && LegalRun(Perform(m, ops[0]), ops[1..]))
  }

  ghost function Run(m: Machine, ops: seq<Op>): (r: Machine)
    requires m.Sized()
    ensures r.Sized()
    decreases |ops|
  {
    if ops == [] then m else Run(Perform(m, ops[0]), ops[1..])
  }

  ghost function RunLog(m: Machine, ops: seq<Op>): seq<Event>
    requires m.Sized()
    decreases |ops|
  {
    if ops == [] then [] else LogOf(m, ops[0]) + RunLog(Perform(m, ops[0]), ops[1..])
  }

  lemma PerformKeepsInv(m: Machine, pool: set<nat>, op: Op)
    requires Inv(m, pool) && Legal(m, op)
    ensures var r := Perform(m, op);
      && Inv(r, pool)
      && r.FreeFrames() + r.MappedPages() == m.FreeFrames() + m.MappedPages()
      && r.flat[..REGION] == m.flat[..REGION]
      && r.flat[REGION + TOTAL_PAGES..] == m.flat[REGION + TOTAL_PAGES..]
  {
    match op
    case AllocPages(n) =>
      if FirstWindow(m.pages, n).Some? {
        MapPagesKeepInv(m, pool, FirstWindow(m.pages, n).value, n);
        MapPagesShape(m, FirstWindow(m.pages, n).value, n);
      }
    case FreePages(start, n) =>
      UnmapPagesKeepInv(m, pool, start, n);
      UnmapPagesShape(m, start, n);
  }

  /** Every run keeps the invariant for one and the same pool, conserves free frames plus mapped pages, and
      leaves every page-table entry outside the region alone, the identity map of RAM included. */
  lemma {:induction false} RunKeepsInv(m: Machine, pool: set<nat>, ops: seq<Op>)
    requires Inv(m, pool) && LegalRun(m, ops)
    ensures var r := Run(m, ops);
      && Inv(r, pool)
      && r.FreeFrames() + r.MappedPages() == m.FreeFrames() + m.MappedPages()
      && r.flat[..REGION] == m.flat[..REGION]
      && r.flat[REGION + TOTAL_PAGES..] == m.flat[REGION + TOTAL_PAGES..]
    decreases |ops|
  {
    if ops != [] {
      PerformKeepsInv(m, pool, ops[0]);
      RunKeepsInv(Perform(m, ops[0]), pool, ops[1..]);
    }
  }

  /** Whatever frame the allocator would hand out next during a run is page `f` of the identity map. */
  lemma NextFrameIsIdentityMapped(m: Machine, pool: set<nat>, ops: seq<Op>)
    requires Inv(m, pool) && LegalRun(m, ops) && Run(m, ops).FreeFrames() > 0
    ensures var r := Run(m, ops);
      var frame := Take(r.frames, r.limit).1;
      frame != 0 && r.flat[frame] == Entry(frame)
  {
    RunKeepsInv(m, pool, ops);
    var r := Run(m, ops);
    TakeIsLowest(r.frames, r.limit);
    var frame := Take(r.frames, r.limit).1;
    assert [frame][0] == frame;
    assert frame in pool;
  }

  // ----- out of frames

  /** `alloc_pages` does not test for failure: it keeps the invariant exactly when enough frames are free. */
  lemma AllocKeepsInvExactlyWithEnoughFrames(m: Machine, pool: set<nat>, n: nat)
    requires Inv(m, pool) && FirstWindow(m.pages, n).Some?
    ensures Inv(Perform(m, AllocPages(n)), pool) <==> n <= m.FreeFrames()
  {
    var start := FirstWindow(m.pages, n).value;
    if n <= m.FreeFrames() {
      MapPagesKeepInv(m, pool, start, n);
    } else {
      OutOfFrames(m, pool, start, n);
    }
  }

  /** Some request breaks it in every state with all pages free but not a frame for each of them. */
  lemma RunsOut(m: Machine, pool: set<nat>)
    requires Inv(m, pool) && m.MappedPages() == 0 && m.FreeFrames() < TOTAL_PAGES
    ensures !Inv(Perform(m, AllocPages(m.FreeFrames() + 1)), pool)
  {
    var n := m.FreeFrames() + 1;
    AllPagesFree(m.pages, TOTAL_PAGES);
    assert FreeWindow(m.pages, 0, n);
    AllocKeepsInvExactlyWithEnoughFrames(m, pool, n);
  }

  lemma {:induction false} AllPagesFree(pages: seq<bool>, n: nat)
    requires n <= |pages| && FreeCount(pages, n) == n
    ensures forall p :: 0 <= p < n ==> !pages[p]
  {
    if n > 0 {
      AllPagesFree(pages, n - 1);
    }
  }

  /** Without a free frame a page is mapped to frame 0, which no page may own. */
  lemma OutOfFrames(m: Machine, pool: set<nat>, start: nat, n: nat)
    requires Inv(m, pool) && FreeWindow(m.pages, start, n) && m.FreeFrames() < n
    ensures !Inv(MapPages(m, start, n), pool)
  {
    var k := m.FreeFrames();
    MapPagesKeepInv(m, pool, start, k);
    MapsFrameZero(MapPages(m, start, k), start + k);
    MapPagesAhead(m, start, k + 1, n);
    MapPagesShape(m, start, n);
    FrameZeroIsNotPooled(MapPages(m, start, n), pool, start + k);
  }

  lemma MapsFrameZero(m: Machine, page: nat)
    requires m.Sized() && page < TOTAL_PAGES && m.FreeFrames() == 0
    ensures MapPage(m, page).flat[REGION + page] == Entry(0)
  {
    TakeIsLowest(m.frames, m.limit);
  }

  lemma FrameZeroIsNotPooled(m: Machine, pool: set<nat>, page: nat)
    requires m.Sized() && page < TOTAL_PAGES && m.pages[page] && m.flat[REGION + page] == Entry(0)
    ensures !Inv(m, pool)
  {
    if Inv(m, pool) {
      assert false;
    }
  }

  lemma {:induction false} MapPagesAhead(m: Machine, start: nat, k: nat, n: nat)
    requires m.Sized() && k <= n && start + n <= TOTAL_PAGES
    ensures forall v :: 0 <= v < REGION + start + k ==> MapPages(m, start, n).flat[v] == MapPages(m, start, k).flat[v]
  {
    if k < n {
      MapPagesAhead(m, start, k, n - 1);
    }
  }
}
