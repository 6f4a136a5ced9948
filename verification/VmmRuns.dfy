/** Runs of the memory manager seen by the TLB, and what freeing gives back. */
module VmmRuns {
  import opened Words
  import opened BitSeqs
  import opened Hardware
  import opened FrameAlloc
  import opened FrameFacts
  import opened Paging
  import opened VmmSpec
  import opened VmmFacts

  const REGION_END := REGION + TOTAL_PAGES

  // ----- page-table writes, flushes and releases of an operation

  /** Backing absent pages dirties nothing, releases nothing, and yields the page tables of the operation. */
  lemma {:induction false} MapLogIsSafe(m: Machine, start: nat, n: nat)
    requires m.Sized() && start + n <= TOTAL_PAGES
    requires forall v :: REGION + start <= v < REGION + start + n ==> m.flat[v] == 0
    ensures Replay(m.flat, MapLog(m, start, n)) == MapPages(m, start, n).flat
    ensures SafeLog(m.flat, MapLog(m, start, n), REGION, REGION_END)
  {
    if n > 0 {
      MapLogIsSafe(m, start, n - 1);
      var before, page := MapPages(m, start, n - 1), start + n - 1;
      MapStepOf(m, start, n);
      SafeThen(m.flat, MapLog(m, start, n - 1), before.flat, MapStep(before, page), MapPages(m, start, n).flat,
               REGION, REGION_END);
    }
  }

  lemma MapStepOf(m: Machine, start: nat, n: nat)
    requires m.Sized() && n > 0 && start + n <= TOTAL_PAGES && m.flat[REGION + start + n - 1] == 0
    ensures var before := MapPages(m, start, n - 1);
      && Replay(before.flat, MapStep(before, start + n - 1)) == MapPages(m, start, n).flat
      && SafeLog(before.flat, MapStep(before, start + n - 1), REGION, REGION_END)
  {
    var before, page := MapPages(m, start, n - 1), start + n - 1;
    MapPagesShape(m, start, n - 1);
    OneWrite(before.flat, REGION + page, MapPage(before, page).flat[REGION + page]);
  }

  lemma OneWrite(flat: seq<u32>, page: nat, entry: u32)
    requires page < |flat|
    ensures Replay(flat, [Write(page, entry)]) == flat[page := entry]
    ensures !Present(flat[page]) || flat[page] == entry ==> SafeLog(flat, [Write(page, entry)], REGION, REGION_END)
  {
    assert [Write(page, entry)][..0] == [];
  }

  lemma WriteFlush(flat: seq<u32>, page: nat)
    requires page < |flat|
    ensures Replay(flat, [Write(page, 0), Flush]) == flat[page := 0] && Dirty(flat, [Write(page, 0), Flush]) == {}
  {
    assert [Write(page, 0), Flush][..1] == [Write(page, 0)];
    OneWrite(flat, page, 0);
  }

  lemma WriteFlushRelease(flat: seq<u32>, page: nat, frame: nat)
    requires page < |flat| && Unmapped(flat[page := 0], frame, REGION, REGION_END)
    ensures var log := [Write(page, 0), Flush, Release(frame)];
      Replay(flat, log) == flat[page := 0] && SafeLog(flat, log, REGION, REGION_END)
  {
    var log := [Write(page, 0), Flush, Release(frame)];
    WriteFlush(flat, page);
    assert log[..2] == [Write(page, 0), Flush];
    assert SafeRelease(flat, log[..2], frame, REGION, REGION_END);
  }

  lemma UnmapPageUnmaps(m: Machine, pool: set<nat>, page: nat)
    requires Inv(m, pool) && page < TOTAL_PAGES && m.pages[page]
    ensures Unmapped(UnmapPage(m, page).flat, FrameOf(m.flat[REGION + page]), REGION, REGION_END)
  {
    var r := UnmapPage(m, page);
    forall v | REGION <= v < REGION_END && Present(r.flat[v])
      ensures FrameOf(r.flat[v]) != FrameOf(m.flat[REGION + page])
    {
      InvMeaning(m, pool, v - REGION, page);
    }
  }

  /** Each frame is released after its page is unmapped and flushed, so nothing still translates to it. */
  lemma {:induction false} UnmapLogIsSafe(m: Machine, pool: set<nat>, start: nat, n: nat)
    requires Inv(m, pool) && AllUsed(m.pages, start, n)
    ensures Replay(m.flat, UnmapLog(m, start, n)) == UnmapPages(m, start, n).flat
    ensures SafeLog(m.flat, UnmapLog(m, start, n), REGION, REGION_END)
  {
    if n > 0 {
      UnmapLogIsSafe(m, pool, start, n - 1);
      var before, page := UnmapPages(m, start, n - 1), start + n - 1;
      UnmapStepOf(m, pool, start, n);
      SafeThen(m.flat, UnmapLog(m, start, n - 1), before.flat, UnmapStep(before, page), UnmapPages(m, start, n).flat,
               REGION, REGION_END);
    }
  }

  lemma UnmapStepOf(m: Machine, pool: set<nat>, start: nat, n: nat)
    requires Inv(m, pool) && n > 0 && AllUsed(m.pages, start, n)
    ensures var before := UnmapPages(m, start, n - 1);
      && Replay(before.flat, UnmapStep(before, start + n - 1)) == UnmapPages(m, start, n).flat
      && SafeLog(before.flat, UnmapStep(before, start + n - 1), REGION, REGION_END)
  {
    UnmapPagesKeepInv(m, pool, start, n - 1);
    NextPageUntouched(m, start, n);
    UnmapStepIsSafe(UnmapPages(m, start, n - 1), pool, start + n - 1);
  }

  lemma UnmapStepIsSafe(m: Machine, pool: set<nat>, page: nat)
    requires Inv(m, pool) && page < TOTAL_PAGES && m.pages[page]
    ensures Replay(m.flat, UnmapStep(m, page)) == UnmapPage(m, page).flat
    ensures SafeLog(m.flat, UnmapStep(m, page), REGION, REGION_END)
  {
    UnmapPageUnmaps(m, pool, page);
    WriteFlushRelease(m.flat, REGION + page, FrameOf(m.flat[REGION + page]));
  }

  lemma LogIsSafe(m: Machine, pool: set<nat>, op: Op)
    requires Inv(m, pool) && Legal(m, op)
    ensures Replay(m.flat, LogOf(m, op)) == Perform(m, op).flat
    ensures SafeLog(m.flat, LogOf(m, op), REGION, REGION_END)
  {
    match op
    case AllocPages(n) =>
      if FirstWindow(m.pages, n).Some? {
        WindowIsAbsent(m, pool, FirstWindow(m.pages, n).value, n);
        MapLogIsSafe(m, FirstWindow(m.pages, n).value, n);
      }
    case FreePages(start, n) => UnmapLogIsSafe(m, pool, start, n);
  }

  lemma WindowIsAbsent(m: Machine, pool: set<nat>, start: nat, n: nat)
    requires Inv(m, pool) && FreeWindow(m.pages, start, n)
    ensures forall v :: REGION + start <= v < REGION + start + n ==> m.flat[v] == 0
  {
    forall v | REGION + start <= v < REGION + start + n
      ensures m.flat[v] == 0
    {
      assert !m.pages[v - REGION];
    }
  }

  lemma {:induction false} RunLogIsSafe(m: Machine, pool: set<nat>, ops: seq<Op>)
    requires Inv(m, pool) && LegalRun(m, ops)
    ensures Replay(m.flat, RunLog(m, ops)) == Run(m, ops).flat
    ensures SafeLog(m.flat, RunLog(m, ops), REGION, REGION_END)
    decreases |ops|
  {
    if ops != [] {
      var next := Perform(m, ops[0]);
      LogIsSafe(m, pool, ops[0]);
      PerformKeepsInv(m, pool, ops[0]);
      RunLogIsSafe(next, pool, ops[1..]);
      SafeAppend(m.flat, LogOf(m, ops[0]), RunLog(next, ops[1..]), REGION, REGION_END);
    }
  }

  /** For every run and every interleaving with a TLB that loads and drops translations at will: the TLB agrees
      with the page tables when the run ends and at each release of a frame, and then neither the tables nor
      the TLB map that frame in the region. */
  lemma TlbStaysCoherent(m: Machine, pool: set<nat>, ops: seq<Op>, tlb: set<(nat, u32)>, steps: seq<Step>)
    requires Inv(m, pool) && LegalRun(m, ops)
    requires Processor(m.flat, tlb).Coherent() && Software(steps) == RunLog(m, ops)
    ensures var p := Exec(Processor(m.flat, tlb), steps);
      p.Coherent() && p.flat == Run(m, ops).flat
    ensures ReleasesSafely(Processor(m.flat, tlb), steps, REGION, REGION_END)
  {
    RunLogIsSafe(m, pool, ops);
    SafeOnHardware(Processor(m.flat, tlb), steps, REGION, REGION_END);
    StaleOnlyWhereDirty(Processor(m.flat, tlb), steps);
  }

  // ----- freeing what was allocated

  ghost predicate Owns(flat: seq<u32>, start: nat, n: nat, frame: nat)
    requires |flat| == PAGE_COUNT && start + n <= TOTAL_PAGES
  {
    exists v :: REGION + start <= v < REGION + start + n && FrameOf(flat[v]) == frame
  }

  lemma {:induction false} UnmapReleasesOwned(m: Machine, start: nat, n: nat, frame: nat)
    requires m.Sized() && start + n <= TOTAL_PAGES && frame < PAGE_COUNT
    ensures UnmapPages(m, start, n).frames[frame] == (m.frames[frame] && !Owns(m.flat, start, n, frame))
  {
    if n > 0 {
      UnmapReleasesOwned(m, start, n - 1, frame);
      UnmapPagesShape(m, start, n - 1);
      OwnsOneMore(m.flat, start, n, frame);
    }
  }

  lemma OwnsOneMore(flat: seq<u32>, start: nat, n: nat, frame: nat)
    requires |flat| == PAGE_COUNT && 0 < n && start + n <= TOTAL_PAGES
    ensures Owns(flat, start, n, frame) <==>
            Owns(flat, start, n - 1, frame) || FrameOf(flat[REGION + start + n - 1]) == frame
  {
  }

  lemma {:induction false} MapTakesOwned(m: Machine, start: nat, n: nat, frame: nat)
    requires m.Sized() && start + n <= TOTAL_PAGES && n <= m.FreeFrames() && frame < PAGE_COUNT
    requires FreeWindow(m.pages, start, n)
    ensures var r := MapPages(m, start, n);
      && r.FreeFrames() == m.FreeFrames() - n
      && r.frames[frame] == (m.frames[frame] || Owns(r.flat, start, n, frame))
      && (Owns(r.flat, start, n, frame) ==> !m.frames[frame])
  {
    if n > 0 {
      var before, r := MapPages(m, start, n - 1), MapPages(m, start, n);
      MapTakesOwned(m, start, n - 1, frame);
      NextPageUntouched(m, start, n);
      MapPageCounts(before, start + n - 1);
      OwnsOneMore(r.flat, start, n, frame);
      SameOwners(before.flat, r.flat, start, n - 1, frame);
    }
  }

  lemma SameOwners(a: seq<u32>, b: seq<u32>, start: nat, n: nat, frame: nat)
    requires |a| == |b| == PAGE_COUNT && start + n <= TOTAL_PAGES
    requires forall v :: REGION + start <= v < REGION + start + n ==> a[v] == b[v]
    ensures Owns(a, start, n, frame) == Owns(b, start, n, frame)
  {
  }

  /** Allocating pages and freeing them again restores the page bitmap, every page-table entry and the frame
      bitmap bit for bit. */
  lemma FreeUndoesAlloc(m: Machine, pool: set<nat>, n: nat)
    requires Inv(m, pool) && FirstWindow(m.pages, n).Some? && n <= m.FreeFrames()
    ensures Perform(Perform(m, AllocPages(n)), FreePages(FirstWindow(m.pages, n).value, n)) == m
  {
    var start := FirstWindow(m.pages, n).value;
    var a := MapPages(m, start, n);
    var r := UnmapPages(a, start, n);
    MapPagesShape(m, start, n);
    UnmapPagesShape(a, start, n);
    WindowIsAbsent(m, pool, start, n);
    assert r.pages == m.pages;
    assert r.flat == m.flat;
    forall frame | 0 <= frame < PAGE_COUNT
      ensures r.frames[frame] == m.frames[frame]
    {
      MapTakesOwned(m, start, n, frame);
      UnmapReleasesOwned(a, start, n, frame);
    }
    assert r.frames == m.frames;
  }

  ghost predicate OnlyAllocs(ops: seq<Op>) {
    forall i :: 0 <= i < |ops| ==> ops[i].AllocPages?
  }

  /** Allocations only set page bits. */
  lemma {:induction false} AllocsOnlyAdd(m: Machine, ops: seq<Op>)
    requires m.Sized() && OnlyAllocs(ops)
    ensures forall p :: 0 <= p < TOTAL_PAGES && m.pages[p] ==> Run(m, ops).pages[p]
    decreases |ops|
  {
    if ops != [] {
      var next := Perform(m, ops[0]);
      if FirstWindow(m.pages, ops[0].n).Some? {
        MapPagesShape(m, FirstWindow(m.pages, ops[0].n).value, ops[0].n);
      }
      AllocsOnlyAdd(next, ops[1..]);
    }
  }

  /** First fit is stable: after an allocation, any number of further allocations and the free of the first one,
      the same request returns the same address. */
  lemma ReallocReturnsSameAddress(m: Machine, n: nat, ops: seq<Op>)
    requires m.Sized() && FirstWindow(m.pages, n).Some? && OnlyAllocs(ops)
    ensures var start := FirstWindow(m.pages, n).value;
      var later := Run(Perform(m, AllocPages(n)), ops);
      AllocResult(Perform(later, FreePages(start, n)), n) == AllocResult(m, n) == 0xD000_0000 + start * 0x1000
  {
    var start := FirstWindow(m.pages, n).value;
    var a := MapPages(m, start, n);
    MapPagesShape(m, start, n);
    AllocsOnlyAdd(a, ops);
    var later := Run(a, ops);
    UnmapPagesShape(later, start, n);
    var freed := UnmapPages(later, start, n);
    assert FreeWindow(freed.pages, start, n);
    forall s | 0 <= s < start
      ensures !FreeWindow(freed.pages, s, n)
    {
      assert !FreeWindow(m.pages, s, n);
      var i :| s <= i < s + n && m.pages[i];
      assert a.pages[i] && later.pages[i];
      assert i < start || start + n <= i;
    }
    FirstWindowIs(freed.pages, n, start);
  }

  lemma ReallocAfterOne(m: Machine, n: nat, k: nat)
    requires m.Sized() && FirstWindow(m.pages, n).Some?
    ensures var start := FirstWindow(m.pages, n).value;
      var later := Perform(Perform(m, AllocPages(n)), AllocPages(k));
      AllocResult(Perform(later, FreePages(start, n)), n) == AllocResult(m, n) == 0xD000_0000 + start * 0x1000
  {
    var ops: seq<Op> := [AllocPages(k)];
    assert ops[1..] == [];
    assert Run(Perform(m, AllocPages(n)), ops) == Perform(Perform(m, AllocPages(n)), ops[0]);
    ReallocReturnsSameAddress(m, n, ops);
  }
}
