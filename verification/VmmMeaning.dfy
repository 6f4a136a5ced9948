/** What one allocation and one free of the memory manager do, stated on the states before and after. */
module VmmMeaning {
  import opened Words
  import opened BitSeqs
  import opened Paging
  import opened FrameAlloc
  import opened VmmSpec
  import opened VmmFacts
  import opened VmmRuns

  ghost predicate NoWindow(pages: seq<bool>, n: nat) {
    n == 0 || forall s: nat :: !FreeWindow(pages, s, n)
  }

  ghost predicate LowestWindow(pages: seq<bool>, s: nat, n: nat) {
    n > 0 && FreeWindow(pages, s, n) && forall t: nat :: t < s ==> !FreeWindow(pages, t, n)
  }

  /** An allocation of `n` pages took `m` to `r` and returned `addr`: null when no `n` free pages lie side by side,
      and then nothing changed; otherwise the address of the lowest such pages, which are now the ones marked and are
      mapped to the lowest free frames in order. */
  ghost predicate Allocated(m: Machine, r: Machine, n: nat, addr: u32) {
    && m.Sized() && r.Sized()
    && (addr == 0 <==> NoWindow(m.pages, n))
    && (addr == 0 ==> r == m)
    && (addr != 0 ==> addr >= 0xD000_0000 && AllocatedAt(m, r, n, addr / 0x1000 - 0xD_0000) && addr % 0x1000 == 0)
  }

  ghost predicate AllocatedAt(m: Machine, r: Machine, n: nat, s: nat)
    requires m.Sized() && r.Sized()
  {
    var (frames, taken) := TakeMany(m.frames, m.limit, n);
    && LowestWindow(m.pages, s, n)
    && (forall p :: 0 <= p < TOTAL_PAGES ==> r.pages[p] == (m.pages[p] || s <= p < s + n))
    && (forall v :: 0 <= v < PAGE_COUNT ==>
          r.flat[v] == if 0xD_0000 + s <= v < 0xD_0000 + s + n then Entry(taken[v - 0xD_0000 - s]) else m.flat[v])
    && r.frames == frames && r.limit == m.limit
  }

  /** A free of `n` pages from page `s` of the region on: their bits are cleared, their entries absent, and exactly the
      frames those entries named are free again. */
  ghost predicate Freed(m: Machine, r: Machine, s: nat, n: nat) {
    && m.Sized() && r.Sized() && s + n <= TOTAL_PAGES && r.limit == m.limit
    && (forall p :: 0 <= p < TOTAL_PAGES ==> r.pages[p] == (m.pages[p] && !(s <= p < s + n)))
    && (forall v :: 0 <= v < PAGE_COUNT ==> r.flat[v] == if 0xD_0000 + s <= v < 0xD_0000 + s + n then 0 else m.flat[v])
    && (forall f :: 0 <= f < PAGE_COUNT ==> r.frames[f] == (m.frames[f] && !Owns(m.flat, s, n, f)))
  }

  lemma {:induction false} MapPagesTakes(m: Machine, start: nat, n: nat)
    requires m.Sized() && start + n <= TOTAL_PAGES
    ensures var (frames, taken) := TakeMany(m.frames, m.limit, n);
      && MapPages(m, start, n).frames == frames
      && forall i :: 0 <= i < n ==> MapPages(m, start, n).flat[REGION + start + i] == Entry(taken[i])
  {
    if n > 0 {
      MapPagesTakes(m, start, n - 1);
    }
  }

  lemma AllocMeaning(m: Machine, n: nat)
    requires m.Sized()
    ensures Allocated(m, Perform(m, AllocPages(n)), n, AllocResult(m, n))
  {
    var window := FirstWindow(m.pages, n);
    if window.Some? {
      AllocatedWindow(m, n);
      PageStart(AllocResult(m, n), REGION + window.value);
    }
  }

  lemma AllocatedWindow(m: Machine, n: nat)
    requires m.Sized() && FirstWindow(m.pages, n).Some?
    ensures AllocatedAt(m, Perform(m, AllocPages(n)), n, FirstWindow(m.pages, n).value)
  {
    var start := FirstWindow(m.pages, n).value;
    MapPagesTakes(m, start, n);
    MapPagesShape(m, start, n);
    var r := MapPages(m, start, n);
    forall v | 0 <= v < PAGE_COUNT && REGION + start <= v < REGION + start + n
      ensures r.flat[v] == Entry(TakeMany(m.frames, m.limit, n).1[v - REGION - start])
    {
      assert v == REGION + start + (v - REGION - start);
    }
  }

  lemma FreeMeaning(m: Machine, start: nat, n: nat)
    requires m.Sized() && start + n <= TOTAL_PAGES
    ensures Freed(m, Perform(m, FreePages(start, n)), start, n)
  {
    UnmapPagesShape(m, start, n);
    forall f: nat | f < PAGE_COUNT
      ensures UnmapPages(m, start, n).frames[f] == (m.frames[f] && !Owns(m.flat, start, n, f))
    {
      UnmapReleasesOwned(m, start, n, f);
    }
  }

  // ----- addresses

  /** The next allocation after one at the lowest window finds the lowest window that does not meet it. */
  lemma WindowsAfter(m: Machine, r: Machine, n: nat, addr: u32, k: nat)
    requires Allocated(m, r, n, addr) && k > 0
    ensures forall s: nat :: FreeWindow(r.pages, s, k) <==>
      FreeWindow(m.pages, s, k) && (addr == 0 || s + k <= addr / 0x1000 - 0xD_0000 || addr / 0x1000 - 0xD_0000 + n <= s)
  {
    if addr != 0 {
      var w := addr / 0x1000 - 0xD_0000;
      forall s: nat | s < w + n && w < s + k
        ensures !FreeWindow(r.pages, s, k)
      {
        assert r.pages[if s < w then w else s];
      }
    }
  }

  /** From a region without used pages the first two allocations come from its start, one after the other. */
  lemma FirstAddresses(m: Machine, after: Machine, r: Machine, n: nat, k: nat, p1: u32, p2: u32)
    requires Allocated(m, after, n, p1) && Allocated(after, r, k, p2)
    requires (forall p :: 0 <= p < TOTAL_PAGES ==> !m.pages[p]) && 0 < n && 0 < k && n + k <= TOTAL_PAGES
    ensures p1 == 0xD000_0000 && p2 == 0xD000_0000 + n * 0x1000
  {
    assert FreeWindow(m.pages, 0, n);
    WindowsAfter(m, after, n, p1, k);
    assert FreeWindow(after.pages, n, k);
  }
}
