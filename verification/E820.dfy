/** The E820 memory map and the pages its usable entries stand for. */
module E820 {
  import opened Words
  import opened Hardware
  import opened Paging

  datatype Entry820 = Entry820(base: u64, length: u64, kind: u32) {
    predicate Usable() {
      kind == 1
    }

    /** `(uint32_t) base` */
    function Start(): u32 {
      base % 0x1_0000_0000
    }

    function End(): u32 {
      Clamp(Add64(base, length))
    }
  }

  predicate UsablePage(entries: seq<Entry820>, page: nat) {
    exists i :: 0 <= i < |entries| && entries[i].Usable() && Covers(entries[i].Start(), entries[i].End(), page)
  }

  class MemoryMap {
    var entries: seq<Entry820>

    constructor (table: seq<Entry820>)
      ensures entries == table
    {
      entries := table;
    }

    method IdentityMapUsable(pd: PageDirectory)
      requires pd.Valid()
      modifies pd.tables, pd`log
      ensures pd.Valid() && old(pd.log) <= pd.log
      ensures UsableMapped(old(pd.Flat()), pd.Flat(), entries)
    {
      for i := 0 to |entries|
        invariant pd.Valid() && old(pd.log) <= pd.log
        invariant UsableMapped(old(pd.Flat()), pd.Flat(), entries[..i])
      {
        ghost var before := pd.Flat();
        MapNextEntry(old(pd.Flat()), before, entries, i);
        if entries[i].kind != 1 {
          continue;
        }
        SplicedIdentity(before, entries[i].Start(), entries[i].End());
        pd.IdentityMapRange(entries[i].Start(), entries[i].End());
      }
      assert entries[..|entries|] == entries;
    }
  }

  /** The page tables with every usable page mapped to the frame of the same number. */
  ghost predicate UsableMapped(before: seq<u32>, after: seq<u32>, entries: seq<Entry820>) {
    && |before| == |after| == PAGE_COUNT
    && forall page :: 0 <= page < PAGE_COUNT ==>
         after[page] == if UsablePage(entries, page) then Entry(page) else before[page]
  }

  lemma MapNextEntry(start: seq<u32>, now: seq<u32>, entries: seq<Entry820>, i: nat)
    requires i < |entries| && UsableMapped(start, now, entries[..i])
    ensures !entries[i].Usable() ==> UsableMapped(start, now, entries[..i + 1])
    ensures entries[i].Usable() ==> forall next ::
      IdentityMapped(now, next, entries[i].Start(), entries[i].End()) ==> UsableMapped(start, next, entries[..i + 1])
  {
    ExtendUsable(entries, i);
  }

  lemma ExtendUsable(entries: seq<Entry820>, i: nat)
    requires i < |entries|
    ensures forall page: nat :: UsablePage(entries[..i + 1], page) <==>
      UsablePage(entries[..i], page) || (entries[i].Usable() && Covers(entries[i].Start(), entries[i].End(), page))
  {
    forall page: nat
      ensures UsablePage(entries[..i + 1], page) <==>
        UsablePage(entries[..i], page) || (entries[i].Usable() && Covers(entries[i].Start(), entries[i].End(), page))
    {
      assert entries[..i + 1][i] == entries[i];
      if UsablePage(entries[..i], page) {
        var k :| 0 <= k < i && entries[..i][k].Usable() && Covers(entries[..i][k].Start(), entries[..i][k].End(), page);
        assert entries[..i + 1][k] == entries[..i][k];
      }
      if UsablePage(entries[..i + 1], page) {
        var k :| 0 <= k < i + 1 && entries[..i + 1][k].Usable() && Covers(entries[..i + 1][k].Start(), entries[..i + 1][k].End(), page);
        if k < i {
          assert entries[..i][k] == entries[..i + 1][k];
        }
      }
    }
  }

  // ----- which pages an entry yields

  /** The whole page lies in the memory the entry describes. */
  predicate Contains(e: Entry820, page: nat) {
    e.base <= page * PAGE_SIZE && page * PAGE_SIZE + PAGE_SIZE <= e.base + e.length
  }

  ghost predicate YieldsAllItsPages(e: Entry820) {
    forall page: nat :: page < PAGE_COUNT && Contains(e, page) ==> Covers(e.Start(), e.End(), page)
  }

  ghost predicate YieldsOnlyItsPages(e: Entry820) {
    forall page: nat :: Covers(e.Start(), e.End(), page) ==> Contains(e, page)
  }

  /** Where an entry starts and ends for the kernel: as described below 4 GB, its end cut off there; an entry above
      yields no page at all. */
  lemma BelowFourGigabytes(e: Entry820, page: nat)
    requires e.base + e.length < 0x1_0000_0000_0000_0000
    ensures e.base < 0x1_0000_0000 ==> e.Start() as int == e.base
    ensures e.End() as int == if e.base + e.length <= 0xFFFF_FFFF then e.base + e.length else 0xFFFF_FFFF
    ensures e.base >= 0x1_0000_0000 ==> !Covers(e.Start(), e.End(), page)
  {
  }

  /** Rounding the end of an entry up wraps when it lies above 0xFFFFF000, and the entry is lost. */
  lemma LostNearTop(e: Entry820)
    ensures YieldsAllItsPages(e) <==>
      || e.base + e.length <= 0xFFFF_F000
      || e.base > 0xFFFF_F000
      || (e.base > 0xFFFF_E000 && e.base + e.length < 0x1_0000_0000)
  {
    if e.base + e.length > 0xFFFF_F000 {
      if e.base <= 0xFFFF_E000 {
        assert Contains(e, 0xF_FFFE);
      } else if e.base <= 0xFFFF_F000 && e.base + e.length >= 0x1_0000_0000 {
        assert Contains(e, 0xF_FFFF);
      }
    }
  }

  /** Partial pages at either end are handed out as if they were whole: an entry that yields any page at all, even
      an empty one, yields only its own exactly when it is aligned and its end neither wraps nor is clamped. */
  lemma RoundsOutToPages(e: Entry820)
    ensures YieldsOnlyItsPages(e) <==>
      || AlignUp(e.End()) <= AlignDown(e.Start())
      || (e.base + e.length <= 0xFFFF_F000 && e.base % PAGE_SIZE == 0 && (e.base + e.length) % PAGE_SIZE == 0)
  {
    if AlignUp(e.End()) > AlignDown(e.Start()) {
      assert Covers(e.Start(), e.End(), PageOf(e.Start()));
      if e.base + e.length <= 0xFFFF_F000 && e.base % PAGE_SIZE == 0 && (e.base + e.length) % PAGE_SIZE != 0 {
        assert Covers(e.Start(), e.End(), PageOf(e.base + e.length));
      }
    }
  }

  /** The usable entries are page aligned and end at or below 0xFFFFF000. */
  ghost predicate AlignedMap(entries: seq<Entry820>) {
    forall i :: 0 <= i < |entries| && entries[i].Usable() ==>
      && entries[i].base + entries[i].length <= 0xFFFF_F000
      && entries[i].base % PAGE_SIZE == 0 && entries[i].length % PAGE_SIZE == 0
  }

  /** For aligned entries below 0xFFFFF000 the pages found are exactly those inside a usable entry. */
  lemma UsablePagesOfAlignedMap(entries: seq<Entry820>, page: nat)
    requires AlignedMap(entries)
    ensures UsablePage(entries, page) <==>
      exists i :: 0 <= i < |entries| && entries[i].Usable() && Contains(entries[i], page)
  {
    forall i | 0 <= i < |entries| && entries[i].Usable()
      ensures Covers(entries[i].Start(), entries[i].End(), page) <==> Contains(entries[i], page)
    {
      AlignedEntry(entries[i], page);
    }
  }

  lemma AlignedEntry(e: Entry820, page: nat)
    requires e.base + e.length <= 0xFFFF_F000 && e.base % PAGE_SIZE == 0 && e.length % PAGE_SIZE == 0
    ensures Covers(e.Start(), e.End(), page) <==> Contains(e, page)
  {
    CoversMeaning(e.Start(), e.End(), page);
  }

  lemma UsablePagesIgnoreOrder(a: seq<Entry820>, b: seq<Entry820>, page: nat)
    requires multiset(a) == multiset(b)
    ensures UsablePage(a, page) <==> UsablePage(b, page)
  {
    UsableFromMembers(a, b, page);
    UsableFromMembers(b, a, page);
  }

  lemma UsableFromMembers(a: seq<Entry820>, b: seq<Entry820>, page: nat)
    requires multiset(a) == multiset(b)
    ensures UsablePage(a, page) ==> UsablePage(b, page)
  {
    if UsablePage(a, page) {
      var i :| 0 <= i < |a| && a[i].Usable() && Covers(a[i].Start(), a[i].End(), page);
      assert a[i] in multiset(a);
      assert a[i] in b;
      var k :| 0 <= k < |b| && b[k] == a[i];
    }
  }
}
