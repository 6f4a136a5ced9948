/** What every run of the heap guarantees. */
module HeapFacts {
  import opened Sequences
  import opened HeapSpec

  /** Blocks that tile `total` bytes of memory with no two free ones side by side. */
  ghost predicate WellFormed(blocks: seq<Block>, total: nat) {
    Span(blocks) == total && NoAdjacentFree(blocks)
  }

  // ----- allocation

  /** `alloc` fails exactly when no free block is large enough; otherwise it grants a fresh payload of at least
      the size asked for and less than a header and `MIN_SPLIT` more, and no other allocation changes. */
  lemma {:induction false} AllocMeaning(blocks: seq<Block>, addr: nat, size: nat)
    ensures var p := AllocResult(blocks, addr, size);
      && (p == 0 <==> forall i :: 0 <= i < |blocks| && blocks[i].free ==> blocks[i].size < size)
      && (p == 0 ==> Alloc(blocks, size) == blocks)
      && (p != 0 ==> addr + HEADER <= p && p !in Live(blocks, addr) && p in Live(Alloc(blocks, size), addr))
      && (p != 0 ==> var granted := Live(Alloc(blocks, size), addr)[p];
           && size <= granted < size + HEADER + MIN_SPLIT
           && Live(Alloc(blocks, size), addr) == Live(blocks, addr)[p := granted])
  {
    if blocks != [] {
      if Fits(blocks[0], size) {
        CarveLive(blocks, addr, size);
      } else {
        var next := addr + HEADER + blocks[0].size;
        AllocMeaning(blocks[1..], next, size);
        NotLiveBefore(blocks[1..], next, addr + HEADER);
        assert forall i :: 1 <= i < |blocks| ==> blocks[i] == blocks[1..][i - 1];
        var after := Alloc(blocks, size);
        assert after[0] == blocks[0] && after[1..] == Alloc(blocks[1..], size);
      }
    }
  }

  /** First fit: the block taken is the first free one that is large enough, it is split exactly when a header and
      16 more bytes are left, and the blocks before and after it stay as they are. */
  lemma {:induction false} FirstFit(blocks: seq<Block>, addr: nat, size: nat)
    returns (before: seq<Block>, b: Block, rest: seq<Block>)
    requires AllocResult(blocks, addr, size) != 0
    ensures blocks == before + ([b] + rest) && b.free && b.size >= size
    ensures forall k :: 0 <= k < |before| && before[k].free ==> before[k].size < size
    ensures AllocResult(blocks, addr, size) == addr + Span(before) + 12
    ensures Alloc(blocks, size) == before +
      ((if b.size >= size + 12 + 16 then [Block(size, false), Block(b.size - size - 12, true)] else [Block(b.size, false)])
       + rest)
  {
    if Fits(blocks[0], size) {
      before, b, rest := [], blocks[0], blocks[1..];
    } else {
      before, b, rest := FirstFit(blocks[1..], addr + HEADER + blocks[0].size, size);
      Prefixed(blocks, before, [b] + rest);
      AppendAssociates([blocks[0]], before, Carve(b, size) + rest);
      before := [blocks[0]] + before;
    }
  }

  lemma Prefixed(blocks: seq<Block>, before: seq<Block>, rest: seq<Block>)
    requires blocks != [] && blocks[1..] == before + rest
    ensures blocks == ([blocks[0]] + before) + rest
    ensures Span([blocks[0]] + before) == HEADER + blocks[0].size + Span(before)
  {
    assert ([blocks[0]] + before)[1..] == before;
  }

  lemma CarveLive(blocks: seq<Block>, addr: nat, size: nat)
    requires blocks != [] && Fits(blocks[0], size)
    ensures var after := Carve(blocks[0], size) + blocks[1..];
      && addr + HEADER !in Live(blocks, addr)
      && Live(after, addr) == Live(blocks, addr)[addr + HEADER := Carve(blocks[0], size)[0].size]
      && Span(after) == Span(blocks)
  {
    var b := blocks[0];
    var after := Carve(b, size) + blocks[1..];
    NotLiveBefore(blocks[1..], addr + HEADER + b.size, addr + HEADER);
    if b.size >= size + HEADER + MIN_SPLIT {
      assert after[1..][1..] == blocks[1..];
      assert after[1..][0] == Block(b.size - size - HEADER, true);
    } else {
      assert after[1..] == blocks[1..];
    }
  }

  lemma {:induction false} AllocKeepsWellFormed(blocks: seq<Block>, total: nat, size: nat)
    requires WellFormed(blocks, total)
    ensures WellFormed(Alloc(blocks, size), total)
  {
    if blocks != [] {
      if Fits(blocks[0], size) {
        CarveLive(blocks, 0, size);
      } else {
        AllocKeepsWellFormed(blocks[1..], total - HEADER - blocks[0].size, size);
        AllocOnlyTakes(blocks[1..], size);
        var rest := Alloc(blocks[1..], size);
        assert Alloc(blocks, size)[1..] == rest;
      }
    }
  }

  lemma AllocOnlyTakes(blocks: seq<Block>, size: nat)
    ensures blocks != [] ==> Alloc(blocks, size) != [] && (Alloc(blocks, size)[0].free ==> blocks[0].free)
  {
  }

  // ----- free

  lemma {:induction false} MarkFreeMeaning(blocks: seq<Block>, addr: nat, p: nat)
    requires p in Live(blocks, addr)
    ensures Live(MarkFree(blocks, addr, p), addr) == Live(blocks, addr) - {p}
    ensures Span(MarkFree(blocks, addr, p)) == Span(blocks)
  {
    var next := addr + HEADER + blocks[0].size;
    var after := MarkFree(blocks, addr, p);
    if p == addr + HEADER {
      NotLiveBefore(blocks[1..], next, p);
      assert after[1..] == blocks[1..];
    } else {
      MarkFreeMeaning(blocks[1..], next, p);
      NotLiveBefore(blocks[1..], next, addr + HEADER);
      assert after[0] == blocks[0] && after[1..] == MarkFree(blocks[1..], next, p);
    }
  }

  lemma MergeTwo(blocks: seq<Block>, addr: nat)
    requires |blocks| >= 2 && blocks[0].free && blocks[1].free
    ensures var after := [Merge(blocks[0], blocks[1])] + blocks[2..];
      Live(after, addr) == Live(blocks, addr) && Span(after) == Span(blocks)
  {
    var after := [Merge(blocks[0], blocks[1])] + blocks[2..];
    assert after[1..] == blocks[2..] == blocks[1..][1..];
  }

  lemma {:induction false} CoalesceMeaning(blocks: seq<Block>, addr: nat)
    ensures Live(Coalesce(blocks), addr) == Live(blocks, addr)
    ensures Span(Coalesce(blocks)) == Span(blocks)
    ensures NoAdjacentFree(Coalesce(blocks))
    ensures blocks != [] ==> Coalesce(blocks) != [] && Coalesce(blocks)[0].free == blocks[0].free
    decreases |blocks|
  {
    if |blocks| >= 2 {
      if blocks[0].free && blocks[1].free {
        MergeTwo(blocks, addr);
        CoalesceMeaning([Merge(blocks[0], blocks[1])] + blocks[2..], addr);
      } else {
        CoalesceMeaning(blocks[1..], addr + HEADER + blocks[0].size);
        assert Coalesce(blocks)[1..] == Coalesce(blocks[1..]);
      }
    }
  }

  /** `free` removes the allocation and no other, and leaves no two free blocks side by side. */
  lemma FreeMeaning(blocks: seq<Block>, total: nat, addr: nat, p: nat)
    requires WellFormed(blocks, total) && p in Live(blocks, addr)
    ensures WellFormed(Free(blocks, addr, p), total)
    ensures Live(Free(blocks, addr, p), addr) == Live(blocks, addr) - {p}
  {
    MarkFreeMeaning(blocks, addr, p);
    CoalesceMeaning(MarkFree(blocks, addr, p), addr);
  }

  /** Freeing what was just allocated restores the block sequence exactly, split or not. */
  lemma FreeUndoesAlloc(blocks: seq<Block>, total: nat, addr: nat, size: nat)
    requires WellFormed(blocks, total) && AllocResult(blocks, addr, size) != 0
    ensures Free(Alloc(blocks, size), addr, AllocResult(blocks, addr, size)) == blocks
  {
    var p := AllocResult(blocks, addr, size);
    AllocMeaning(blocks, addr, size);
    AllocKeepsWellFormed(blocks, total, size);
    FreeMeaning(Alloc(blocks, size), total, addr, p);
    assert Live(Alloc(blocks, size), addr) - {p} == Live(blocks, addr);
    Canonical(Free(Alloc(blocks, size), addr, p), blocks, addr);
  }

  // ----- every run

  datatype HeapOp = Request(size: nat) | Release(p: nat)

  function Perform(blocks: seq<Block>, addr: nat, op: HeapOp): seq<Block> {
    match op
    case Request(size) => Alloc(blocks, size)
    case Release(p) => Free(blocks, addr, p)
  }

  /** Only live allocations are freed. */
  ghost predicate LegalRun(blocks: seq<Block>, addr: nat, ops: seq<HeapOp>)
    decreases |ops|
  {
    ops == [] ||
    ((ops[0].Release? ==> ops[0].p in Live(blocks, addr)) && LegalRun(Perform(blocks, addr, ops[0]), addr, ops[1..]))
  }

  function Run(blocks: seq<Block>, addr: nat, ops: seq<HeapOp>): seq<Block>
    decreases |ops|
  {
    if ops == [] then blocks else Run(Perform(blocks, addr, ops[0]), addr, ops[1..])
  }

  lemma {:induction false} RunKeepsWellFormed(blocks: seq<Block>, total: nat, addr: nat, ops: seq<HeapOp>)
    requires WellFormed(blocks, total) && LegalRun(blocks, addr, ops)
    ensures WellFormed(Run(blocks, addr, ops), total)
    decreases |ops|
  {
    if ops != [] {
      match ops[0] {
        case Request(size) => AllocKeepsWellFormed(blocks, total, size);
        case Release(p) => FreeMeaning(blocks, total, addr, p);
      }
      RunKeepsWellFormed(Perform(blocks, addr, ops[0]), total, addr, ops[1..]);
    }
  }

  /** A heap as initialised: all but one header is free in one piece, at its start. */
  lemma FreshHeap(total: nat, addr: nat, size: nat)
    requires total >= 12
    ensures WellFormed(Initial(total), total) && Live(Initial(total), addr) == map[]
    ensures AllocResult(Initial(total), addr, size) == if size <= total - 12 then addr + 12 else 0
  {
    assert Initial(total)[1..] == [];
  }

  /** Whatever was allocated and in whatever order it was freed: when nothing is live any more, the heap is back
      to the single free block of its initialisation. */
  lemma AllFreedIsInitial(total: nat, addr: nat, ops: seq<HeapOp>)
    requires total >= HEADER
    requires LegalRun(Initial(total), addr, ops) && Live(Run(Initial(total), addr, ops), addr) == map[]
    ensures Run(Initial(total), addr, ops) == Initial(total)
  {
    var initial := Initial(total);
    assert initial[1..] == [];
    RunKeepsWellFormed(initial, total, addr, ops);
    Canonical(Run(initial, addr, ops), initial, addr);
  }

  /** More generally two runs that leave the same allocations live leave the same heap. */
  lemma RunsWithSameLiveAgree(blocks: seq<Block>, total: nat, addr: nat, ops: seq<HeapOp>, others: seq<HeapOp>)
    requires WellFormed(blocks, total) && LegalRun(blocks, addr, ops) && LegalRun(blocks, addr, others)
    requires Live(Run(blocks, addr, ops), addr) == Live(Run(blocks, addr, others), addr)
    ensures Run(blocks, addr, ops) == Run(blocks, addr, others)
  {
    RunKeepsWellFormed(blocks, total, addr, ops);
    RunKeepsWellFormed(blocks, total, addr, others);
    Canonical(Run(blocks, addr, ops), Run(blocks, addr, others), addr);
  }

  // ----- memory safety of the allocations

  /** The addresses of the block headers. */
  function Headers(blocks: seq<Block>, addr: nat): set<nat> {
    if blocks == [] then {} else {addr} + Headers(blocks[1..], addr + HEADER + blocks[0].size)
  }

  lemma {:induction false} HeaderBounds(blocks: seq<Block>, addr: nat, a: nat)
    requires a in Headers(blocks, addr)
    ensures addr <= a && a + HEADER <= addr + Span(blocks)
  {
    if a != addr {
      HeaderBounds(blocks[1..], addr + HEADER + blocks[0].size, a);
    }
  }

  /** A live payload lies inside the heap, has its header right before it and overlaps no header. */
  lemma {:induction false} PayloadsAvoidHeaders(blocks: seq<Block>, addr: nat, p: nat, a: nat)
    requires p in Live(blocks, addr) && a in Headers(blocks, addr)
    ensures addr + HEADER <= p && p + Live(blocks, addr)[p] <= addr + Span(blocks)
    ensures p >= HEADER && p - HEADER in Headers(blocks, addr)
    ensures a + HEADER <= p || p + Live(blocks, addr)[p] <= a
  {
    var next := addr + HEADER + blocks[0].size;
    LiveBounds(blocks, addr, p);
    NotLiveBefore(blocks[1..], next, addr + HEADER);
    if p == addr + HEADER {
      if a != addr {
        HeaderBounds(blocks[1..], next, a);
      }
    } else if a == addr {
      HeaderOfLive(blocks, addr, p);
    } else {
      PayloadsAvoidHeaders(blocks[1..], next, p, a);
    }
  }

  lemma {:induction false} HeaderOfLive(blocks: seq<Block>, addr: nat, p: nat)
    requires p in Live(blocks, addr)
    ensures p >= HEADER && p - HEADER in Headers(blocks, addr)
  {
    if p != addr + HEADER || blocks[0].free {
      HeaderOfLive(blocks[1..], addr + HEADER + blocks[0].size, p);
    }
  }

  /** Two live payloads are disjoint, with the header of the later one between them. */
  lemma LivePayloadsDisjoint(blocks: seq<Block>, addr: nat, p: nat, q: nat)
    requires p in Live(blocks, addr) && q in Live(blocks, addr) && p < q
    ensures p + Live(blocks, addr)[p] + HEADER <= q
  {
    HeaderOfLive(blocks, addr, q);
    PayloadsAvoidHeaders(blocks, addr, p, q - HEADER);
  }

  // ----- fragmentation

  function FreeBlocks(blocks: seq<Block>): nat {
    if blocks == [] then 0 else FreeBlocks(blocks[1..]) + if blocks[0].free then 1 else 0
  }

  function UsedBlocks(blocks: seq<Block>): nat {
    if blocks == [] then 0 else UsedBlocks(blocks[1..]) + if blocks[0].free then 0 else 1
  }

  function FreeBytes(blocks: seq<Block>): nat {
    if blocks == [] then 0 else FreeBytes(blocks[1..]) + if blocks[0].free then blocks[0].size else 0
  }

  lemma {:induction false} FewFreeBlocks(blocks: seq<Block>)
    requires NoAdjacentFree(blocks)
    ensures FreeBlocks(blocks) <= UsedBlocks(blocks) + if blocks != [] && blocks[0].free then 1 else 0
  {
    if blocks != [] {
      assert forall i :: 0 <= i < |blocks| - 1 ==> blocks[1..][i] == blocks[i + 1];
      FewFreeBlocks(blocks[1..]);
    }
  }

  lemma {:induction false} SmallBlocksHoldLittle(blocks: seq<Block>, size: nat)
    requires size >= 1 && forall i :: 0 <= i < |blocks| && blocks[i].free ==> blocks[i].size <= size - 1
    ensures FreeBytes(blocks) <= FreeBlocks(blocks) * (size - 1)
  {
    if blocks != [] {
      assert forall i :: 0 <= i < |blocks| - 1 ==> blocks[1..][i] == blocks[i + 1];
      SmallBlocksHoldLittle(blocks[1..], size);
    }
  }

  /** Free blocks never outnumber used ones by more than one, so a request succeeds whenever the free bytes exceed
      what that many blocks too small for it could hold. */
  lemma FragmentationBound(blocks: seq<Block>, addr: nat, size: nat)
    requires NoAdjacentFree(blocks) && size >= 1
    requires FreeBytes(blocks) > (UsedBlocks(blocks) + 1) * (size - 1)
    ensures AllocResult(blocks, addr, size) != 0
  {
    AllocMeaning(blocks, addr, size);
    if AllocResult(blocks, addr, size) == 0 {
      SmallBlocksHoldLittle(blocks, size);
      FewFreeBlocks(blocks);
      MulMonotone(FreeBlocks(blocks), UsedBlocks(blocks) + 1, size - 1);
    }
  }

  lemma MulMonotone(a: nat, b: nat, c: nat)
    requires a <= b
    ensures a * c <= b * c
  {
  }
}
