/** The kernel heap object: headers linked in memory, walked and rewritten in place. */
module Heap {
  import opened Words
  import opened Sequences
  import opened BitSeqs
  import opened Hardware
  import opened Paging
  import opened FrameAlloc
  import opened FrameFacts
  import opened HeapSpec
  import opened HeapFacts

  datatype BlockHeader = BlockHeader(size: u32, free: bool, next: u32)   // next is 0 at the end of the list

  ghost predicate HeaderIs(memory: map<u32, BlockHeader>, addr: nat, size: nat, free: bool, next: nat) {
    addr in memory && memory[addr].size == size && memory[addr].free == free && memory[addr].next == next
  }

  /** The headers in memory for blocks laid out from `addr` on; the last of them links to `link`. */
  ghost predicate Linked(memory: map<u32, BlockHeader>, addr: nat, blocks: seq<Block>, link: nat)
    decreases |blocks|
  {
    blocks == [] ||
    (var next := addr + HEADER + blocks[0].size;
     && HeaderIs(memory, addr, blocks[0].size, blocks[0].free, if |blocks| == 1 then link else next)
     && Linked(memory, next, blocks[1..], link))
  }

  /** Memory keeps what it held, but for the headers at the given addresses. */
  ghost predicate SameOutside(memory: map<u32, BlockHeader>, after: map<u32, BlockHeader>, headers: set<nat>) {
    forall a :: a in memory && a !in headers ==> a in after && after[a] == memory[a]
  }

  lemma {:induction false} SpanAppend(a: seq<Block>, b: seq<Block>, addr: nat)
    ensures Span(a + b) == Span(a) + Span(b)
    ensures Headers(a + b, addr) == Headers(a, addr) + Headers(b, addr + Span(a))
  {
    if a == [] {
      assert a + b == b;
    } else {
      assert (a + b)[1..] == a[1..] + b;
      SpanAppend(a[1..], b, addr + HEADER + a[0].size);
    }
  }

  lemma {:induction false} LinkedAppend(memory: map<u32, BlockHeader>, addr: nat, a: seq<Block>, b: seq<Block>, link: nat)
    requires b != []
    ensures Linked(memory, addr, a + b, link) <==>
      Linked(memory, addr, a, addr + Span(a)) && Linked(memory, addr + Span(a), b, link)
    decreases |a|
  {
    if a == [] {
      assert a + b == b;
    } else {
      assert (a + b)[1..] == a[1..] + b;
      LinkedAppend(memory, addr + HEADER + a[0].size, a[1..], b, link);
    }
  }

  lemma HeadersWithin(blocks: seq<Block>, addr: nat)
    ensures forall a :: a in Headers(blocks, addr) ==> addr <= a < addr + Span(blocks)
  {
    forall a: nat {:trigger a in Headers(blocks, addr)} | a in Headers(blocks, addr)
      ensures addr <= a < addr + Span(blocks)
    {
      HeaderBounds(blocks, addr, a);
    }
  }

  /** Writes elsewhere in memory, to payloads or stale headers, do not disturb the list. */
  lemma {:induction false} LinkedElsewhere(memory: map<u32, BlockHeader>, after: map<u32, BlockHeader>,
                                           addr: nat, blocks: seq<Block>, link: nat)
    requires Linked(memory, addr, blocks, link)
    requires forall a :: a in Headers(blocks, addr) && a in memory ==> a in after && after[a] == memory[a]
    ensures Linked(after, addr, blocks, link)
    decreases |blocks|
  {
    if blocks != [] {
      LinkedElsewhere(memory, after, addr + HEADER + blocks[0].size, blocks[1..], link);
    }
  }

  /** Replacing the first block of a suffix: the rest of the list is untouched by writes between its header and
      the header after it. */
  lemma Relink(memory: map<u32, BlockHeader>, after: map<u32, BlockHeader>,
               head: nat, done: seq<Block>, old1: seq<Block>, new1: seq<Block>, rest: seq<Block>)
    requires old1 != [] && new1 != [] && Span(old1) == Span(new1)
    requires Linked(memory, head, done + old1 + rest, 0)
    requires var here := head + Span(done);
      var link := if rest == [] then 0 else here + Span(new1);
      && Linked(after, here, new1, link)
      && forall a :: a in memory && !(here <= a < here + Span(new1)) ==> a in after && after[a] == memory[a]
    ensures Linked(after, head, done + new1 + rest, 0)
  {
    var here := head + Span(done);
    assert done + old1 + rest == done + (old1 + rest) && done + new1 + rest == done + (new1 + rest);
    LinkedAppend(memory, head, done, old1 + rest, 0);
    LinkedAppend(after, head, done, new1 + rest, 0);
    HeadersWithin(done, head);
    LinkedElsewhere(memory, after, head, done, here);
    if rest == [] {
      assert new1 + rest == new1;
    } else {
      LinkedAppend(memory, here, old1, rest, 0);
      LinkedAppend(after, here, new1, rest, 0);
      HeadersWithin(rest, here + Span(old1));
      LinkedElsewhere(memory, after, here + Span(old1), rest, 0);
    }
  }

  /** The allocator has neither the first nor the last frame of the address space to give. */
  ghost predicate FreeAboveZero(used: seq<bool>, limit: nat) {
    forall f :: 0 <= f < limit <= |used| && !used[f] ==> 0 < f < PAGE_COUNT - 1
  }

  lemma HeapFrames(used: seq<bool>, limit: nat, count: nat)
    requires limit <= |used| && 0 < count <= FreeCount(used, limit) && FreeAboveZero(used, limit)
    ensures var frames := TakeMany(used, limit, count).1;
      0 < frames[0] <= frames[count - 1] < PAGE_COUNT - 1
  {
    TakeManyIsLowest(used, limit, count);
  }

  /** What the walk finds at the first block of `rest`. */
  lemma AtBlock(memory: map<u32, BlockHeader>, head: nat, done: seq<Block>, rest: seq<Block>)
    requires rest != [] && Linked(memory, head, done + rest, 0)
    ensures var here := head + Span(done);
      && HeaderIs(memory, here, rest[0].size, rest[0].free, if |rest| == 1 then 0 else here + HEADER + rest[0].size)
      && here + HEADER + rest[0].size <= head + Span(done + rest)
  {
    LinkedAppend(memory, head, done, rest, 0);
    SpanAppend(done, rest, head);
  }

  lemma Advance(head: nat, done: seq<Block>, rest: seq<Block>)
    requires rest != []
    ensures done + rest == (done + [rest[0]]) + rest[1..]
    ensures Span(done + [rest[0]]) == Span(done) + HEADER + rest[0].size
  {
    SpanAppend(done, [rest[0]], head);
  }

  lemma SkipBlock(head: nat, done: seq<Block>, rest: seq<Block>, size: nat)
    requires rest != [] && !Fits(rest[0], size)
    ensures done + HeapSpec.Alloc(rest, size) == (done + [rest[0]]) + HeapSpec.Alloc(rest[1..], size)
    ensures AllocResult(rest, head + Span(done), size) ==
            AllocResult(rest[1..], head + Span(done + [rest[0]]), size)
  {
    Advance(head, done, rest);
    AppendAssociates(done, [rest[0]], HeapSpec.Alloc(rest[1..], size));
  }

  /** The headers written when the first block of `rest` is taken. */
  lemma CarveHere(memory: map<u32, BlockHeader>, after: map<u32, BlockHeader>,
                  head: nat, done: seq<Block>, rest: seq<Block>, size: nat)
    requires rest != [] && Fits(rest[0], size) && Linked(memory, head, done + rest, 0)
    requires var here := head + Span(done);
      var link := if |rest| == 1 then 0 else here + HEADER + rest[0].size;
      && Linked(after, here, Carve(rest[0], size), link)
      && SameOutside(memory, after, Headers(Carve(rest[0], size), here))
    ensures var blocks := done + (Carve(rest[0], size) + rest[1..]);
      && Linked(after, head, blocks, 0)
      && SameOutside(memory, after, Headers(blocks, head))
  {
    var here := head + Span(done);
    var carved := Carve(rest[0], size);
    assert done + rest == done + [rest[0]] + rest[1..];
    assert done + (carved + rest[1..]) == done + carved + rest[1..];
    CarveSpan(rest[0], size);
    HeadersWithin(carved, here);
    Relink(memory, after, head, done, [rest[0]], carved, rest[1..]);
    SpanAppend(done, carved + rest[1..], head);
    SpanAppend(carved, rest[1..], here);
  }

  /** The one or two headers `alloc` writes. */
  lemma CarvedLinks(memory: map<u32, BlockHeader>, here: nat, rest: seq<Block>, size: nat)
    requires rest != [] && Fits(rest[0], size)
    requires var link := if |rest| == 1 then 0 else here + HEADER + rest[0].size;
      if rest[0].size >= size + HEADER + MIN_SPLIT then
        && HeaderIs(memory, here, size, false, here + HEADER + size)
        && HeaderIs(memory, here + HEADER + size, rest[0].size - size - HEADER, true, link)
      else HeaderIs(memory, here, rest[0].size, false, link)
    ensures var link := if |rest| == 1 then 0 else here + HEADER + rest[0].size;
      Linked(memory, here, Carve(rest[0], size), link)
    ensures Headers(Carve(rest[0], size), here) ==
      if rest[0].size >= size + HEADER + MIN_SPLIT then {here, here + HEADER + size} else {here}
  {
    var carved := Carve(rest[0], size);
    if rest[0].size >= size + HEADER + MIN_SPLIT {
      assert carved[1..] == [Block(rest[0].size - size - HEADER, true)];
      assert carved[1..][1..] == [];
      assert Headers(carved[1..], here + HEADER + size) == {here + HEADER + size};
    } else {
      assert carved[1..] == [];
    }
  }

  lemma CarveSpan(b: Block, size: nat)
    requires Fits(b, size)
    ensures Span(Carve(b, size)) == Span([b]) == HEADER + b.size
  {
    assert [b][1..] == [];
    if b.size >= size + HEADER + MIN_SPLIT {
      assert Carve(b, size)[1..] == [Block(b.size - size - HEADER, true)];
      assert Carve(b, size)[1..][1..] == [];
    }
  }

  lemma WholePages(start: u32, end: u32, first: nat, last: nat)
    requires start == first * PAGE_SIZE && end == last * PAGE_SIZE && first <= last && end < 0xFFFF_F000
    ensures PageOf(start) == first && PageSpan(start, Add32(end, PAGE_SIZE)) == last - first + 1
  {
    PageStart(start, first);
  }

  class Heap {
    var head: u32
    var totalSize: u32
    var memory: map<u32, BlockHeader>
    ghost var blocks: seq<Block>

    ghost predicate Valid()
      reads this
    {
      && PAGE_SIZE <= head && head + totalSize < 0x1_0000_0000
      && blocks != [] && WellFormed(blocks, totalSize)
      && Linked(memory, head, blocks, 0)
    }

    /** `heapMemory` is whatever the frames held before. */
    constructor (fa: FrameAllocator, pd: PageDirectory, numPages: nat, heapMemory: map<u32, BlockHeader>)
      requires fa.Valid() && pd.Valid() && FreeAboveZero(fa.Used(), fa.Limit())
      requires 0 < numPages <= FreeCount(fa.Used(), fa.Limit())
      modifies fa.bitmap, pd.tables, pd`log
      ensures fa.Valid() && pd.Valid() && Valid()
      ensures var (used, frames) := TakeMany(old(fa.Used()), fa.Limit(), numPages);
        && fa.Used() == used
        && head == frames[0] * PAGE_SIZE && head + totalSize == (frames[numPages - 1] + 1) * PAGE_SIZE
        && blocks == Initial(totalSize)
        && pd.Flat() == Splice(old(pd.Flat()), frames[0], Mapping(frames[0], frames[numPages - 1] - frames[0] + 1))
        && pd.log == old(pd.log) + Writes(frames[0], Mapping(frames[0], frames[numPages - 1] - frames[0] + 1))
    {
      var heapStart, heapEnd := TakeFrames(fa, pd, numPages);
      totalSize := heapEnd + PAGE_SIZE - heapStart;
      head := heapStart;
      memory := heapMemory[heapStart := BlockHeader(heapEnd + PAGE_SIZE - heapStart - HEADER, true, 0)];
      blocks := [Block(heapEnd + PAGE_SIZE - heapStart - HEADER, true)];
    }

    static method TakeFrames(fa: FrameAllocator, pd: PageDirectory, numPages: nat) returns (start: u32, end: u32)
      requires fa.Valid() && pd.Valid() && FreeAboveZero(fa.Used(), fa.Limit())
      requires 0 < numPages <= FreeCount(fa.Used(), fa.Limit())
      modifies fa.bitmap, pd.tables, pd`log
      ensures fa.Valid() && pd.Valid()
      ensures PAGE_SIZE <= start <= end < 0xFFFF_F000
      ensures var (used, frames) := TakeMany(old(fa.Used()), fa.Limit(), numPages);
        && fa.Used() == used
        && start == frames[0] * PAGE_SIZE && end == frames[numPages - 1] * PAGE_SIZE
        && pd.Flat() == Splice(old(pd.Flat()), frames[0], Mapping(frames[0], frames[numPages - 1] - frames[0] + 1))
        && pd.log == old(pd.log) + Writes(frames[0], Mapping(frames[0], frames[numPages - 1] - frames[0] + 1))
    {
      HeapFrames(fa.Used(), fa.Limit(), numPages);
      start, end := fa.AllocFrames(numPages);
      ghost var frames := TakeMany(old(fa.Used()), fa.Limit(), numPages).1;
      WholePages(start, end, frames[0], frames[numPages - 1]);
      pd.IdentityMapRange(start, Add32(end, PAGE_SIZE));
    }

    /** The walk of `alloc`: the first block that fits, after the blocks `done`; 0 when there is none. */
    method FindFit(size: u32) returns (block: u32, ghost done: seq<Block>, ghost rest: seq<Block>)
      requires Valid()
      ensures blocks == done + rest && block as int == (if rest == [] then 0 else head + Span(done))
      ensures rest != [] ==> Fits(rest[0], size)
      ensures HeapSpec.Alloc(blocks, size) == done + HeapSpec.Alloc(rest, size)
      ensures AllocResult(blocks, head, size) == if block == 0 then 0 else block + HEADER
    {
      block := head;
      done, rest := [], blocks;
      while block != 0
        invariant blocks == done + rest && block as int == (if rest == [] then 0 else head + Span(done))
        invariant HeapSpec.Alloc(blocks, size) == done + HeapSpec.Alloc(rest, size)
        invariant AllocResult(blocks, head, size) == AllocResult(rest, head + Span(done), size)
        decreases |rest|
      {
        AtBlock(memory, head, done, rest);
        if !memory[block].free || memory[block].size < size {
          block := memory[block].next;
          Advance(head, done, rest);
          SkipBlock(head, done, rest, size);
          done, rest := done + [rest[0]], rest[1..];
          continue;
        }
        return;
      }
    }

    method Alloc(size: u32) returns (ptr: u32)
      requires Valid()
      modifies `memory, `blocks
      ensures Valid()
      ensures blocks == HeapSpec.Alloc(old(blocks), size) && ptr == AllocResult(old(blocks), head, size)
      ensures SameOutside(old(memory), memory, Headers(blocks, head))
    {
      ghost var done, rest;
      var block;
      block, done, rest := FindFit(size);
      if block == 0 {
        return 0;
      }
      AtBlock(memory, head, done, rest);
      AllocKeepsWellFormed(blocks, totalSize, size);
      if memory[block].size >= Add32(Add32(size, HEADER), MIN_SPLIT) {
        var newBlock := Add32(Add32(block, HEADER), size);
        memory := memory[newBlock := BlockHeader(memory[block].size - size - HEADER, true, memory[block].next)];
        memory := memory[block := BlockHeader(size, false, newBlock)];
      } else {
        memory := memory[block := memory[block].(free := false)];
      }
      CarvedLinks(memory, block, rest, size);
      CarveHere(old(memory), memory, head, done, rest, size);
      blocks := done + (Carve(rest[0], size) + rest[1..]);
      return block + HEADER;
    }

    method Free(ptr: u32)
      requires Valid() && (ptr == 0 || ptr in Live(blocks, head))
      modifies `memory, `blocks
      ensures Valid()
      ensures blocks == if ptr == 0 then old(blocks) else HeapSpec.Free(old(blocks), head, ptr)
      ensures SameOutside(old(memory), memory, Headers(old(blocks), head))
    {
      if ptr == 0 {
        return;
      }
      FreeMeaning(blocks, totalSize, head, ptr);
      MarkFreeMeaning(blocks, head, ptr);
      ghost var done, rest := Locate(blocks, head, ptr);
      AtBlock(memory, head, done, rest);
      var block := ptr - HEADER;
      memory := memory[block := memory[block].(free := true)];
      MarkHere(old(memory), memory, head, done, rest);
      blocks := MarkFree(blocks, head, ptr);
      MergePass();
    }

    ghost predicate Chained()
      reads this
    {
      && PAGE_SIZE <= head && head + totalSize < 0x1_0000_0000
      && blocks != [] && Span(blocks) == totalSize
      && Linked(memory, head, blocks, 0)
    }

    method MergePass()
      requires Chained()
      modifies `memory, `blocks
      ensures Chained() && blocks == Coalesce(old(blocks))
      ensures SameOutside(old(memory), memory, Headers(old(blocks), head))
    {
      var current := head;
      ghost var done, rest, goal, headers := [], blocks, Coalesce(blocks), Headers(blocks, head);
      while current != 0
        invariant Chained() && blocks == done + rest && goal == done + Coalesce(rest)
        invariant current as int == (if rest == [] then 0 else head + Span(done))
        invariant Headers(blocks, head) <= headers && SameOutside(old(memory), memory, headers)
        decreases |rest|
      {
        rest := MergeAt(current, done, rest);
        current := NextOf(current, done, rest);
        done, rest := done + [rest[0]], rest[1..];
      }
    }

    method NextOf(current: u32, ghost done: seq<Block>, ghost rest: seq<Block>) returns (next: u32)
      requires Chained() && rest != [] && blocks == done + rest && current == head + Span(done)
      requires !(|rest| > 1 && rest[0].free && rest[1].free)
      ensures next as int == (if rest[1..] == [] then 0 else head + Span(done + [rest[0]]))
      ensures blocks == (done + [rest[0]]) + rest[1..]
      ensures done + Coalesce(rest) == (done + [rest[0]]) + Coalesce(rest[1..])
    {
      Neighbour(memory, head, done, rest);
      CoalesceAdvance(head, done, rest);
      next := memory[current].next;
    }

    /** The inner loop of the merge pass: the block at `current` absorbs the free blocks after it. */
    method MergeAt(current: u32, ghost done: seq<Block>, ghost was: seq<Block>) returns (ghost rest: seq<Block>)
      requires Chained() && was != [] && blocks == done + was && current == head + Span(done)
      modifies `memory, `blocks
      ensures Chained() && rest != [] && |rest| <= |was| && blocks == done + rest
      ensures Coalesce(rest) == Coalesce(was) && !(|rest| > 1 && rest[0].free && rest[1].free)
      ensures Headers(blocks, head) <= Headers(old(blocks), head)
      ensures SameOutside(old(memory), memory, Headers(old(blocks), head))
    {
      rest := was;
      Neighbour(memory, head, done, rest);
      while memory[current].free && memory[current].next != 0 && memory[memory[current].next].free
        invariant Chained() && rest != [] && |rest| <= |was| && blocks == done + rest
        invariant Coalesce(rest) == Coalesce(was) && FirstTwo(memory, current, rest)
        invariant Headers(blocks, head) <= Headers(old(blocks), head)
        invariant SameOutside(old(memory), memory, Headers(old(blocks), head))
        decreases |rest|
      {
        Absorb(current, done, rest);
        rest := [Merge(rest[0], rest[1])] + rest[2..];
      }
    }

    method Absorb(current: u32, ghost done: seq<Block>, ghost rest: seq<Block>)
      requires Chained() && |rest| >= 2 && blocks == done + rest && current == head + Span(done)
      requires rest[0].free && rest[1].free
      modifies `memory, `blocks
      ensures var merged := [Merge(rest[0], rest[1])] + rest[2..];
        && Chained() && blocks == done + merged
        && Coalesce(merged) == Coalesce(rest) && FirstTwo(memory, current, merged)
      ensures Headers(blocks, head) <= Headers(old(blocks), head)
      ensures SameOutside(old(memory), memory, Headers(old(blocks), head))
    {
      Neighbour(memory, head, done, rest);
      var next := memory[current].next;
      memory := memory[current := memory[current].(size := Add32(memory[current].size, Add32(HEADER, memory[next].size)))];
      memory := memory[current := memory[current].(next := memory[memory[current].next].next)];
      MergeHere(old(memory), memory, head, done, rest);
      MergedLayout(head, done, rest);
      blocks := done + ([Merge(rest[0], rest[1])] + rest[2..]);
      Neighbour(memory, head, done, [Merge(rest[0], rest[1])] + rest[2..]);
    }
  }

  /** Where the block of a live allocation lies, and what marking it free does. */
  lemma {:induction false} Locate(blocks: seq<Block>, addr: nat, p: nat) returns (done: seq<Block>, rest: seq<Block>)
    requires p in Live(blocks, addr)
    ensures blocks == done + rest && rest != [] && p == addr + Span(done) + HEADER
    ensures MarkFree(blocks, addr, p) == done + ([Block(rest[0].size, true)] + rest[1..])
  {
    if p == addr + HEADER {
      done, rest := [], blocks;
    } else {
      done, rest := Locate(blocks[1..], addr + HEADER + blocks[0].size, p);
      AppendAssociates([blocks[0]], done, rest);
      AppendAssociates([blocks[0]], done, [Block(rest[0].size, true)] + rest[1..]);
      done := [blocks[0]] + done;
      assert done[1..] + rest == blocks[1..];
    }
  }

  lemma MarkHere(memory: map<u32, BlockHeader>, after: map<u32, BlockHeader>, head: nat, done: seq<Block>, rest: seq<Block>)
    requires rest != [] && Linked(memory, head, done + rest, 0)
    requires var here := head + Span(done);
      && HeaderIs(after, here, rest[0].size, true, if |rest| == 1 then 0 else here + HEADER + rest[0].size)
      && SameOutside(memory, after, {here})
    ensures var marked := done + ([Block(rest[0].size, true)] + rest[1..]);
      && Linked(after, head, marked, 0)
      && Headers(marked, head) == Headers(done + rest, head)
      && head + Span(done) in Headers(marked, head)
  {
    var one := [Block(rest[0].size, true)];
    assert one[1..] == [] && [rest[0]][1..] == [];
    assert [rest[0]] + rest[1..] == rest;
    AppendAssociates(done, [rest[0]], rest[1..]);
    AppendAssociates(done, one, rest[1..]);
    Relink(memory, after, head, done, [rest[0]], one, rest[1..]);
    SameHeaders(head, done, rest);
  }

  lemma SameHeaders(head: nat, done: seq<Block>, rest: seq<Block>)
    requires rest != []
    ensures var marked := done + ([Block(rest[0].size, true)] + rest[1..]);
      Headers(marked, head) == Headers(done + rest, head) && head + Span(done) in Headers(marked, head)
  {
    var now := [Block(rest[0].size, true)] + rest[1..];
    assert now[1..] == rest[1..];
    SpanAppend(done, rest, head);
    SpanAppend(done, now, head);
  }

  /** The headers of the first two blocks of `rest`. */
  ghost predicate FirstTwo(memory: map<u32, BlockHeader>, here: nat, rest: seq<Block>)
    requires rest != []
  {
    var next := here + HEADER + rest[0].size;
    && next > 0
    && HeaderIs(memory, here, rest[0].size, rest[0].free, if |rest| == 1 then 0 else next)
    && (|rest| > 1 ==>
          HeaderIs(memory, next, rest[1].size, rest[1].free, if |rest| == 2 then 0 else next + HEADER + rest[1].size))
  }

  lemma Neighbour(memory: map<u32, BlockHeader>, head: nat, done: seq<Block>, rest: seq<Block>)
    requires rest != [] && Linked(memory, head, done + rest, 0)
    ensures FirstTwo(memory, head + Span(done), rest)
    ensures head + Span(done) + Span(rest) == head + Span(done + rest)
    ensures |rest| > 1 ==> Span(rest) >= HEADER + rest[0].size + HEADER + rest[1].size
  {
    AtBlock(memory, head, done, rest);
    SpanAppend(done, rest, head);
    if |rest| > 1 {
      Advance(head, done, rest);
      AtBlock(memory, head, done + [rest[0]], rest[1..]);
    }
  }

  lemma CoalesceAdvance(head: nat, done: seq<Block>, rest: seq<Block>)
    requires rest != [] && !(|rest| > 1 && rest[0].free && rest[1].free)
    ensures done + Coalesce(rest) == (done + [rest[0]]) + Coalesce(rest[1..])
    ensures done + rest == (done + [rest[0]]) + rest[1..]
    ensures Span(done + [rest[0]]) == Span(done) + HEADER + rest[0].size
  {
    Advance(head, done, rest);
    assert Coalesce(rest) == [rest[0]] + Coalesce(rest[1..]);
    AppendAssociates(done, [rest[0]], Coalesce(rest[1..]));
  }

  lemma MergedLayout(head: nat, done: seq<Block>, rest: seq<Block>)
    requires |rest| >= 2 && rest[0].free && rest[1].free
    ensures var merged := [Merge(rest[0], rest[1])] + rest[2..];
      && Span(done + merged) == Span(done + rest) && Coalesce(merged) == Coalesce(rest)
      && Headers(done + merged, head) <= Headers(done + rest, head)
      && head + Span(done) in Headers(done + rest, head)
  {
    var merged := [Merge(rest[0], rest[1])] + rest[2..];
    SpanAppend(done, rest, head);
    SpanAppend(done, merged, head);
    assert rest[1..][1..] == rest[2..] == merged[1..];
  }

  lemma MergeHere(memory: map<u32, BlockHeader>, after: map<u32, BlockHeader>, head: nat, done: seq<Block>, rest: seq<Block>)
    requires |rest| >= 2 && rest[0].free && rest[1].free && Linked(memory, head, done + rest, 0)
    requires var here := head + Span(done);
      var merged := Merge(rest[0], rest[1]);
      && HeaderIs(after, here, merged.size, true, if |rest| == 2 then 0 else here + HEADER + merged.size)
      && SameOutside(memory, after, {here})
    ensures Linked(after, head, done + ([Merge(rest[0], rest[1])] + rest[2..]), 0)
  {
    var one := [Merge(rest[0], rest[1])];
    assert one[1..] == [] && rest[..2][1..] == [rest[1]] && rest[..2][1..][1..] == [];
    assert rest[..2] + rest[2..] == rest;
    AppendAssociates(done, rest[..2], rest[2..]);
    AppendAssociates(done, one, rest[2..]);
    Relink(memory, after, head, done, rest[..2], one, rest[2..]);
  }
}
