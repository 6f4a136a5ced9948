/** The kernel heap as a sequence of blocks: what `Heap::alloc` and `Heap::free` do to it, and why its state is
    determined by the live allocations alone. */
module HeapSpec {
  const HEADER := 12       // sizeof(BlockHeader): a size, a flag padded to a word, a pointer
  const MIN_SPLIT := 16

  datatype Block = Block(size: nat, free: bool)

  // ----- layout

  /** The single free block that initialisation makes of the whole heap. */
  function Initial(total: nat): seq<Block>
    requires total >= HEADER
  {
    [Block(total - HEADER, true)]
  }

  function Span(blocks: seq<Block>): nat {
    if blocks == [] then 0 else HEADER + blocks[0].size + Span(blocks[1..])
  }

  ghost predicate NoAdjacentFree(blocks: seq<Block>) {
    forall i :: 0 <= i < |blocks| - 1 && blocks[i].free ==> !blocks[i + 1].free
  }

  /** The live allocations of blocks laid out from `addr` on: payload address to granted size. */
  function Live(blocks: seq<Block>, addr: nat): map<nat, nat> {
    if blocks == [] then map[]
    else
      var rest := Live(blocks[1..], addr + HEADER + blocks[0].size);
      if blocks[0].free then rest else rest[addr + HEADER := blocks[0].size]
  }

  lemma {:induction false} LiveBounds(blocks: seq<Block>, addr: nat, p: nat)
    requires p in Live(blocks, addr)
    ensures addr + HEADER <= p && p + Live(blocks, addr)[p] <= addr + Span(blocks)
  {
    if blocks[0].free || p != addr + HEADER {
      LiveBounds(blocks[1..], addr + HEADER + blocks[0].size, p);
    }
  }

  lemma NotLiveBefore(blocks: seq<Block>, addr: nat, p: nat)
    requires p < addr + HEADER
    ensures p !in Live(blocks, addr)
  {
    if p in Live(blocks, addr) {
      LiveBounds(blocks, addr, p);
    }
  }

  // ----- the state is determined by the live allocations

  /** Two heaps over the same memory without adjacent free blocks and with the same live allocations are the same. */
  lemma {:induction false} Canonical(a: seq<Block>, b: seq<Block>, addr: nat)
    requires NoAdjacentFree(a) && NoAdjacentFree(b)
    requires Span(a) == Span(b) && Live(a, addr) == Live(b, addr)
    ensures a == b
    decreases |a|
  {
    if a == [] || b == [] {
      assert a == [] && b == [];
    } else if a[0].free && b[0].free {
      SameFirstFree(a, b, addr);
      TailsAgree(a, b, addr);
      Canonical(a[1..], b[1..], addr + HEADER + a[0].size);
      assert a == [a[0]] + a[1..] && b == [b[0]] + b[1..];
    } else {
      if a[0].free {
        FirstUsed(b, a, addr);
      } else {
        FirstUsed(a, b, addr);
      }
      TailsAgree(a, b, addr);
      Canonical(a[1..], b[1..], addr + HEADER + a[0].size);
      assert a == [a[0]] + a[1..] && b == [b[0]] + b[1..];
    }
  }

  lemma FirstUsed(a: seq<Block>, b: seq<Block>, addr: nat)
    requires a != [] && b != [] && !a[0].free && Live(a, addr) == Live(b, addr)
    ensures a[0] == b[0]
  {
    assert addr + HEADER in Live(b, addr);
    NotLiveBefore(b[1..], addr + HEADER + b[0].size, addr + HEADER);
  }

  lemma SameFirstFree(a: seq<Block>, b: seq<Block>, addr: nat)
    requires a != [] && b != [] && a[0].free && b[0].free
    requires NoAdjacentFree(a) && NoAdjacentFree(b)
    requires Span(a) == Span(b) && Live(a, addr) == Live(b, addr)
    ensures a[0].size == b[0].size
  {
    NextUsed(a, b, addr);
    NextUsed(b, a, addr);
  }

  lemma NextUsed(a: seq<Block>, b: seq<Block>, addr: nat)
    requires a != [] && b != [] && a[0].free && b[0].free
    requires NoAdjacentFree(a) && Span(a) == Span(b) && Live(a, addr) == Live(b, addr)
    ensures b[0].size <= a[0].size
  {
    if |a| > 1 {
      var p := addr + HEADER + a[0].size + HEADER;
      assert p in Live(a, addr);
      LiveBounds(b[1..], addr + HEADER + b[0].size, p);
    } else {
      assert Span(a) == HEADER + a[0].size;
    }
  }

  lemma TailsAgree(a: seq<Block>, b: seq<Block>, addr: nat)
    requires a != [] && b != [] && a[0] == b[0]
    requires NoAdjacentFree(a) && NoAdjacentFree(b)
    requires Span(a) == Span(b) && Live(a, addr) == Live(b, addr)
    ensures NoAdjacentFree(a[1..]) && NoAdjacentFree(b[1..]) && Span(a[1..]) == Span(b[1..])
    ensures var next := addr + HEADER + a[0].size; Live(a[1..], next) == Live(b[1..], next)
  {
    var next := addr + HEADER + a[0].size;
    NotLiveBefore(a[1..], next, addr + HEADER);
    NotLiveBefore(b[1..], next, addr + HEADER);
    if !a[0].free {
      assert Live(a[1..], next) == Live(a, addr) - {addr + HEADER};
      assert Live(b[1..], next) == Live(b, addr) - {addr + HEADER};
    }
  }

  // ----- the operations

  predicate Fits(b: Block, size: nat) {
    b.free && b.size >= size
  }

  /** A fitting block taken for `size` bytes; the rest becomes a block of its own when it is worth it. */
  function Carve(b: Block, size: nat): seq<Block>
    requires Fits(b, size)
  {
    if b.size >= size + HEADER + MIN_SPLIT
    then [Block(size, false), Block(b.size - size - HEADER, true)]
    else [Block(b.size, false)]
  }

  /** First fit. */
  function Alloc(blocks: seq<Block>, size: nat): seq<Block> {
    if blocks == [] then []
    else if Fits(blocks[0], size) then Carve(blocks[0], size) + blocks[1..]
    else [blocks[0]] + Alloc(blocks[1..], size)
  }

  /** The payload address `alloc` returns; 0 stands for the null pointer. */
  function AllocResult(blocks: seq<Block>, addr: nat, size: nat): nat {
    if blocks == [] then 0
    else if Fits(blocks[0], size) then addr + HEADER
    else AllocResult(blocks[1..], addr + HEADER + blocks[0].size, size)
  }

  function MarkFree(blocks: seq<Block>, addr: nat, p: nat): seq<Block> {
    if blocks == [] then []
    else if p == addr + HEADER then [Block(blocks[0].size, true)] + blocks[1..]
    else [blocks[0]] + MarkFree(blocks[1..], addr + HEADER + blocks[0].size, p)
  }

  function Merge(a: Block, b: Block): Block {
    Block(a.size + HEADER + b.size, true)
  }

  /** The merge pass: every run of free blocks becomes one. */
  function Coalesce(blocks: seq<Block>): seq<Block>
    decreases |blocks|
  {
    if |blocks| < 2 then blocks
    else if blocks[0].free && blocks[1].free then Coalesce([Merge(blocks[0], blocks[1])] + blocks[2..])
    else [blocks[0]] + Coalesce(blocks[1..])
  }

  function Free(blocks: seq<Block>, addr: nat, p: nat): seq<Block> {
    Coalesce(MarkFree(blocks, addr, p))
  }
}
