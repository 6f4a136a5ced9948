/** The physical frame allocator: a word-packed bitmap over the frames of the 32-bit address space. */
module FrameAlloc {
  import opened Words
  import opened BitWords
  import opened BitSeqs
  import opened E820

  const BITMAP_WORDS := 0x8000   // one bit for each of the 2^20 frames a 32-bit address can name

  // ----- what initialisation and allocation compute

  function HighestEnd(entries: seq<Entry820>): (highest: u32)
    ensures forall i :: 0 <= i < |entries| && entries[i].Usable() ==> entries[i].End() <= highest
    ensures highest == 0 || exists i :: 0 <= i < |entries| && entries[i].Usable() && entries[i].End() == highest
  {
    if entries == [] then 0
    else
      var last := entries[|entries| - 1];
      var rest := HighestEnd(entries[..|entries| - 1]);
      assert forall i :: 0 <= i < |entries| - 1 ==> entries[..|entries| - 1][i] == entries[i];
      if last.Usable() && last.End() > rest then last.End() else rest
  }

  function BitmapSize(entries: seq<Entry820>): (size: nat)
    ensures size <= 4 * BITMAP_WORDS
  {
    (HighestEnd(entries) / PAGE_SIZE + 7) / 8
  }

  /** The first frame past the low 1 MB, the page tables and the bitmap itself. */
  function FirstUnreserved(bitmapSize: nat): nat
    requires bitmapSize <= 4 * BITMAP_WORDS
  {
    PageOf(AlignUp(BITMAP_BASE + bitmapSize))
  }

  /** The bit of a frame after initialisation, given what its memory held before. */
  predicate InitiallyUsed(held: bool, bitmapSize: nat, usable: bool, frame: nat)
    requires bitmapSize <= 4 * BITMAP_WORDS
  {
    frame < FirstUnreserved(bitmapSize) || (!usable && (frame < 8 * bitmapSize || held))
  }

  function InitialUsed(memory: seq<bool>, entries: seq<Entry820>): (used: seq<bool>)
    requires |memory| == PAGE_COUNT
    ensures |used| == PAGE_COUNT
    ensures forall frame :: 0 <= frame < PAGE_COUNT ==>
      used[frame] == InitiallyUsed(memory[frame], BitmapSize(entries), UsablePage(entries, frame), frame)
  {
    seq(PAGE_COUNT, frame requires 0 <= frame < PAGE_COUNT =>
      InitiallyUsed(memory[frame], BitmapSize(entries), UsablePage(entries, frame), frame))
  }

  /** One allocation: the lowest free frame below `limit`, or 0 when there is none. */
  function Take(used: seq<bool>, limit: nat): (r: (seq<bool>, nat))
    requires limit <= |used|
    ensures |r.0| == |used|
  {
    var frame := FirstFree(used, limit);
    if frame < limit then (used[frame := true], frame) else (used, 0)
  }

  /** `count` allocations in a row: the bitmap they leave and the frames they return, in order. */
  function TakeMany(used: seq<bool>, limit: nat, count: nat): (r: (seq<bool>, seq<nat>))
    requires limit <= |used|
    ensures |r.0| == |used| && |r.1| == count
    ensures forall i :: 0 <= i < count ==> r.1[i] == 0 || r.1[i] < limit
  {
    if count == 0 then (used, [])
    else
      var (before, frames) := TakeMany(used, limit, count - 1);
      var (after, frame) := Take(before, limit);
      (after, frames + [frame])
  }

  class FrameAllocator {
    var bitmap: array<bv32>
    var totalFrames: u32
    var bitmapSize: u32

    ghost predicate Valid()
      reads this
    {
      && bitmap.Length == BITMAP_WORDS
      && totalFrames < PAGE_COUNT
      && bitmapSize == (totalFrames + 7) / 8
    }

    ghost function Used(): (used: seq<bool>)
      requires Valid()
      reads this, bitmap
      ensures |used| == PAGE_COUNT
    {
      Bits(bitmap[..])
    }

    /** Frames the allocation scan looks at: whole words only. */
    function Limit(): (limit: nat)
      requires Valid()
      reads this
      ensures limit <= PAGE_COUNT && limit <= totalFrames + 7
    {
      bitmapSize / 4 * 32
    }

    constructor (mmap: MemoryMap, memory: array<bv32>)
      requires memory.Length == BITMAP_WORDS
      modifies memory
      ensures Valid() && bitmap == memory
      ensures totalFrames == HighestEnd(mmap.entries) / PAGE_SIZE && bitmapSize == BitmapSize(mmap.entries)
      ensures Used() == InitialUsed(old(Bits(memory[..])), mmap.entries)
    {
      var highest := FindHighest(mmap.entries);
      totalFrames := highest / PAGE_SIZE;
      bitmapSize := (highest / PAGE_SIZE + 7) / 8;
      bitmap := memory;
      new;
      FillBytes(bitmap, bitmapSize, true);
      MarkUsable(mmap.entries);
      MarkReserved();
    }

    static method FindHighest(entries: seq<Entry820>) returns (highest: u32)
      ensures highest == HighestEnd(entries)
    {
      highest := 0;
      for i := 0 to |entries|
        invariant highest == HighestEnd(entries[..i])
      {
        assert entries[..i + 1][..i] == entries[..i];
        if entries[i].kind != 1 {
          continue;
        }
        if entries[i].End() > highest {
          highest := entries[i].End();
        }
      }
      assert entries[..|entries|] == entries;
    }

    method MarkUsable(entries: seq<Entry820>)
      requires Valid()
      modifies bitmap
      ensures forall frame :: 0 <= frame < PAGE_COUNT ==>
        Used()[frame] == (!UsablePage(entries, frame) && old(Used())[frame])
    {
      for i := 0 to |entries|
        invariant forall frame :: 0 <= frame < PAGE_COUNT ==>
          Used()[frame] == (!UsablePage(entries[..i], frame) && old(Used())[frame])
      {
        ExtendUsable(entries, i);
        if entries[i].kind != 1 {
          continue;
        }
        Mark(entries[i].Start(), entries[i].End(), true);
      }
      assert entries[..|entries|] == entries;
    }

    method MarkReserved()
      requires Valid()
      modifies bitmap
      ensures Used() == SetRange(old(Used()), 0, FirstUnreserved(bitmapSize), true)
    {
      ReservedPrefix(Used(), bitmapSize);
      Mark(0, PAGE_TABLES_BASE, false);
      Mark(PAGE_TABLES_BASE, BITMAP_BASE, false);
      Mark(BITMAP_BASE, BITMAP_BASE + bitmapSize, false);
    }

    method Mark(start: u32, end: u32, free: bool)
      requires Valid()
      modifies bitmap
      ensures Used() == SetRange(old(Used()), PageOf(start), PageSpan(start, end), !free)
    {
      var addr := AlignDown(start);
      ghost var n := 0;
      while addr < AlignUp(end) && addr >= AlignDown(start)
        invariant addr == (PageOf(start) + n) * PAGE_SIZE
        invariant 0 <= n <= PageSpan(start, end)
        invariant Used() == SetRange(old(Used()), PageOf(start), n, !free)
        decreases PageSpan(start, end) - n
      {
        if free {
          MarkFree(addr);
        } else {
          MarkUsed(addr);
        }
        addr := Add32(addr, PAGE_SIZE);
        n := n + 1;
      }
    }

    method MarkUsed(addr: u32)
      requires Valid()
      modifies bitmap
      ensures Used() == old(Used())[PageOf(addr) := true]
    {
      var frame := PageOf(addr);
      BitsSet(bitmap[..], frame);
      ghost var words := bitmap[..];
      bitmap[frame / 32] := SetBit(bitmap[frame / 32], frame % 32);
      assert bitmap[..] == words[frame / 32 := SetBit(words[frame / 32], frame % 32)];
    }

    method MarkFree(addr: u32)
      requires Valid()
      modifies bitmap
      ensures Used() == old(Used())[PageOf(addr) := false]
    {
      var frame := PageOf(addr);
      BitsClear(bitmap[..], frame);
      ghost var words := bitmap[..];
      bitmap[frame / 32] := ClearBit(bitmap[frame / 32], frame % 32);
      assert bitmap[..] == words[frame / 32 := ClearBit(words[frame / 32], frame % 32)];
    }

    method AllocFrame() returns (addr: u32)
      requires Valid()
      modifies bitmap
      ensures var (used, frame) := Take(old(Used()), Limit());
        Used() == used && addr == frame * PAGE_SIZE
    {
      ghost var used := Used();
      for i := 0 to bitmapSize / 4
        invariant Used() == used
        invariant forall k :: 0 <= k < 32 * i ==> used[k]
      {
        if bitmap[i] == 0xFFFF_FFFF {
          FullWord(bitmap[..], i);
          continue;
        }
        for j := 0 to 32
          invariant Used() == used
          invariant forall k :: 0 <= k < 32 * i + j ==> used[k]
        {
          NextBit(bitmap[..], i, j);
          if !BitSet(bitmap[i], j) {
            TakeIs(used, Limit(), 32 * i + j);
            SetBitAt(i, j);
            return (i * 32 + j) * PAGE_SIZE;
          }
        }
      }
      TakeIs(used, Limit(), Limit());
      return 0;
    }

    method SetBitAt(i: nat, j: nat)
      requires Valid() && i < BITMAP_WORDS && j < 32
      modifies bitmap
      ensures Used() == old(Used())[32 * i + j := true]
    {
      BitsSet(bitmap[..], 32 * i + j);
      ghost var words := bitmap[..];
      bitmap[i] := SetBit(bitmap[i], j);
      assert bitmap[..] == words[i := SetBit(words[i], j)];
    }

    /** The loop with which the heap and the memory manager take their own frames. */
    method AllocFrames(count: nat) returns (first: u32, last: u32)
      requires Valid()
      modifies bitmap
      ensures var (used, frames) := TakeMany(old(Used()), Limit(), count);
        && Used() == used
        && first == (if count > 0 then frames[0] * PAGE_SIZE else 0)
        && last == (if count > 0 then frames[count - 1] * PAGE_SIZE else 0)
    {
      first, last := 0, 0;
      for i := 0 to count
        invariant Used() == TakeMany(old(Used()), Limit(), i).0
        invariant i > 0 ==> first == TakeMany(old(Used()), Limit(), i).1[0] * PAGE_SIZE
        invariant i > 0 ==> last == TakeMany(old(Used()), Limit(), i).1[i - 1] * PAGE_SIZE
        invariant i == 0 ==> first == last == 0
      {
        last := AllocFrame();
        if i == 0 {
          first := last;
        }
      }
    }

    method FreeFrame(addr: u32)
      requires Valid()
      modifies bitmap
      ensures Used() == old(Used())[PageOf(addr) := false]
    {
      MarkFree(addr);
    }
  }

  lemma FullWord(words: seq<bv32>, i: nat)
    requires i < |words| && words[i] == 0xFFFF_FFFF
    ensures forall k :: 32 * i <= k < 32 * i + 32 ==> Bits(words)[k]
  {
    forall k | 32 * i <= k < 32 * i + 32
      ensures Bits(words)[k]
    {
      BitAt(words, k);
      AllOnesBit(k % 32);
    }
  }

  lemma NextBit(words: seq<bv32>, i: nat, j: nat)
    requires i < |words| && j < 32
    ensures Bits(words)[32 * i + j] == BitSet(words[i], j)
  {
    BitAt(words, 32 * i + j);
  }

  lemma TakeIs(used: seq<bool>, limit: nat, k: nat)
    requires k <= limit <= |used| && (forall i :: 0 <= i < k ==> used[i]) && (k < limit ==> !used[k])
    ensures Take(used, limit) == if k < limit then (used[k := true], k) else (used, 0)
  {
    FirstFreeIsFirst(used, limit);
  }

  lemma ReservedPrefix(used: seq<bool>, bitmapSize: nat)
    requires |used| == PAGE_COUNT && bitmapSize <= 4 * BITMAP_WORDS
    ensures var low := SetRange(used, 0, PageSpan(0, PAGE_TABLES_BASE), true);
      var tables := SetRange(low, 0x100, PageSpan(PAGE_TABLES_BASE, BITMAP_BASE), true);
      var size := PageSpan(BITMAP_BASE, BITMAP_BASE + bitmapSize);
      0x500 + size <= PAGE_COUNT &&
      SetRange(tables, 0x500, size, true) == SetRange(used, 0, FirstUnreserved(bitmapSize), true)
  {
  }
}
