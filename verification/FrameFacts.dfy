/** What the frame allocator guarantees, stated without its bitmap loops. */
module FrameFacts {
  import opened Words
  import opened BitSeqs
  import opened E820
  import opened FrameAlloc

  ghost predicate Increasing(frames: seq<nat>) {
    forall i, j :: 0 <= i < j < |frames| ==> frames[i] < frames[j]
  }

  /** The frames are free ones below `limit`, in increasing order, and no free frame below them is skipped. */
  ghost predicate LowestFree(used: seq<bool>, limit: nat, frames: seq<nat>) {
    && Increasing(frames)
    && (forall i :: 0 <= i < |frames| ==> frames[i] < limit <= |used| && !used[frames[i]])
    && (forall f, i :: 0 <= f < limit <= |used| && !used[f] && 0 <= i < |frames| && f < frames[i] ==> f in frames)
  }

  /** A single allocation takes the lowest free frame, changes nothing else, and returns 0 exactly when no
      frame is free or frame 0 itself is. */
  lemma TakeIsLowest(used: seq<bool>, limit: nat)
    requires limit <= |used|
    ensures var (after, frame) := Take(used, limit);
      && (FreeCount(used, limit) > 0 ==> LowestFree(used, limit, [frame]) && after == used[frame := true])
      && (FreeCount(used, limit) == 0 ==> after == used)
      && (frame == 0 <==> FreeCount(used, limit) == 0 || (0 < limit && !used[0]))
  {
    FreeCountIsZero(used, limit);
    FirstFreeIsFirst(used, limit);
  }

  ghost predicate MarksExactly(used: seq<bool>, after: seq<bool>, frames: seq<nat>) {
    |after| == |used| && forall f :: 0 <= f < |used| ==> after[f] == (used[f] || f in frames)
  }

  /** `count` allocations in a row return the `count` lowest free frames in increasing order. */
  lemma {:induction false} TakeManyIsLowest(used: seq<bool>, limit: nat, count: nat)
    requires limit <= |used| && count <= FreeCount(used, limit)
    ensures var (after, frames) := TakeMany(used, limit, count);
      && LowestFree(used, limit, frames)
      && MarksExactly(used, after, frames)
      && FreeCount(after, limit) == FreeCount(used, limit) - count
  {
    if count > 0 {
      TakeManyIsLowest(used, limit, count - 1);
      var (before, frames) := TakeMany(used, limit, count - 1);
      TakeAfter(used, before, limit, frames);
    }
  }

  lemma TakeAfter(used: seq<bool>, before: seq<bool>, limit: nat, frames: seq<nat>)
    requires limit <= |used| && LowestFree(used, limit, frames) && MarksExactly(used, before, frames)
    requires FreeCount(before, limit) > 0
    ensures var (after, frame) := Take(before, limit);
      && LowestFree(used, limit, frames + [frame])
      && MarksExactly(used, after, frames + [frame])
      && FreeCount(after, limit) == FreeCount(before, limit) - 1
  {
    var frame := FirstFree(before, limit);
    FreeCountIsZero(before, limit);
    FirstFreeIsFirst(before, limit);
    FreeCountUpdate(before, limit, frame, true);
    InSnoc(frames, frame);
    LowestSnoc(used, limit, frames, frame);
  }

  lemma LowestSnoc(used: seq<bool>, limit: nat, frames: seq<nat>, frame: nat)
    requires limit <= |used| && LowestFree(used, limit, frames)
    requires frame < limit && !used[frame] && frame !in frames
    requires forall f :: 0 <= f < frame && !used[f] ==> f in frames
    ensures LowestFree(used, limit, frames + [frame])
  {
    forall i | 0 <= i < |frames|
      ensures frames[i] < frame
    {
      assert frames[i] in frames;
    }
    InSnoc(frames, frame);
  }

  lemma InSnoc(frames: seq<nat>, frame: nat)
    ensures forall f :: f in frames + [frame] <==> f in frames || f == frame
  {
  }

  /** The span from the first to the last of them is `count` frames exactly when they are consecutive. */
  lemma SpanOfLowest(frames: seq<nat>)
    requires Increasing(frames) && |frames| > 0
    ensures frames[|frames| - 1] - frames[0] + 1 >= |frames|
    ensures frames[|frames| - 1] - frames[0] + 1 == |frames| <==>
            forall i :: 0 <= i < |frames| ==> frames[i] == frames[0] + i
  {
    StepsOfAtLeastOne(frames);
  }

  lemma {:induction false} StepsOfAtLeastOne(frames: seq<nat>)
    requires Increasing(frames) && |frames| > 0
    ensures forall i :: 0 <= i < |frames| ==> frames[0] + i <= frames[i] <= frames[|frames| - 1] - (|frames| - 1 - i)
  {
    if |frames| > 1 {
      StepsOfAtLeastOne(frames[..|frames| - 1]);
    }
  }

  /** After initialisation a tracked frame is free exactly when a usable entry contains it and it lies above
      the low 1 MB, the page tables and the bitmap. */
  lemma InitiallyFree(memory: seq<bool>, entries: seq<Entry820>, frame: nat)
    requires |memory| == PAGE_COUNT && frame < HighestEnd(entries) / PAGE_SIZE
    requires AlignedMap(entries)
    ensures !InitialUsed(memory, entries)[frame] <==>
      && (exists i :: 0 <= i < |entries| && entries[i].Usable() && Contains(entries[i], frame))
      && BITMAP_BASE + BitmapSize(entries) <= frame * PAGE_SIZE
  {
    UsablePagesOfAlignedMap(entries, frame);
    UnreservedIsAbove(BitmapSize(entries), frame);
  }

  /** For any map: a frame with a bit in the bitmap is free exactly when a usable entry yields it and it lies past the
      bitmap's memory. */
  lemma InitiallyFreeAnyMap(memory: seq<bool>, entries: seq<Entry820>, frame: nat)
    requires |memory| == PAGE_COUNT && frame < 8 * BitmapSize(entries)
    ensures !InitialUsed(memory, entries)[frame] <==>
      UsablePage(entries, frame) && 0x50_0000 + BitmapSize(entries) <= frame * 0x1000
  {
    UnreservedIsAbove(BitmapSize(entries), frame);
  }

  lemma UnreservedIsAbove(bitmapSize: nat, frame: nat)
    requires bitmapSize <= 4 * BITMAP_WORDS
    ensures frame >= FirstUnreserved(bitmapSize) <==> BITMAP_BASE + bitmapSize <= frame * PAGE_SIZE
  {
  }

  lemma HighestEndIgnoresOrder(a: seq<Entry820>, b: seq<Entry820>)
    requires multiset(a) == multiset(b)
    ensures HighestEnd(a) <= HighestEnd(b)
  {
    if HighestEnd(a) > 0 {
      var i :| 0 <= i < |a| && a[i].Usable() && a[i].End() == HighestEnd(a);
      assert a[i] in multiset(a);
      assert a[i] in b;
    }
  }

  /** The order of the entries in the map does not matter. */
  lemma InitIgnoresOrder(memory: seq<bool>, a: seq<Entry820>, b: seq<Entry820>)
    requires |memory| == PAGE_COUNT && multiset(a) == multiset(b)
    ensures InitialUsed(memory, a) == InitialUsed(memory, b)
  {
    HighestEndIgnoresOrder(a, b);
    HighestEndIgnoresOrder(b, a);
    forall frame | 0 <= frame < PAGE_COUNT
      ensures InitialUsed(memory, a)[frame] == InitialUsed(memory, b)[frame]
    {
      UsablePagesIgnoreOrder(a, b, frame);
    }
  }

  // ----- the end of the bitmap

  /** The bitmap has a bit for every tracked frame, and one byte less would not. */
  lemma BitmapHoldsFrames(entries: seq<Entry820>)
    ensures HighestEnd(entries) / 0x1000 <= 8 * BitmapSize(entries) < HighestEnd(entries) / 0x1000 + 8
  {
  }

  /** The word that holds the bit of the frame is one that `alloc_frame` scans. */
  predicate Scanned(entries: seq<Entry820>, frame: nat) {
    frame < BitmapSize(entries) / 4 * 32
  }

  /** The scan reads whole words only: it reaches every tracked frame exactly when they fill the last word or need
      each of its bytes. */
  lemma ScanReachesAllFrames(entries: seq<Entry820>)
    ensures var tracked := HighestEnd(entries) / PAGE_SIZE;
      (forall f: nat :: f < tracked ==> Scanned(entries, f)) <==> tracked % 32 == 0 || tracked % 32 > 24
  {
    var tracked := HighestEnd(entries) / PAGE_SIZE;
    WordsOf(tracked);
    if tracked > BitmapSize(entries) / 4 * 32 {
      assert !Scanned(entries, tracked - 1);
    }
  }

  lemma WordsOf(tracked: nat)
    ensures (tracked + 7) / 8 / 4 * 32 >= tracked <==> tracked % 32 == 0 || tracked % 32 > 24
  {
  }

  lemma {:induction false} AboveLimitUntouched(used: seq<bool>, limit: nat, count: nat, frame: nat)
    requires limit <= frame < |used|
    ensures var (after, frames) := TakeMany(used, limit, count);
      after[frame] == used[frame] && (frame in frames ==> frame == 0)
  {
    if count > 0 {
      AboveLimitUntouched(used, limit, count - 1, frame);
    }
  }

  /** Allocating until `alloc_frame` reports that memory is exhausted hands out a free frame exactly when the scan
      reaches it; any other is still free. */
  lemma HandedOutInTheEnd(used: seq<bool>, limit: nat, frame: nat)
    requires limit <= |used| && 0 < frame < |used| && !used[frame]
    ensures var (after, frames) := TakeMany(used, limit, FreeCount(used, limit));
      && Take(after, limit) == (after, 0)
      && (frame in frames <==> frame < limit) && (after[frame] <==> frame < limit)
  {
    var count := FreeCount(used, limit);
    var after := TakeMany(used, limit, count).0;
    TakeManyIsLowest(used, limit, count);
    TakeIsLowest(after, limit);
    FreeCountIsZero(after, limit);
    if frame >= limit {
      AboveLimitUntouched(used, limit, count, frame);
    }
  }

  /** An input for which that happens: 127 MB and 16 pages from 1 MB on, whose last frame is tracked and free. */
  lemma LostFrame(memory: seq<bool>)
    requires |memory| == PAGE_COUNT
    ensures var entries := [Entry820(0x10_0000, 0x7F1_0000, 1)];
      && 0x800F < HighestEnd(entries) / PAGE_SIZE
      && !InitialUsed(memory, entries)[0x800F] && !Scanned(entries, 0x800F)
  {
    var entries := [Entry820(0x10_0000, 0x7F1_0000, 1)];
    OneEntry(entries[0]);
  }

  lemma OneEntry(e: Entry820)
    requires e.Usable()
    ensures HighestEnd([e]) == e.End()
    ensures forall page: nat :: UsablePage([e], page) <==> Covers(e.Start(), e.End(), page)
  {
    assert [e][0] == e;
  }

  /** Initialisation leaves all memory past the bitmap as it was exactly when the bitmap tracks the frames reserved
      for it and no usable entry yields a page past the last frame tracked. */
  lemma InitStaysInBitmap(entries: seq<Entry820>)
    ensures (forall memory: seq<bool> :: |memory| == PAGE_COUNT ==> LeftAsItWas(memory, entries)) <==>
      && FirstUnreserved(BitmapSize(entries)) <= 8 * BitmapSize(entries)
      && forall f :: 8 * BitmapSize(entries) <= f < PAGE_COUNT ==> !UsablePage(entries, f)
  {
    var size := BitmapSize(entries);
    if forall memory: seq<bool> :: |memory| == PAGE_COUNT ==> LeftAsItWas(memory, entries) {
      var zeros, ones := seq(PAGE_COUNT, _ => false), seq(PAGE_COUNT, _ => true);
      assert LeftAsItWas(zeros, entries) && LeftAsItWas(ones, entries);
      if 8 * size < FirstUnreserved(size) {
        LeftAt(zeros, entries, 8 * size);
      }
      forall f | 8 * size <= f < PAGE_COUNT
        ensures !UsablePage(entries, f)
      {
        LeftAt(zeros, entries, f);
        LeftAt(ones, entries, f);
      }
    }
  }

  lemma LeftAt(memory: seq<bool>, entries: seq<Entry820>, frame: nat)
    requires |memory| == PAGE_COUNT && 8 * BitmapSize(entries) <= frame < PAGE_COUNT && LeftAsItWas(memory, entries)
    ensures memory[frame] ==
      InitiallyUsed(memory[frame], BitmapSize(entries), UsablePage(entries, frame), frame)
  {
  }

  ghost predicate LeftAsItWas(memory: seq<bool>, entries: seq<Entry820>)
    requires |memory| == PAGE_COUNT
  {
    forall f :: 8 * BitmapSize(entries) <= f < PAGE_COUNT ==> InitialUsed(memory, entries)[f] == memory[f]
  }

  /** So it does for aligned maps that reach past the bitmap. */
  lemma AlignedInitStaysInBitmap(memory: seq<bool>, entries: seq<Entry820>)
    requires |memory| == PAGE_COUNT && AlignedMap(entries) && HighestEnd(entries) >= BITMAP_BASE + PAGE_SIZE
    ensures LeftAsItWas(memory, entries)
  {
    TracksItself(HighestEnd(entries));
    forall f | 8 * BitmapSize(entries) <= f < PAGE_COUNT
      ensures !UsablePage(entries, f)
    {
      NoPagePastBitmap(entries, f);
    }
  }

  lemma TracksItself(highest: u32)
    requires highest >= BITMAP_BASE + PAGE_SIZE
    ensures FirstUnreserved((highest / PAGE_SIZE + 7) / 8) <= 8 * ((highest / PAGE_SIZE + 7) / 8)
  {
  }

  lemma NoPagePastBitmap(entries: seq<Entry820>, frame: nat)
    requires AlignedMap(entries) && 8 * BitmapSize(entries) <= frame
    ensures !UsablePage(entries, frame)
  {
    UsablePagesOfAlignedMap(entries, frame);
    forall i | 0 <= i < |entries| && entries[i].Usable()
      ensures !Contains(entries[i], frame)
    {
      EndsBelow(entries[i], HighestEnd(entries), frame);
    }
  }

  lemma EndsBelow(e: Entry820, highest: u32, frame: nat)
    requires e.base + e.length <= 0xFFFF_F000 && e.End() <= highest && 8 * ((highest / PAGE_SIZE + 7) / 8) <= frame
    ensures !Contains(e, frame)
  {
  }

  /** An input for which it does not: the map ends half a page past the last frame tracked, whose bit lies past the
      end of the bitmap, in a frame that is itself free to be handed out. */
  lemma WritesPastBitmap(memory: seq<bool>)
    requires |memory| == PAGE_COUNT
    ensures var entries := [Entry820(0x10_0000, 0x7F0_0800, 1)];
      && BitmapSize(entries) == 0x1000 && !InitialUsed(memory, entries)[0x8000]
      && PageOf(BITMAP_BASE + 0x8000 / 8) == 0x501 && !InitialUsed(memory, entries)[0x501]
  {
    OneEntry(Entry820(0x10_0000, 0x7F0_0800, 1));
  }
}
