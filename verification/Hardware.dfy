/** What the processor sees of memory management: writes to page-table entries, CR3 reloads and the TLB.
    A TLB may at any moment load any present translation and drop any entry; only a CR3 reload empties it
    (section 4.10 of the Intel SDM, Volume 3A). */
module Hardware {
  import opened Words

  datatype Event =
    | Write(page: nat, entry: u32)   // a page-table entry is stored
    | Flush                          // CR3 is reloaded
    | Release(frame: nat)            // a frame is handed back to the frame allocator

  /** The page tables, as one entry per virtual page, after a log of events. */
  function Replay(flat: seq<u32>, log: seq<Event>): (r: seq<u32>)
    ensures |r| == |flat|
  {
    if log == [] then flat
    else
      var before := Replay(flat, log[..|log| - 1]);
      match log[|log| - 1]
      case Write(page, entry) => if page < |flat| then before[page := entry] else before
      case Flush => before
      case Release(_) => before
  }

  function Writes(first: nat, values: seq<u32>): (log: seq<Event>)
    ensures |log| == |values|
    ensures forall i :: 0 <= i < |log| ==> log[i] == Write(first + i, values[i])
  {
    seq(|values|, i requires 0 <= i < |values| => Write(first + i, values[i]))
  }

  function Splice(flat: seq<u32>, first: nat, values: seq<u32>): (r: seq<u32>)
    requires first + |values| <= |flat|
    ensures |r| == |flat|
    ensures forall v :: 0 <= v < |flat| ==>
      r[v] == if first <= v < first + |values| then values[v - first] else flat[v]
  {
    seq(|flat|, v requires 0 <= v < |flat| =>
      if first <= v < first + |values| then values[v - first] else flat[v])
  }

  lemma {:induction false} ReplayWrites(flat: seq<u32>, first: nat, values: seq<u32>)
    requires first + |values| <= |flat|
    ensures Replay(flat, Writes(first, values)) == Splice(flat, first, values)
  {
    if values == [] {
    } else {
      var n := |values| - 1;
      ReplayWrites(flat, first, values[..n]);
      assert Writes(first, values)[..n] == Writes(first, values[..n]);
      assert Splice(flat, first, values) == Splice(flat, first, values[..n])[first + n := values[n]];
    }
  }

  lemma {:induction false} ReplayAppend(flat: seq<u32>, a: seq<Event>, b: seq<Event>)
    ensures Replay(flat, a + b) == Replay(Replay(flat, a), b)
  {
    if b == [] {
      assert a + b == a;
    } else {
      var n := |b| - 1;
      ReplayAppend(flat, a, b[..n]);
      assert (a + b)[..|a + b| - 1] == a + b[..n];
    }
  }

  // ----- the TLB

  /** Pages whose cached translation may differ from the page tables: a present entry was replaced by a
      different one and CR3 has not been reloaded since. */
  function Dirty(flat: seq<u32>, log: seq<Event>): set<nat> {
    if log == [] then {}
    else
      var prefix := log[..|log| - 1];
      match log[|log| - 1]
      case Write(page, entry) =>
        var now := Replay(flat, prefix);
        if page < |flat| && Present(now[page]) && now[page] != entry
        then Dirty(flat, prefix) + {page}
        else Dirty(flat, prefix)
      case Flush => {}
      case Release(_) => Dirty(flat, prefix)
  }

  datatype Step =
    | Do(event: Event)
    | Load(page: nat)                        // the processor caches a present translation
    | Drop(translation: (nat, u32))          // the processor forgets a cached translation

  datatype Processor = Processor(flat: seq<u32>, tlb: set<(nat, u32)>) {
    predicate Coherent() {
      forall t :: t in tlb ==> t.0 < |flat| && Present(t.1) && flat[t.0] == t.1
    }
  }

  /** The processor after one step. */
  function Apply(p: Processor, step: Step): (r: Processor)
    ensures |r.flat| == |p.flat|
  {
    match step
    case Do(Write(page, entry)) => if page < |p.flat| then p.(flat := p.flat[page := entry]) else p
    case Do(Flush) => p.(tlb := {})
    case Do(Release(_)) => p
    case Load(page) =>
      if page < |p.flat| && Present(p.flat[page]) then p.(tlb := p.tlb + {(page, p.flat[page])}) else p
    case Drop(t) => p.(tlb := p.tlb - {t})
  }

  /** The processor after a sequence of steps; every interleaving of software and TLB activity is one. */
  function Exec(p: Processor, steps: seq<Step>): (r: Processor)
    ensures |r.flat| == |p.flat|
  {
    if steps == [] then p else Apply(Exec(p, steps[..|steps| - 1]), steps[|steps| - 1])
  }

  /** The software events among the steps. */
  function Software(steps: seq<Step>): seq<Event> {
    if steps == [] then []
    else Software(steps[..|steps| - 1]) + if steps[|steps| - 1].Do? then [steps[|steps| - 1].event] else []
  }

  ghost predicate StaleOnlyIn(tlb: set<(nat, u32)>, flat: seq<u32>, dirty: set<nat>) {
    forall t :: t in tlb ==> t.0 < |flat| && Present(t.1) && (t.0 in dirty || flat[t.0] == t.1)
  }

  lemma EventKeepsStaleOnlyWhereDirty(p: Processor, flat: seq<u32>, log: seq<Event>, event: Event)
    requires p.flat == Replay(flat, log) && StaleOnlyIn(p.tlb, p.flat, Dirty(flat, log))
    ensures var r := Apply(p, Do(event));
      r.flat == Replay(flat, log + [event]) && StaleOnlyIn(r.tlb, r.flat, Dirty(flat, log + [event]))
  {
    assert (log + [event])[..|log + [event]| - 1] == log;
  }

  /** However the TLB behaves, a cached translation can only be wrong for a dirty page. */
  lemma {:induction false} StaleOnlyWhereDirty(p: Processor, steps: seq<Step>)
    requires p.Coherent()
    ensures var r := Exec(p, steps);
      && r.flat == Replay(p.flat, Software(steps))
      && StaleOnlyIn(r.tlb, r.flat, Dirty(p.flat, Software(steps)))
  {
    if steps == [] {
    } else {
      var n := |steps| - 1;
      StaleOnlyWhereDirty(p, steps[..n]);
      if steps[n].Do? {
        EventKeepsStaleOnlyWhereDirty(Exec(p, steps[..n]), p.flat, Software(steps[..n]), steps[n].event);
      } else {
        assert Software(steps) == Software(steps[..n]);
      }
    }
  }

  /** No frame is released while a page in `[lo, hi)` still translates to it, in the tables or in any TLB,
      and nothing stale is left behind. */
  ghost predicate SafeLog(flat: seq<u32>, log: seq<Event>, lo: nat, hi: nat) {
    && Dirty(flat, log) == {}
    && forall k :: 0 <= k < |log| && log[k].Release? ==> SafeRelease(flat, log[..k], log[k].frame, lo, hi)
  }

  ghost predicate SafeRelease(flat: seq<u32>, before: seq<Event>, frame: nat, lo: nat, hi: nat) {
    && Dirty(flat, before) == {}
    && Unmapped(Replay(flat, before), frame, lo, hi)
  }

  ghost predicate Unmapped(flat: seq<u32>, frame: nat, lo: nat, hi: nat) {
    forall v :: lo <= v < hi && v < |flat| && Present(flat[v]) ==> FrameOf(flat[v]) != frame
  }

  lemma {:induction false} DirtyAppend(flat: seq<u32>, a: seq<Event>, b: seq<Event>)
    requires Dirty(flat, a) == {}
    ensures Dirty(flat, a + b) == Dirty(Replay(flat, a), b)
  {
    if b == [] {
      assert a + b == a;
    } else {
      var n := |b| - 1;
      DirtyAppend(flat, a, b[..n]);
      ReplayAppend(flat, a, b[..n]);
      assert (a + b)[..|a + b| - 1] == a + b[..n];
    }
  }

  lemma SafeAppend(flat: seq<u32>, a: seq<Event>, b: seq<Event>, lo: nat, hi: nat)
    requires SafeLog(flat, a, lo, hi) && SafeLog(Replay(flat, a), b, lo, hi)
    ensures SafeLog(flat, a + b, lo, hi)
    ensures Replay(flat, a + b) == Replay(Replay(flat, a), b)
  {
    ReplayAppend(flat, a, b);
    DirtyAppend(flat, a, b);
    forall k | 0 <= k < |a + b| && (a + b)[k].Release?
      ensures SafeRelease(flat, (a + b)[..k], (a + b)[k].frame, lo, hi)
    {
      if k < |a| {
        assert (a + b)[..k] == a[..k];
      } else {
        assert (a + b)[..k] == a + b[..k - |a|];
        DirtyAppend(flat, a, b[..k - |a|]);
        ReplayAppend(flat, a, b[..k - |a|]);
        assert SafeRelease(Replay(flat, a), b[..k - |a|], b[k - |a|].frame, lo, hi);
      }
    }
  }

  lemma SafeThen(flat: seq<u32>, a: seq<Event>, mid: seq<u32>, b: seq<Event>, end: seq<u32>, lo: nat, hi: nat)
    requires Replay(flat, a) == mid && SafeLog(flat, a, lo, hi)
    requires Replay(mid, b) == end && SafeLog(mid, b, lo, hi)
    ensures Replay(flat, a + b) == end && SafeLog(flat, a + b, lo, hi)
  {
    SafeAppend(flat, a, b, lo, hi);
  }

  lemma {:induction false} SoftwarePrefix(steps: seq<Step>, k: nat)
    requires k < |steps| && steps[k].Do?
    ensures var before := Software(steps[..k]);
      |before| < |Software(steps)| && Software(steps)[..|before|] == before &&
      Software(steps)[|before|] == steps[k].event
  {
    var n := |steps| - 1;
    if k < n {
      SoftwarePrefix(steps[..n], k);
      assert steps[..n][..k] == steps[..k];
    }
  }

  /** At each release the TLB agrees with the tables, and neither maps the frame in `[lo, hi)`. */
  ghost predicate ReleasesSafely(p: Processor, steps: seq<Step>, lo: nat, hi: nat) {
    forall k :: 0 <= k < |steps| && steps[k].Do? && steps[k].event.Release? ==>
      OutOfReach(Exec(p, steps[..k]), steps[k].event.frame, lo, hi)
  }

  ghost predicate OutOfReach(p: Processor, frame: nat, lo: nat, hi: nat) {
    && p.Coherent() && Unmapped(p.flat, frame, lo, hi)
    && forall t :: t in p.tlb && lo <= t.0 < hi ==> FrameOf(t.1) != frame
  }

  /** The guarantee a safe log gives on real hardware: for every interleaving with TLB loads and drops, the
      TLB agrees with the tables at the end and at each release, where neither maps the released frame. */
  lemma SafeOnHardware(p: Processor, steps: seq<Step>, lo: nat, hi: nat)
    requires p.Coherent() && SafeLog(p.flat, Software(steps), lo, hi)
    ensures Exec(p, steps).Coherent() && ReleasesSafely(p, steps, lo, hi)
  {
    StaleOnlyWhereDirty(p, steps);
    forall k | 0 <= k < |steps| && steps[k].Do? && steps[k].event.Release?
      ensures OutOfReach(Exec(p, steps[..k]), steps[k].event.frame, lo, hi)
    {
      SoftwarePrefix(steps, k);
      StaleOnlyWhereDirty(p, steps[..k]);
      var before := Software(steps[..k]);
      assert SafeRelease(p.flat, Software(steps)[..|before|], steps[k].event.frame, lo, hi);
    }
  }
}
