/** First-fit search and counting over sequences of used/free flags. */
module BitSeqs {

  /** The index of the first free (false) flag below `limit`, or `limit` when all of those are used. */
  function FirstFree(used: seq<bool>, limit: nat): (k: nat)
    requires limit <= |used|
    ensures k <= limit
    ensures k < limit ==> !used[k]
  {
    if limit == 0 then 0
    else
      var k := FirstFree(used, limit - 1);
      if k == limit - 1 && used[k] then limit else k
  }

  lemma {:induction false} FirstFreeIsFirst(used: seq<bool>, limit: nat)
    requires limit <= |used|
    ensures forall i :: 0 <= i < FirstFree(used, limit) ==> used[i]
  {
    if limit > 0 {
      FirstFreeIsFirst(used, limit - 1);
    }
  }

  /** How many flags below `limit` are free. */
  function FreeCount(used: seq<bool>, limit: nat): (n: nat)
    requires limit <= |used|
    ensures n <= limit
  {
    if limit == 0 then 0 else FreeCount(used, limit - 1) + if used[limit - 1] then 0 else 1
  }

  lemma {:induction false} FreeCountIsZero(used: seq<bool>, limit: nat)
    requires limit <= |used|
    ensures FreeCount(used, limit) == 0 <==> forall i :: 0 <= i < limit ==> used[i]
  {
    if limit > 0 {
      FreeCountIsZero(used, limit - 1);
    }
  }

  lemma {:induction false} FreeCountUpdate(used: seq<bool>, limit: nat, i: nat, b: bool)
    requires i < |used| && limit <= |used|
    ensures FreeCount(used[i := b], limit) as int ==
            FreeCount(used, limit) + if i >= limit || used[i] == b then 0 else if b then -1 else 1
  {
    if limit > 0 {
      FreeCountUpdate(used, limit - 1, i, b);
    }
  }

  /** The flags with `[start, start + count)` set to `b`. */
  function SetRange(flags: seq<bool>, start: nat, count: nat, b: bool): (r: seq<bool>)
    requires start + count <= |flags|
    ensures |r| == |flags|
    ensures forall i :: 0 <= i < |r| ==> r[i] == if start <= i < start + count then b else flags[i]
  {
    seq(|flags|, i requires 0 <= i < |flags| => if start <= i < start + count then b else flags[i])
  }
}
