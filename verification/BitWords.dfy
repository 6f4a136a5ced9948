/** Bitmaps packed into 32-bit words, and the boolean sequences they stand for. */
module BitWords {

  // ----- one word

  /** `1 << j` */
  function Mask(j: nat): bv32
    requires j < 32
  {
    if j == 0 then 1 else Mask(j - 1) << 1
  }

  predicate Meets(w: bv32, m: bv32) {
    w & m != 0
  }

  predicate Apart(w: bv32, m: bv32) {
    w & m == 0
  }

  predicate BitSet(w: bv32, j: nat)
    requires j < 32
  {
    Meets(w, Mask(j))
  }

  function SetBit(w: bv32, j: nat): bv32
    requires j < 32
  {
    w | Mask(j)
  }

  function ClearBit(w: bv32, j: nat): bv32
    requires j < 32
  {
    w & !Mask(j)
  }

  lemma OrMeets(w: bv32, m: bv32, k: bv32)
    ensures Apart(m, k) ==> Meets(w | m, k) == Meets(w, k)
  {
  }

  lemma AndNotMeets(w: bv32, m: bv32, k: bv32)
    ensures Apart(m, k) ==> Meets(w & !m, k) == Meets(w, k)
  {
  }

  lemma OrMeetsItself(w: bv32, m: bv32)
    requires m != 0
    ensures Meets(w | m, m)
  {
  }

  lemma AndNotMissesItself(w: bv32, m: bv32)
    ensures !Meets(w & !m, m)
  {
  }

  // ----- masks are distinct powers of two

  predicate PowerOfTwo(m: bv32) {
    m != 0 && m & (m - 1) == 0
  }

  /** All ones up to and including the one in `m`. */
  function LowOnes(m: bv32): bv32 {
    m | (m - 1)
  }

  lemma Doubling(m: bv32)
    requires PowerOfTwo(m)
    ensures PowerOfTwo(m << 1) || m << 1 == 0
  {
  }

  lemma DoublingClearsLowOnes(m: bv32, x: bv32)
    requires PowerOfTwo(m)
    ensures Apart(LowOnes(m), m << 1)
    ensures Apart(LowOnes(m), x) ==> Apart(LowOnes(m), x << 1) && Apart(m, x)
  {
  }

  lemma ApartIsSymmetric(w: bv32, m: bv32)
    ensures Apart(w, m) == Apart(m, w)
  {
  }

  lemma ZeroStaysZero(j: nat)
    requires j < 32 && Mask(j) == 0
    ensures Mask(31) == 0
    decreases 32 - j
  {
    if j < 31 {
      ZeroStaysZero(j + 1);
    }
  }

  lemma TopMask()
    ensures Mask(31) == 0x8000_0000
  {
    assert Mask(7) == 0x80;
    assert Mask(14) == 0x4000;
    assert Mask(21) == 0x20_0000;
    assert Mask(28) == 0x1000_0000;
  }

  lemma {:induction false} MaskIsPowerOfTwo(j: nat)
    requires j < 32
    ensures PowerOfTwo(Mask(j))
  {
    if j > 0 {
      MaskIsPowerOfTwo(j - 1);
      Doubling(Mask(j - 1));
      if Mask(j) == 0 {
        ZeroStaysZero(j);
        TopMask();
      }
    }
  }

  lemma {:induction false} LaterMask(j: nat, k: nat)
    requires j < k < 32
    ensures Apart(LowOnes(Mask(j)), Mask(k))
  {
    MaskIsPowerOfTwo(j);
    DoublingClearsLowOnes(Mask(j), Mask(k - 1));
    if j < k - 1 {
      LaterMask(j, k - 1);
    }
  }

  lemma MasksApart(j: nat, k: nat)
    requires j < 32 && k < 32 && j != k
    ensures Apart(Mask(j), Mask(k))
  {
    var lo, hi := if j < k then j else k, if j < k then k else j;
    LaterMask(lo, hi);
    MaskIsPowerOfTwo(lo);
    DoublingClearsLowOnes(Mask(lo), Mask(hi));
    ApartIsSymmetric(Mask(j), Mask(k));
  }

  lemma SetHere(w: bv32, j: nat)
    requires j < 32
    ensures BitSet(SetBit(w, j), j)
  {
    MaskIsPowerOfTwo(j);
    OrMeetsItself(w, Mask(j));
  }

  lemma SetElsewhere(w: bv32, j: nat, k: nat)
    requires j < 32 && k < 32 && j != k
    ensures BitSet(SetBit(w, j), k) == BitSet(w, k)
  {
    MasksApart(j, k);
    OrMeets(w, Mask(j), Mask(k));
  }

  lemma ClearHere(w: bv32, j: nat)
    requires j < 32
    ensures !BitSet(ClearBit(w, j), j)
  {
    AndNotMissesItself(w, Mask(j));
  }

  lemma ClearElsewhere(w: bv32, j: nat, k: nat)
    requires j < 32 && k < 32 && j != k
    ensures BitSet(ClearBit(w, j), k) == BitSet(w, k)
  {
    MasksApart(j, k);
    AndNotMeets(w, Mask(j), Mask(k));
  }

  lemma AllOnesMeets(m: bv32)
    requires m != 0
    ensures Meets(0xFFFF_FFFF, m)
  {
  }

  lemma AllOnesBit(j: nat)
    requires j < 32
    ensures BitSet(0xFFFF_FFFF, j)
  {
    MaskIsPowerOfTwo(j);
    AllOnesMeets(Mask(j));
  }

  /** The word with `n` bits from bit `from` on stored as ones or zeros. */
  function FillBits(w: bv32, from: nat, n: nat, ones: bool): bv32
    requires from + n <= 32
  {
    if n == 0 then w
    else
      var partial := FillBits(w, from, n - 1, ones);
      if ones then SetBit(partial, from + n - 1) else ClearBit(partial, from + n - 1)
  }

  lemma {:induction false} FillBitsAt(w: bv32, from: nat, n: nat, ones: bool, j: nat)
    requires from + n <= 32 && j < 32
    ensures BitSet(FillBits(w, from, n, ones), j) == if from <= j < from + n then ones else BitSet(w, j)
  {
    if n > 0 {
      FillBitsAt(w, from, n - 1, ones, j);
      BitStored(FillBits(w, from, n - 1, ones), from + n - 1, ones, j);
    }
  }

  lemma BitStored(w: bv32, i: nat, one: bool, j: nat)
    requires i < 32 && j < 32
    ensures BitSet(if one then SetBit(w, i) else ClearBit(w, i), j) == if i == j then one else BitSet(w, j)
  {
    if i == j {
      SetHere(w, i);
      ClearHere(w, i);
    } else {
      SetElsewhere(w, i, j);
      ClearElsewhere(w, i, j);
    }
  }

  // ----- an array of words

  /** The bits of a word-packed bitmap: bit `i` is bit `i % 32` of word `i / 32`. */
  function Bits(words: seq<bv32>): (bits: seq<bool>)
    ensures |bits| == 32 * |words|
  {
    FirstBits(words, 32 * |words|)
  }

  function FirstBits(words: seq<bv32>, n: nat): (bits: seq<bool>)
    requires n <= 32 * |words|
    ensures |bits| == n
  {
    if n == 0 then [] else FirstBits(words, n - 1) + [BitSet(words[(n - 1) / 32], (n - 1) % 32)]
  }

  lemma {:induction false} FirstBitsAt(words: seq<bv32>, n: nat, i: nat)
    requires i < n <= 32 * |words|
    ensures FirstBits(words, n)[i] == BitSet(words[i / 32], i % 32)
  {
    if i < n - 1 {
      FirstBitsAt(words, n - 1, i);
    }
  }

  lemma BitAt(words: seq<bv32>, i: nat)
    requires i < 32 * |words|
    ensures Bits(words)[i] == BitSet(words[i / 32], i % 32)
  {
    FirstBitsAt(words, 32 * |words|, i);
  }

  lemma BitsSet(words: seq<bv32>, i: nat)
    requires i < 32 * |words|
    ensures Bits(words[i / 32 := SetBit(words[i / 32], i % 32)]) == Bits(words)[i := true]
  {
    var after := words[i / 32 := SetBit(words[i / 32], i % 32)];
    forall k | 0 <= k < 32 * |words|
      ensures Bits(after)[k] == Bits(words)[i := true][k]
    {
      BitAt(words, k);
      BitAt(after, k);
      StoredBit(words, i, true, k);
    }
  }

  lemma BitsClear(words: seq<bv32>, i: nat)
    requires i < 32 * |words|
    ensures Bits(words[i / 32 := ClearBit(words[i / 32], i % 32)]) == Bits(words)[i := false]
  {
    var after := words[i / 32 := ClearBit(words[i / 32], i % 32)];
    forall k | 0 <= k < 32 * |words|
      ensures Bits(after)[k] == Bits(words)[i := false][k]
    {
      BitAt(words, k);
      BitAt(after, k);
      StoredBit(words, i, false, k);
    }
  }

  lemma StoredBit(words: seq<bv32>, i: nat, one: bool, k: nat)
    requires i < 32 * |words| && k < 32 * |words|
    ensures var w := words[i / 32];
      var after := words[i / 32 := if one then SetBit(w, i % 32) else ClearBit(w, i % 32)];
      BitSet(after[k / 32], k % 32) == if i == k then one else BitSet(words[k / 32], k % 32)
  {
    if k / 32 == i / 32 {
      BitStored(words[i / 32], i % 32, one, k % 32);
    }
  }

  /** The bits of memory after `size` bytes from its start have been stored as `0xFF` or `0x00`. */
  function Filled(bits: seq<bool>, size: nat, ones: bool): (r: seq<bool>)
    ensures |r| == |bits|
    ensures forall i :: 0 <= i < |r| ==> r[i] == if i < 8 * size then ones else bits[i]
  {
    seq(|bits|, i requires 0 <= i < |bits| => if i < 8 * size then ones else bits[i])
  }

  lemma FillByte(words: seq<bv32>, i: nat, ones: bool)
    requires i < 4 * |words|
    requires forall k :: 0 <= k < 8 * i ==> Bits(words)[k] == ones
    ensures Bits(words[i / 4 := FillBits(words[i / 4], 8 * (i % 4), 8, ones)]) == Filled(Bits(words), i + 1, ones)
  {
    var after := words[i / 4 := FillBits(words[i / 4], 8 * (i % 4), 8, ones)];
    forall k | 0 <= k < 32 * |words|
      ensures Bits(after)[k] == Filled(Bits(words), i + 1, ones)[k]
    {
      BitAt(words, k);
      BitAt(after, k);
      if k / 32 == i / 4 {
        FillBitsAt(words[i / 4], 8 * (i % 4), 8, ones, k % 32);
      }
    }
  }

  /** Stores `size` bytes of `0xFF` or `0x00` from the start of `memory`, one byte at a time. */
  method FillBytes(memory: array<bv32>, size: nat, ones: bool)
    requires size <= 4 * memory.Length
    modifies memory
    ensures Bits(memory[..]) == Filled(old(Bits(memory[..])), size, ones)
  {
    for i := 0 to size
      invariant Bits(memory[..]) == Filled(old(Bits(memory[..])), i, ones)
    {
      ghost var words := memory[..];
      FillByte(words, i, ones);
      memory[i / 4] := FillBits(memory[i / 4], 8 * (i % 4), 8, ones);
      assert memory[..] == words[i / 4 := FillBits(words[i / 4], 8 * (i % 4), 8, ones)];
    }
  }
}
