/** The number a machine word stands for, and why masks and shifts of words are the arithmetic of the model. */
module WordValues {
  import opened Words

  /** The number written in binary by the bits of a word. */
  function Value(w: bv32): nat
    decreases w
  {
    if w == 0 then 0 else 2 * Value(w >> 1) + if w & 1 == 0 then 0 else 1
  }

  // ----- shifts

  lemma ShiftOne(w: bv32)
    ensures Value(w >> 1) == Value(w) / 2
    ensures w & 1 == 0 <==> Value(w) % 2 == 0
  {
  }

  lemma ShiftTwo(w: bv32)
    ensures Value(w >> 2) == Value(w) / 4
  {
    ShiftOne(w);
    ShiftOne(w >> 1);
    assert (w >> 1) >> 1 == w >> 2;
  }

  lemma ShiftFour(w: bv32)
    ensures Value(w >> 4) == Value(w) / 16
  {
    ShiftTwo(w);
    ShiftTwo(w >> 2);
    assert (w >> 2) >> 2 == w >> 4;
  }

  lemma ShiftEight(w: bv32)
    ensures Value(w >> 8) == Value(w) / 0x100
  {
    ShiftFour(w);
    ShiftFour(w >> 4);
    assert (w >> 4) >> 4 == w >> 8;
  }

  lemma ShiftTen(w: bv32)
    ensures Value(w >> 10) == Value(w) / 0x400
  {
    ShiftEight(w);
    ShiftTwo(w >> 8);
    assert (w >> 8) >> 2 == w >> 10;
  }

  lemma ShiftTwelve(w: bv32)
    ensures Value(w >> 12) == Value(w) / 0x1000
  {
    ShiftEight(w);
    ShiftFour(w >> 8);
    assert (w >> 8) >> 4 == w >> 12;
  }

  lemma ShiftTwentyTwo(w: bv32)
    ensures Value(w >> 22) == Value(w) / 0x40_0000
  {
    ShiftTwelve(w);
    ShiftTen(w >> 12);
    assert (w >> 12) >> 10 == w >> 22;
  }

  lemma FitsAWord(w: bv32)
    ensures Value(w) < 0x1_0000_0000
  {
    ShiftTen(w);
    ShiftTwentyTwo(w >> 10);
    assert (w >> 10) >> 22 == 0;
  }

  // ----- low bits

  lemma SplitOne(w: bv32)
    ensures Value(w) == 2 * Value(w >> 1) + Value(w & 1)
  {
    assert (w & 1) >> 1 == 0 && (w & 1) & 1 == w & 1;
  }

  lemma SplitTwo(w: bv32)
    ensures Value(w) == 4 * Value(w >> 2) + Value(w & 3)
  {
    NestedTwo(w);
    SplitOne(w);
    SplitOne(w >> 1);
    SplitOne(w & 3);
  }

  lemma NestedTwo(w: bv32)
    ensures (w >> 1) >> 1 == w >> 2
    ensures (w & 3) >> 1 == (w >> 1) & 1 && (w & 3) & 1 == w & 1
  {
  }

  lemma SplitFour(w: bv32)
    ensures Value(w) == 16 * Value(w >> 4) + Value(w & 0xF)
  {
    NestedFour(w);
    SplitTwo(w);
    SplitTwo(w >> 2);
    SplitTwo(w & 0xF);
  }

  lemma NestedFour(w: bv32)
    ensures (w >> 2) >> 2 == w >> 4
    ensures (w & 0xF) >> 2 == (w >> 2) & 3 && (w & 0xF) & 3 == w & 3
  {
  }

  lemma SplitEight(w: bv32)
    ensures Value(w) == 0x100 * Value(w >> 8) + Value(w & 0xFF)
  {
    NestedEight(w);
    SplitFour(w);
    SplitFour(w >> 4);
    SplitFour(w & 0xFF);
  }

  lemma NestedEight(w: bv32)
    ensures (w >> 4) >> 4 == w >> 8
    ensures (w & 0xFF) >> 4 == (w >> 4) & 0xF && (w & 0xFF) & 0xF == w & 0xF
  {
  }

  lemma SplitTen(w: bv32)
    ensures Value(w) == 0x400 * Value(w >> 10) + Value(w & 0x3FF)
  {
    NestedTen(w);
    SplitEight(w);
    SplitTwo(w >> 8);
    SplitEight(w & 0x3FF);
  }

  lemma NestedTen(w: bv32)
    ensures (w >> 8) >> 2 == w >> 10
    ensures (w & 0x3FF) >> 8 == (w >> 8) & 3 && (w & 0x3FF) & 0xFF == w & 0xFF
  {
  }

  lemma SplitTwelve(w: bv32)
    ensures Value(w) == 0x1000 * Value(w >> 12) + Value(w & 0xFFF)
  {
    NestedTwelve(w);
    SplitEight(w);
    SplitFour(w >> 8);
    SplitEight(w & 0xFFF);
  }

  lemma NestedTwelve(w: bv32)
    ensures (w >> 8) >> 4 == w >> 12
    ensures (w & 0xFFF) >> 8 == (w >> 8) & 0xF && (w & 0xFFF) & 0xFF == w & 0xFF
  {
  }

  // ----- the masks and shifts of the source

  /** On the number a word stands for, the source's masks and shifts are the arithmetic of the model. */
  lemma MasksAreArithmetic(x: bv32)
    ensures Value(x) < 0x1_0000_0000 && Value(x & 0xFFFF_F000) == AlignDown(Value(x))
    ensures Value(x >> 12) == PageOf(Value(x)) && Value(x >> 22) == Value(x) / 0x40_0000
    ensures Value((x >> 12) & 0x3FF) == Value(x) / PAGE_SIZE % 0x400
    ensures x & 1 != 0 <==> Present(Value(x))
  {
    FitsAWord(x);
    ShiftOne(x);
    ShiftTwelve(x);
    ShiftTwentyTwo(x);
    RoundedDown(x);
    Remainder(x >> 12);
  }

  lemma RoundedDown(x: bv32)
    ensures Value(x & 0xFFFF_F000) == Value(x) / 0x1000 * 0x1000
  {
    DownParts(x);
    SplitTwelve(x & 0xFFFF_F000);
    ShiftTwelve(x);
  }

  lemma DownParts(x: bv32)
    ensures (x & 0xFFFF_F000) >> 12 == x >> 12 && (x & 0xFFFF_F000) & 0xFFF == 0
  {
  }

  lemma Remainder(x: bv32)
    ensures Value(x & 0x3FF) == Value(x) % 0x400
  {
    SplitTen(x);
    ShiftTen(x);
  }

  /** The entry `addr | PG_PRESENT | PG_WRITE` of an aligned address. */
  lemma EntryIsOr(x: bv32)
    requires Value(x) < 0x1_0000_0000 && Value(x) % PAGE_SIZE == 0
    ensures Value(x | 1 | 2) == Entry(PageOf(Value(x)))
  {
    EntryParts(x);
    SplitTwo(x | 1 | 2);
    SplitTwo(x);
    ShiftTwo(x);
    assert Value(3) == 3;
  }

  lemma EntryParts(x: bv32)
    ensures (x | 1 | 2) >> 2 == x >> 2 && (x | 1 | 2) & 3 == 3
  {
  }
}
