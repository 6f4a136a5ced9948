/** Which glyphs the console draws, where, and where the cursor stands: by counting bytes, without a pen. */
module ConsoleMeaning {
  import opened Sequences
  import opened Words
  import opened Console

  // ----- counting

  predicate IsBreak(b: u8) {
    b == 10 || b == 13
  }

  /** Line breaks and tabs draw nothing. */
  predicate Marks(b: u8) {
    !IsBreak(b) && b != 9
  }

  function Newlines(text: seq<u8>, n: nat): nat
    requires n <= |text|
  {
    if n == 0 then 0 else Newlines(text, n - 1) + if text[n - 1] == 10 then 1 else 0
  }

  /** How many glyphs the bytes from `a` up to `b` draw. */
  function MarkCount(text: seq<u8>, a: nat, b: nat): nat
    requires a <= b <= |text|
    decreases b - a
  {
    if a == b then 0 else (if Marks(text[a]) then 1 else 0) + MarkCount(text, a + 1, b)
  }

  /** By how many cells the bytes from `a` up to `b` of a line move to the right: a tab by four, a backspace by one
      to the left, all others by one. */
  function Moves(text: seq<u8>, a: nat, b: nat): int
    requires a <= b <= |text|
  {
    if a == b then 0 else Moves(text, a, b - 1) + if text[b - 1] == 9 then 4 else if text[b - 1] == 8 then -1 else 1
  }

  /** The bytes from `j` up to `i` are the line so far. */
  predicate LineFrom(text: seq<u8>, j: nat, i: nat) {
    && j <= i <= |text| && (j == 0 || IsBreak(text[j - 1]))
    && forall k :: j <= k < i ==> !IsBreak(text[k])
  }

  /** Column `c` is reached from column `start` by the bytes from `j` up to `i`: the sum of their moves, but counted
      anew from the margin after a backspace there. */
  ghost predicate InColumn(text: seq<u8>, j: nat, i: nat, start: int, c: int)
    requires j <= i <= |text|
  {
    && c >= start + Moves(text, j, i)
    && (forall k :: j <= k < i && text[k] == 8 ==> c >= Moves(text, k + 1, i))
    && (c == start + Moves(text, j, i) || exists k :: j <= k < i && text[k] == 8 && c == Moves(text, k + 1, i))
  }

  /** The glyph of byte `i`, in the line from `j` on that starts in column `start`: the byte itself, a question mark
      for an unprintable one, and for a backspace a blank in the cell it moves back to. */
  ghost predicate IsGlyphOf(g: Glyph, text: seq<u8>, j: nat, i: nat, start: int, row: int)
    requires j <= i < |text|
  {
    && g.c == (if text[i] == 8 then 32 else if 32 <= text[i] <= 254 then text[i] else 63)
    && g.y == 16 * (row + Newlines(text, i))
    && g.x == 9 * (g.x / 9)
    && InColumn(text, j, if text[i] == 8 then i + 1 else i, start, g.x / 9)
  }

  // ----- the pen

  function Step(b: u8, margin: int, col: int): int {
    if IsBreak(b) then margin
    else if b == 8 then (if col <= 0 then 0 else col - 1)
    else if b == 9 then col + 4
    else col + 1
  }

  /** The pen's column before byte `i`: it starts in column `first` and returns to `margin` at line breaks. */
  function Pen(text: seq<u8>, first: int, margin: int, i: nat): int
    requires i <= |text|
  {
    if i == 0 then first else Step(text[i - 1], margin, Pen(text, first, margin, i - 1))
  }

  lemma {:induction false} PenColumn(text: seq<u8>, first: int, margin: int, j: nat, i: nat)
    requires LineFrom(text, j, i)
    ensures InColumn(text, j, i, if j == 0 then first else margin, Pen(text, first, margin, i))
  {
    if i > j {
      PenColumn(text, first, margin, j, i - 1);
      NextColumn(text, j, i - 1, if j == 0 then first else margin, Pen(text, first, margin, i - 1), margin);
    }
  }

  lemma NextColumn(text: seq<u8>, j: nat, i: nat, start: int, c: int, margin: int)
    requires j <= i < |text| && !IsBreak(text[i]) && InColumn(text, j, i, start, c)
    ensures InColumn(text, j, i + 1, start, Step(text[i], margin, c))
  {
    var next := Step(text[i], margin, c);
    if c != start + Moves(text, j, i) {
      var k :| j <= k < i && text[k] == 8 && c == Moves(text, k + 1, i);
      assert Moves(text, k + 1, i + 1) == c + Moves(text, i, i + 1);
    }
    if text[i] == 8 {
      assert Moves(text, i + 1, i + 1) == 0;
    }
  }

  // ----- painting

  lemma {:induction false} PaintSize(text: seq<u8>, first: int, margin: int, row: int, i: nat)
    requires i <= |text|
    ensures |Paint(text[i..], 9 * margin, 9 * Pen(text, first, margin, i), 16 * (row + Newlines(text, i)))|
         == MarkCount(text, i, |text|)
    decreases |text| - i
  {
    if i < |text| {
      PaintSize(text, first, margin, row, i + 1);
      PaintOne(text, first, margin, row, i);
    }
  }

  /** Painting from byte `i` on: its glyph, if it draws one, and then the rest. */
  lemma PaintOne(text: seq<u8>, first: int, margin: int, row: int, i: nat)
    requires i < |text|
    ensures Paint(text[i..], 9 * margin, 9 * Pen(text, first, margin, i), 16 * (row + Newlines(text, i))) ==
      Drawn(text[i], 9 * Pen(text, first, margin, i), 16 * (row + Newlines(text, i))) +
      Paint(text[i + 1..], 9 * margin, 9 * Pen(text, first, margin, i + 1), 16 * (row + Newlines(text, i + 1)))
    ensures |Drawn(text[i], 9 * Pen(text, first, margin, i), 16 * (row + Newlines(text, i)))| ==
      if Marks(text[i]) then 1 else 0
  {
    assert text[i..][1..] == text[i + 1..];
  }

  lemma {:induction false} PaintedAt(text: seq<u8>, first: int, margin: int, row: int, i: nat, k: nat)
    requires i <= k < |text| && Marks(text[k])
    ensures var glyphs := Paint(text[i..], 9 * margin, 9 * Pen(text, first, margin, i), 16 * (row + Newlines(text, i)));
      && MarkCount(text, i, k) < |glyphs|
      && glyphs[MarkCount(text, i, k)] == Drawn(text[k], 9 * Pen(text, first, margin, k), 16 * (row + Newlines(text, k)))[0]
    decreases k - i
  {
    PaintOne(text, first, margin, row, i);
    if i < k {
      PaintedAt(text, first, margin, row, i + 1, k);
    }
  }

  /** What a painted text looks like: one glyph for each byte that draws, in order, each in its place. */
  lemma PaintMeaning(text: seq<u8>, first: int, margin: int, row: int, j: nat, i: nat)
    requires i < |text| && LineFrom(text, j, i) && Marks(text[i])
    ensures var glyphs := Paint(text, 9 * margin, 9 * first, 16 * row);
      && |glyphs| == MarkCount(text, 0, |text|) && MarkCount(text, 0, i) < |glyphs|
      && IsGlyphOf(glyphs[MarkCount(text, 0, i)], text, j, i, if j == 0 then first else margin, row)
  {
    assert text[0..] == text;
    PaintSize(text, first, margin, row, 0);
    PaintedAt(text, first, margin, row, 0, i);
    DrawnIsGlyph(text, first, margin, row, j, i);
  }

  lemma DrawnIsGlyph(text: seq<u8>, first: int, margin: int, row: int, j: nat, i: nat)
    requires i < |text| && LineFrom(text, j, i) && Marks(text[i])
    ensures var drawn := Drawn(text[i], 9 * Pen(text, first, margin, i), 16 * (row + Newlines(text, i)));
      |drawn| == 1 && IsGlyphOf(drawn[0], text, j, i, if j == 0 then first else margin, row)
  {
    PenColumn(text, first, margin, j, i);
    BackCell(Pen(text, first, margin, i));
    if text[i] == 8 {
      PenColumn(text, first, margin, j, i + 1);
    }
  }

  lemma BackCell(c: int)
    ensures Back(9 * c) == 9 * (if c <= 0 then 0 else c - 1)
  {
  }

  // ----- the two ways of printing

  /** `kprint` at a cursor: the first and every later line start in the cursor's column. */
  lemma PrintedMeaning(text: seq<u8>, cursor: Cursor, j: nat, i: nat)
    requires i < |text| && LineFrom(text, j, i) && Marks(text[i])
    ensures var glyphs := Printed(text, cursor);
      && |glyphs| == MarkCount(text, 0, |text|) && MarkCount(text, 0, i) < |glyphs|
      && IsGlyphOf(glyphs[MarkCount(text, 0, i)], text, j, i, cursor.col, cursor.row)
  {
    PaintMeaning(text, cursor.col, cursor.col, cursor.row, j, i);
  }

  /** `kputc` of each byte, as `sys_write` does: later lines start in column 0. */
  lemma PutEachMeaning(text: seq<u8>, cursor: Cursor, j: nat, i: nat)
    requires i < |text| && LineFrom(text, j, i) && Marks(text[i])
    ensures var glyphs := PutEach(text, cursor);
      && |glyphs| == MarkCount(text, 0, |text|) && MarkCount(text, 0, i) < |glyphs|
      && IsGlyphOf(glyphs[MarkCount(text, 0, i)], text, j, i, if j == 0 then cursor.col else 0, cursor.row)
  {
    PutEachIsPaintFromZero(text, cursor);
    assert PutEach(text, cursor) == Paint(text, 9 * 0, 9 * cursor.col, 16 * cursor.row);
    PaintMeaning(text, cursor.col, 0, cursor.row, j, i);
  }

  /** Either way the cursor ends a row further down for each newline, in the column its last line reaches. */
  lemma CursorMeaning(text: seq<u8>, cursor: Cursor, j: nat)
    requires LineFrom(text, j, |text|)
    ensures var after := AdvanceAll(cursor, text);
      && after.row == cursor.row + Newlines(text, |text|)
      && InColumn(text, j, |text|, if j == 0 then cursor.col else 0, after.col)
  {
    assert text[0..] == text;
    AdvancedFrom(text, cursor, 0);
    PenColumn(text, cursor.col, 0, j, |text|);
  }

  lemma {:induction false} AdvancedFrom(text: seq<u8>, cursor: Cursor, i: nat)
    requires i <= |text|
    ensures AdvanceAll(Cursor(Pen(text, cursor.col, 0, i), cursor.row + Newlines(text, i)), text[i..]) ==
      Cursor(Pen(text, cursor.col, 0, |text|), cursor.row + Newlines(text, |text|))
    decreases |text| - i
  {
    if i < |text| {
      assert text[i..][1..] == text[i + 1..];
      AdvancedFrom(text, cursor, i + 1);
    }
  }

  /** A text of printable bytes: glyph `i` is byte `i`, in the `i`-th cell from the cursor. */
  lemma PrintableText(text: seq<u8>, cursor: Cursor, i: nat)
    requires i < |text| && forall k :: 0 <= k < |text| ==> 32 <= text[k] <= 254
    ensures |Printed(text, cursor)| == |text|
    ensures Printed(text, cursor)[i] == Glyph(text[i], 9 * (cursor.col + i), 16 * cursor.row)
    ensures AdvanceAll(cursor, text) == Cursor(cursor.col + |text|, cursor.row)
  {
    PrintableCounts(text, 0, i);
    PrintableCounts(text, 0, |text|);
    PrintedMeaning(text, cursor, 0, i);
    CursorMeaning(text, cursor, 0);
  }

  lemma {:induction false} PrintableCounts(text: seq<u8>, a: nat, n: nat)
    requires a <= n <= |text| && forall k :: 0 <= k < |text| ==> 32 <= text[k] <= 254
    ensures MarkCount(text, a, n) == Moves(text, a, n) == n - a && Newlines(text, n) == 0
  {
    PrintableMarks(text, a, n);
    PrintableMoves(text, a, n);
  }

  lemma {:induction false} PrintableMarks(text: seq<u8>, a: nat, n: nat)
    requires a <= n <= |text| && forall k :: 0 <= k < |text| ==> 32 <= text[k] <= 254
    ensures MarkCount(text, a, n) == n - a
    decreases n - a
  {
    if a < n {
      PrintableMarks(text, a + 1, n);
    }
  }

  lemma {:induction false} PrintableMoves(text: seq<u8>, a: nat, n: nat)
    requires a <= n <= |text| && forall k :: 0 <= k < |text| ==> 32 <= text[k] <= 254
    ensures Moves(text, a, n) == n - a && Newlines(text, n) == 0
    decreases n
  {
    if a < n {
      PrintableMoves(text, a, n - 1);
    } else if n > 0 {
      PrintableMoves(text, a - 1, n - 1);
    }
  }

  /** What `sys_write` leaves out: zero bytes and nothing else. */
  lemma {:induction false} ZerosLeftOut(a: seq<u8>, b: seq<u8>)
    ensures NonZero(a + b) == NonZero(a) + NonZero(b)
  {
    if b == [] {
      assert a + b == a;
    } else {
      var most, last := b[..|b| - 1], b[|b| - 1];
      ZerosLeftOut(a, most);
      assert a + b == (a + most) + [last] && b == most + [last];
      OneMoreByte(a + most, last);
      OneMoreByte(most, last);
      AppendAssociates(NonZero(a), NonZero(most), if last == 0 then [] else [last]);
    }
  }

  lemma OneMoreByte(bytes: seq<u8>, last: u8)
    ensures NonZero(bytes + [last]) == NonZero(bytes) + if last == 0 then [] else [last]
  {
    assert (bytes + [last])[..|bytes|] == bytes;
  }
}
