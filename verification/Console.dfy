/** The text console: a whole-string painter, a cursor, and the system call that prints byte by byte. */
module Console {
  import opened Sequences
  import opened Words

  const BACKSPACE: u8 := 8
  const TAB: u8 := 9
  const NEWLINE: u8 := 10
  const RETURN: u8 := 13
  const SPACE: u8 := 32
  const QUESTION: u8 := 63

  const CELL_WIDTH := 9
  const CELL_HEIGHT := 16

  /** A character drawn with its top left corner at a pixel. */
  datatype Glyph = Glyph(c: u8, x: int, y: int)

  datatype Cursor = Cursor(col: int, row: int)

  // ----- what painting a string draws

  /** The glyph a byte draws with the pen at `(x, y)`, if any. */
  function Drawn(b: u8, x: int, y: int): seq<Glyph> {
    if b == NEWLINE || b == RETURN || b == TAB then []
    else if b == BACKSPACE then [Glyph(SPACE, Back(x), y)]
    else if 32 <= b <= 254 then [Glyph(b, x, y)]
    else [Glyph(QUESTION, x, y)]
  }

  function Back(x: int): int {
    if x <= 0 then 0 else x - CELL_WIDTH
  }

  function PenX(b: u8, start: int, x: int): int {
    if b == NEWLINE || b == RETURN then start
    else if b == BACKSPACE then Back(x)
    else if b == TAB then x + CELL_WIDTH * 4
    else x + CELL_WIDTH
  }

  function PenY(b: u8, y: int): int {
    if b == NEWLINE then y + CELL_HEIGHT else y
  }

  /** The glyphs of a text painted with the pen at `(x, y)` and line breaks returning to `start`. */
  function Paint(text: seq<u8>, start: int, x: int, y: int): seq<Glyph> {
    if text == [] then []
    else Drawn(text[0], x, y) + Paint(text[1..], start, PenX(text[0], start, x), PenY(text[0], y))
  }

  // ----- what printing does to the cursor

  function Advance(cursor: Cursor, b: u8): Cursor {
    if b == NEWLINE then Cursor(0, cursor.row + 1)
    else if b == RETURN then Cursor(0, cursor.row)
    else if b == TAB then Cursor(cursor.col + 4, cursor.row)
    else if b == BACKSPACE then Cursor(if cursor.col <= 0 then 0 else cursor.col - 1, cursor.row)
    else Cursor(cursor.col + 1, cursor.row)
  }

  function AdvanceAll(cursor: Cursor, text: seq<u8>): Cursor
    decreases |text|
  {
    if text == [] then cursor else AdvanceAll(Advance(cursor, text[0]), text[1..])
  }

  /** The glyphs of one `kprint` of a whole text. */
  function Printed(text: seq<u8>, cursor: Cursor): seq<Glyph> {
    var x := cursor.col * CELL_WIDTH;
    Paint(text, x, x, cursor.row * CELL_HEIGHT)
  }

  /** The glyphs of one `kputc` for each byte. */
  function PutEach(text: seq<u8>, cursor: Cursor): seq<Glyph> {
    if text == [] then [] else Printed([text[0]], cursor) + PutEach(text[1..], Advance(cursor, text[0]))
  }

  class Console {
    var col: int
    var row: int
    var screen: seq<Glyph>     // everything drawn, in order

    constructor ()
      ensures At() == Cursor(0, 0) && screen == []
    {
      col, row, screen := 0, 0, [];
    }

    function At(): Cursor
      reads this
    {
      Cursor(col, row)
    }

    method DrawString(text: seq<u8>, startX: int, y: int)
      modifies `screen
      ensures screen == old(screen) + Paint(text, startX, startX, y)
    {
      var pos, posY := startX, y;
      for i := 0 to |text|
        invariant screen + Paint(text[i..], startX, pos, posY) == old(screen) + Paint(text, startX, startX, y)
      {
        ghost var before := screen;
        ghost var x, h := pos, posY;
        var b := text[i];
        if b == NEWLINE {
          posY := posY + 16;
          pos := startX;
        } else if b == RETURN {
          pos := startX;
        } else if b == BACKSPACE {
          pos := if pos <= 0 then 0 else pos - 9;
          screen := screen + [Glyph(SPACE, pos, posY)];
        } else if b == TAB {
          pos := pos + 9 * 4;
        } else {
          screen := screen + [Glyph(if 32 <= b <= 254 then b else QUESTION, pos, posY)];
          pos := pos + 9;
        }
        PaintStep(before, text, i, startX, x, h);
        assert screen == before + Drawn(b, x, h);
      }
    }

    /** `str` is the string up to its terminating zero. */
    method Kprint(str: seq<u8>)
      modifies this
      ensures screen == old(screen) + Printed(str, old(At())) && At() == AdvanceAll(old(At()), str)
    {
      DrawString(str, col * 9, row * 16);
      for i := 0 to |str|
        invariant AdvanceAll(At(), str[i..]) == AdvanceAll(old(At()), str)
        invariant screen == old(screen) + Printed(str, old(At()))
      {
        var p := str[i];
        if p == NEWLINE {
          col := 0;
          row := row + 1;
        } else if p == RETURN {
          col := 0;
        } else if p == TAB {
          col := col + 4;
        } else if p == BACKSPACE {
          col := if col <= 0 then 0 else col - 1;
        } else {
          col := col + 1;
        }
        assert str[i..][1..] == str[i + 1..];
      }
    }

    /** A zero byte makes the two-byte string empty. */
    method Kputc(c: u8)
      modifies this
      ensures screen == old(screen) + PutEach(NonZero([c]), old(At())) && At() == AdvanceAll(old(At()), NonZero([c]))
    {
      PutOne(c, At());
      Kprint(if c == 0 then [] else [c]);
    }

    method SysWrite(buf: seq<u8>) returns (n: nat)
      modifies this
      ensures n == |buf|
      ensures screen == old(screen) + PutEach(NonZero(buf), old(At())) && At() == AdvanceAll(old(At()), NonZero(buf))
    {
      n := 0;
      while n < |buf|
        invariant n <= |buf|
        invariant screen == old(screen) + PutEach(NonZero(buf[..n]), old(At()))
        invariant At() == AdvanceAll(old(At()), NonZero(buf[..n]))
      {
        WriteStep(old(screen), buf, n, old(At()));
        Kputc(buf[n]);
        n := n + 1;
      }
      assert buf[..n] == buf;
    }
  }

  function NonZero(bytes: seq<u8>): seq<u8> {
    if bytes == [] then []
    else NonZero(bytes[..|bytes| - 1]) + if bytes[|bytes| - 1] == 0 then [] else [bytes[|bytes| - 1]]
  }

  lemma PaintStep(before: seq<Glyph>, text: seq<u8>, i: nat, start: int, x: int, y: int)
    requires i < |text|
    ensures before + Paint(text[i..], start, x, y) ==
      before + Drawn(text[i], x, y) + Paint(text[i + 1..], start, PenX(text[i], start, x), PenY(text[i], y))
  {
    assert text[i..][1..] == text[i + 1..];
  }

  lemma PutOne(c: u8, cursor: Cursor)
    ensures NonZero([c]) == if c == 0 then [] else [c]
    ensures PutEach([c], cursor) == Printed([c], cursor) && PutEach([], cursor) == []
  {
    assert [c][..0] == [] && [c][1..] == [];
  }

  lemma {:induction false} PutEachAppend(a: seq<u8>, b: seq<u8>, cursor: Cursor)
    ensures PutEach(a + b, cursor) == PutEach(a, cursor) + PutEach(b, AdvanceAll(cursor, a))
    ensures AdvanceAll(cursor, a + b) == AdvanceAll(AdvanceAll(cursor, a), b)
  {
    if a == [] {
      assert a + b == b;
    } else {
      var next := Advance(cursor, a[0]);
      PutEachAppend(a[1..], b, next);
      assert (a + b)[1..] == a[1..] + b;
      AppendAssociates(Printed([a[0]], cursor), PutEach(a[1..], next), PutEach(b, AdvanceAll(next, a[1..])));
    }
  }

  lemma WriteStep(screen: seq<Glyph>, buf: seq<u8>, n: nat, cursor: Cursor)
    requires n < |buf|
    ensures var before, now := NonZero(buf[..n]), NonZero(buf[..n + 1]);
      && screen + PutEach(now, cursor) ==
         screen + PutEach(before, cursor) + PutEach(NonZero([buf[n]]), AdvanceAll(cursor, before))
      && AdvanceAll(cursor, now) == AdvanceAll(AdvanceAll(cursor, before), NonZero([buf[n]]))
  {
    assert buf[..n + 1][..n] == buf[..n];
    PutOne(buf[n], cursor);
    assert NonZero(buf[..n + 1]) == NonZero(buf[..n]) + NonZero([buf[n]]);
    PutEachAppend(NonZero(buf[..n]), NonZero([buf[n]]), cursor);
  }

  // ----- the two ways of printing

  /** Printing byte by byte is painting with line breaks that return to column 0. */
  lemma {:induction false} PutEachIsPaintFromZero(text: seq<u8>, cursor: Cursor)
    ensures PutEach(text, cursor) == Paint(text, 0, cursor.col * CELL_WIDTH, cursor.row * CELL_HEIGHT)
  {
    if text != [] {
      PutEachIsPaintFromZero(text[1..], Advance(cursor, text[0]));
      PrintedOne(text[0], cursor);
    }
  }

  lemma PrintedOne(b: u8, cursor: Cursor)
    ensures Printed([b], cursor) == Drawn(b, cursor.col * CELL_WIDTH, cursor.row * CELL_HEIGHT)
    ensures Advance(cursor, b).col * CELL_WIDTH == PenX(b, 0, cursor.col * CELL_WIDTH)
    ensures Advance(cursor, b).row * CELL_HEIGHT == PenY(b, cursor.row * CELL_HEIGHT)
  {
    var x, y := cursor.col * CELL_WIDTH, cursor.row * CELL_HEIGHT;
    assert [b][1..] == [];
    assert Paint([b], x, x, y) == Drawn(b, x, y) + [];
  }

  /** Whether painting from column `col` agrees with printing byte by byte. A line break of the painter returns to
      `col`, not to column 0; the two then agree only if nothing but tabs follows before the next break, or a
      backspace right after it, in column 1 or left of the screen, brings both pens to the margin. */
  predicate Agrees(text: seq<u8>, col: int, atMargin: bool, tabbed: bool) {
    if text == [] then true
    else if text[0] == NEWLINE || text[0] == RETURN then Agrees(text[1..], col, col == 0, false)
    else if atMargin then Agrees(text[1..], col, true, false)
    else if text[0] == TAB then Agrees(text[1..], col, false, true)
    else text[0] == BACKSPACE && !tabbed && col <= 1 && Agrees(text[1..], col, true, false)
  }

  lemma {:induction false} PensAgree(text: seq<u8>, col: int, x: int, tabs: nat, y: int, together: bool)
    requires together || (col != 0 && x == CELL_WIDTH * 4 * tabs)
    ensures Paint(text, col * CELL_WIDTH, if together then x else col * CELL_WIDTH + x, y) == Paint(text, 0, x, y)
       <==> Agrees(text, col, together, tabs > 0)
    decreases |text|
  {
    if text != [] {
      var b, rest, first := text[0], text[1..], if together then x else col * CELL_WIDTH + x;
      SameFirst(Drawn(b, first, y), Drawn(b, x, y),
                Paint(rest, col * CELL_WIDTH, PenX(b, col * CELL_WIDTH, first), PenY(b, y)),
                Paint(rest, 0, PenX(b, 0, x), PenY(b, y)));
      if b == NEWLINE || b == RETURN {
        PensAgree(rest, col, 0, 0, PenY(b, y), col == 0);
      } else if together {
        PensAgree(rest, col, PenX(b, 0, x), 0, y, true);
      } else if b == TAB {
        PensAgree(rest, col, x + CELL_WIDTH * 4, tabs + 1, y, false);
      } else if b == BACKSPACE && tabs == 0 && col <= 1 {
        PensAgree(rest, col, 0, 0, y, true);
      } else {
        assert Drawn(b, first, y)[0] != Drawn(b, x, y)[0];
      }
    }
  }

  lemma SameFirst(a: seq<Glyph>, b: seq<Glyph>, c: seq<Glyph>, d: seq<Glyph>)
    requires |a| == |b|
    ensures a + c == b + d <==> a == b && c == d
  {
    if a + c == b + d {
      assert a == (a + c)[..|a|] && b == (b + d)[..|a|];
      assert c == (a + c)[|a|..] && d == (b + d)[|a|..];
    }
  }

  /** One `kprint` draws the same glyphs in the same order as one `kputc` for each byte exactly when `Agrees`. */
  lemma KprintIsKputcEach(text: seq<u8>, cursor: Cursor)
    ensures Printed(text, cursor) == PutEach(text, cursor) <==> Agrees(text, cursor.col, true, false)
  {
    PutEachIsPaintFromZero(text, cursor);
    PensAgree(text, cursor.col, cursor.col * CELL_WIDTH, 0, cursor.row * CELL_HEIGHT, true);
  }

  /** In column 0, or without line breaks, it always does. */
  lemma {:induction false} AgreesAtMargin(text: seq<u8>, col: int)
    requires col == 0 || (NEWLINE !in text && RETURN !in text)
    ensures Agrees(text, col, true, false)
  {
    if text != [] {
      AgreesAtMargin(text[1..], col);
    }
  }

  /** A write of bytes without zeros draws what one print of them would, exactly when `Agrees`. */
  lemma SysWriteIsOneKprint(buf: seq<u8>, cursor: Cursor)
    requires 0 !in buf
    ensures PutEach(NonZero(buf), cursor) == Printed(buf, cursor) <==> Agrees(buf, cursor.col, true, false)
    ensures AdvanceAll(cursor, NonZero(buf)) == AdvanceAll(cursor, buf)
  {
    NoZeros(buf);
    KprintIsKputcEach(buf, cursor);
  }

  lemma {:induction false} NoZeros(buf: seq<u8>)
    requires 0 !in buf
    ensures NonZero(buf) == buf
  {
    if buf != [] {
      NoZeros(buf[..|buf| - 1]);
    }
  }
}
