/** The keyboard driver: an interrupt handler that fills a ring buffer and the reads that drain it. */
module Keyboard {
  import opened Words

  const BUFFER_SIZE := 256
  const NONE := '\0'       // not a printable character

  /** A scancode table up to its last character, from the rows of letters and digits. */
  function Table(digits: string, top: string, home: string, bottom: string): string {
    "\0\U{1B}" + digits + "\U{8}\t" + top + "\n\0" + home + "\0" + bottom + "\0*\0 "
  }

  const PLAIN := Table("1234567890-=", "qwertyuiop[]", "asdfghjkl;'`", "\\zxcvbnm,./")
  const SHIFTED := Table("!@#$%^&*()_+", "QWERTYUIOP{}", "ASDFGHJKL:\"~", "|ZXCVBNM<>?")

  /** The entry of a table of 128 characters that is zero from its written end on. */
  function Lookup(table: string, scancode: nat): char {
    if scancode < |table| then table[scancode] else NONE
  }

  function Ascii(shift: bool, scancode: nat): char {
    if shift then Lookup(SHIFTED, scancode) else Lookup(PLAIN, scancode)
  }

  // ----- what typing means

  datatype Modifiers = Modifiers(shift: bool, ctrl: bool)

  const LSHIFT: u8 := 0x2A
  const RSHIFT: u8 := 0x36
  const CTRL: u8 := 0x1D
  const RELEASED: u8 := 0x80

  function NextModifiers(m: Modifiers, scancode: u8): Modifiers {
    if scancode == LSHIFT || scancode == RSHIFT then m.(shift := true)
    else if scancode == LSHIFT + RELEASED || scancode == RSHIFT + RELEASED then m.(shift := false)
    else if scancode == CTRL then m.(ctrl := true)
    else if scancode == CTRL + RELEASED then m.(ctrl := false)
    else m
  }

  predicate IsModifier(scancode: u8) {
    || scancode == LSHIFT || scancode == RSHIFT || scancode == CTRL
    || scancode == LSHIFT + RELEASED || scancode == RSHIFT + RELEASED || scancode == CTRL + RELEASED
  }

  /** The characters one scancode adds: at most one, and none for modifiers, releases and unprintable keys. */
  function Typed(m: Modifiers, scancode: u8): string {
    if IsModifier(scancode) || scancode >= RELEASED then ""
    else
      var c := Ascii(m.shift, scancode);
      if c == NONE then "" else [c]
  }

  function ModifiersAfter(history: seq<u8>): Modifiers {
    if history == [] then Modifiers(false, false)
    else NextModifiers(ModifiersAfter(history[..|history| - 1]), history[|history| - 1])
  }

  /** The text a history of scancodes types. */
  function Translate(history: seq<u8>): string {
    if history == [] then ""
    else
      var before := history[..|history| - 1];
      Translate(before) + Typed(ModifiersAfter(before), history[|history| - 1])
  }

  lemma TypingOnlyAppends(history: seq<u8>, scancode: u8)
    ensures Translate(history + [scancode]) == Translate(history) + Typed(ModifiersAfter(history), scancode)
    ensures Typed(ModifiersAfter(history), scancode) == "" ==> Translate(history + [scancode]) == Translate(history)
    ensures ModifiersAfter(history + [scancode]) == NextModifiers(ModifiersAfter(history), scancode)
  {
    assert (history + [scancode])[..|history|] == history;
  }

  // ----- what the keys type

  predicate IsShift(scancode: u8) {
    scancode == 0x2A || scancode == 0x36
  }

  predicate IsShiftRelease(scancode: u8) {
    scancode == 0xAA || scancode == 0xB6
  }

  /** Some shift key was pressed and none released since. */
  ghost predicate ShiftDown(history: seq<u8>) {
    exists i :: 0 <= i < |history| && IsShift(history[i]) && forall k :: i < k < |history| ==> !IsShiftRelease(history[k])
  }

  /** Control was pressed and not released since. */
  ghost predicate ControlDown(history: seq<u8>) {
    exists i :: 0 <= i < |history| && history[i] == 0x1D && forall k :: i < k < |history| ==> history[k] != 0x9D
  }

  lemma {:induction false} ModifiersMeaning(history: seq<u8>)
    ensures ModifiersAfter(history).shift <==> ShiftDown(history)
    ensures ModifiersAfter(history).ctrl <==> ControlDown(history)
  {
    if history != [] {
      var n := |history| - 1;
      ModifiersMeaning(history[..n]);
      OneMoreKey(history, n);
    }
  }

  lemma OneMoreKey(history: seq<u8>, n: nat)
    requires |history| == n + 1
    ensures ShiftDown(history) <==> IsShift(history[n]) || (ShiftDown(history[..n]) && !IsShiftRelease(history[n]))
    ensures ControlDown(history) <==> history[n] == 0x1D || (ControlDown(history[..n]) && history[n] != 0x9D)
  {
    if ShiftDown(history) && !IsShift(history[n]) {
      var i :| 0 <= i < |history| && IsShift(history[i]) && forall k :: i < k < |history| ==> !IsShiftRelease(history[k]);
      assert history[..n][i] == history[i];
    }
    if ShiftDown(history[..n]) && !IsShiftRelease(history[n]) {
      var i :| 0 <= i < n && IsShift(history[..n][i]) && forall k :: i < k < n ==> !IsShiftRelease(history[..n][k]);
      assert forall k :: i < k < n ==> history[..n][k] == history[k];
      assert IsShift(history[i]);
    }
    if ControlDown(history) && history[n] != 0x1D {
      var i :| 0 <= i < |history| && history[i] == 0x1D && forall k :: i < k < |history| ==> history[k] != 0x9D;
      assert history[..n][i] == history[i];
    }
    if ControlDown(history[..n]) && history[n] != 0x9D {
      var i :| 0 <= i < n && history[..n][i] == 0x1D && forall k :: i < k < n ==> history[..n][k] != 0x9D;
      assert forall k :: i < k < n ==> history[..n][k] == history[k];
      assert history[i] == 0x1D;
    }
  }

  /** The `k`-th key of a row adds its character, the shifted one exactly while shift is down. */
  ghost predicate RowTypes(history: seq<u8>, first: u8, plain: string, shifted: string) {
    |plain| == |shifted| &&
    forall k :: 0 <= k < |plain| && first + k < 0x80 ==>
      Translate(history + [first + k]) == Translate(history) + [if ShiftDown(history) then shifted[k] else plain[k]]
  }

  /** What every key types after any history. */
  lemma KeysType(history: seq<u8>)
    ensures Translate([]) == ""
    ensures RowTypes(history, 0x02, "1234567890-=", "!@#$%^&*()_+")
    ensures RowTypes(history, 0x10, "qwertyuiop[]", "QWERTYUIOP{}")
    ensures RowTypes(history, 0x1E, "asdfghjkl;'`", "ASDFGHJKL:\"~")
    ensures RowTypes(history, 0x2B, "\\zxcvbnm,./", "|ZXCVBNM<>?")
    ensures RowTypes(history, 0x01, "\U{1B}", "\U{1B}") && RowTypes(history, 0x0E, "\U{8}\t", "\U{8}\t")
    ensures RowTypes(history, 0x1C, "\n", "\n") && RowTypes(history, 0x37, "*", "*") && RowTypes(history, 0x39, " ", " ")
  {
    Tables();
    RowFromTables(history, 0x02, "1234567890-=", "!@#$%^&*()_+");
    RowFromTables(history, 0x10, "qwertyuiop[]", "QWERTYUIOP{}");
    RowFromTables(history, 0x1E, "asdfghjkl;'`", "ASDFGHJKL:\"~");
    RowFromTables(history, 0x2B, "\\zxcvbnm,./", "|ZXCVBNM<>?");
    RowFromTables(history, 0x01, "\U{1B}", "\U{1B}");
    RowFromTables(history, 0x0E, "\U{8}\t", "\U{8}\t");
    RowFromTables(history, 0x1C, "\n", "\n");
    RowFromTables(history, 0x37, "*", "*");
    RowFromTables(history, 0x39, " ", " ");
  }

  /** The row stands in the table from `first` on. */
  ghost predicate RowOf(table: string, first: u8, row: string) {
    first + |row| <= |table| <= 0x80 && table[first..first + |row|] == row && NONE !in row
  }

  lemma TableRows(digits: string, top: string, home: string, bottom: string)
    requires |digits| == |top| == |home| == 12 && |bottom| == 11
    requires NONE !in digits && NONE !in top && NONE !in home && NONE !in bottom
    ensures var table := Table(digits, top, home, bottom);
      && RowOf(table, 0x02, digits) && RowOf(table, 0x10, top) && RowOf(table, 0x1E, home) && RowOf(table, 0x2B, bottom)
      && RowOf(table, 0x01, "\U{1B}") && RowOf(table, 0x0E, "\U{8}\t") && RowOf(table, 0x1C, "\n")
      && RowOf(table, 0x37, "*") && RowOf(table, 0x39, " ")
    ensures var table := Table(digits, top, home, bottom);
      && |table| == 0x3A
      && forall scancode :: scancode in {0, 0x1D, 0x2A, 0x36, 0x38} ==> table[scancode] == NONE
  {
  }

  lemma Tables()
    ensures forall table :: table in {PLAIN, SHIFTED} ==>
      |table| == 0x3A && forall scancode :: scancode in {0, 0x1D, 0x2A, 0x36, 0x38} ==> table[scancode] == NONE
    ensures RowOf(PLAIN, 0x02, "1234567890-=") && RowOf(PLAIN, 0x10, "qwertyuiop[]")
    ensures RowOf(PLAIN, 0x1E, "asdfghjkl;'`") && RowOf(PLAIN, 0x2B, "\\zxcvbnm,./")
    ensures RowOf(SHIFTED, 0x02, "!@#$%^&*()_+") && RowOf(SHIFTED, 0x10, "QWERTYUIOP{}")
    ensures RowOf(SHIFTED, 0x1E, "ASDFGHJKL:\"~") && RowOf(SHIFTED, 0x2B, "|ZXCVBNM<>?")
    ensures forall table :: table in {PLAIN, SHIFTED} ==>
      && RowOf(table, 0x01, "\U{1B}") && RowOf(table, 0x0E, "\U{8}\t") && RowOf(table, 0x1C, "\n")
      && RowOf(table, 0x37, "*") && RowOf(table, 0x39, " ")
  {
    TableRows("1234567890-=", "qwertyuiop[]", "asdfghjkl;'`", "\\zxcvbnm,./");
    TableRows("!@#$%^&*()_+", "QWERTYUIOP{}", "ASDFGHJKL:\"~", "|ZXCVBNM<>?");
  }

  lemma RowFromTables(history: seq<u8>, first: u8, plain: string, shifted: string)
    requires RowOf(PLAIN, first, plain) && RowOf(SHIFTED, first, shifted) && |plain| == |shifted|
    ensures RowTypes(history, first, plain, shifted)
  {
    ModifiersMeaning(history);
    forall k | 0 <= k < |plain| && first + k < 0x80
      ensures Translate(history + [first + k]) == Translate(history) + [if ShiftDown(history) then shifted[k] else plain[k]]
    {
      TypingOnlyAppends(history, first + k);
      InRow(PLAIN, first, plain, k);
      InRow(SHIFTED, first, shifted, k);
      PrintableIsNoModifier(first + k);
    }
  }

  lemma PrintableIsNoModifier(scancode: u8)
    ensures scancode < RELEASED && Lookup(PLAIN, scancode) != NONE ==> !IsModifier(scancode)
  {
    Tables();
  }

  lemma InRow(table: string, first: u8, row: string, k: nat)
    requires RowOf(table, first, row) && k < |row|
    ensures Lookup(table, first + k) == row[k] != NONE
  {
    assert table[first..first + |row|][k] == table[first + k];
  }

  /** Modifiers, all other keys and all releases type nothing. */
  lemma OthersTypeNothing(history: seq<u8>, scancode: u8)
    requires scancode in {0, 0x1D, 0x2A, 0x36, 0x38} || scancode >= 0x3A
    ensures Translate(history + [scancode]) == Translate(history)
  {
    TypingOnlyAppends(history, scancode);
    Tables();
  }

  // ----- which character a read finds

  /** Of the first `n` characters, the last one that went into the slot of character `k`. */
  function Newest(n: nat, k: nat): (i: nat)
    requires k < n
    ensures k <= i < n && n - i <= BUFFER_SIZE && i % BUFFER_SIZE == k % BUFFER_SIZE
    decreases n - k
  {
    if n - k <= BUFFER_SIZE then k else Newest(n, k + BUFFER_SIZE)
  }

  /** The slot still holds the character meant exactly when no more than a buffer full is unread. */
  lemma ReadInTime(n: nat, k: nat)
    requires k < n
    ensures Newest(n, k) == k <==> n - k <= 256
  {
  }

  /** The slots hold the last characters typed, as many as fit. */
  ghost predicate Holds(slots: string, text: string) {
    && |slots| == BUFFER_SIZE
    && forall k :: 0 <= k < |text| && |text| - k <= BUFFER_SIZE ==> slots[k % BUFFER_SIZE] == text[k]
  }

  lemma HoldsOneMore(slots: string, text: string, c: char)
    requires Holds(slots, text)
    ensures Holds(slots[|text| % BUFFER_SIZE := c], text + [c])
  {
    var after := slots[|text| % BUFFER_SIZE := c];
    forall k | 0 <= k < |text| + 1 && |text| + 1 - k <= BUFFER_SIZE
      ensures after[k % BUFFER_SIZE] == (text + [c])[k]
    {
      if k < |text| {
        assert k % BUFFER_SIZE != |text| % BUFFER_SIZE;
      }
    }
  }

  lemma HoldsNewest(slots: string, text: string, k: nat)
    requires Holds(slots, text) && k < |text|
    ensures slots[k % BUFFER_SIZE] == text[Newest(|text|, k)]
  {
  }

  const WRAP := 0x1_0000_0000

  function Next(pos: u32): u32 {
    if pos == WRAP - 1 then 0 else pos + 1
  }

  /** A 32-bit counter after `n` increments. */
  function Wrapped(n: nat): u32 {
    if n < WRAP then n else Wrapped(n - WRAP)
  }

  /** A position that wraps still names the right slot, since 256 divides 2^32. */
  lemma {:induction false} PositionWraps(n: nat)
    ensures Wrapped(n) % BUFFER_SIZE == n % BUFFER_SIZE && Next(Wrapped(n)) == Wrapped(n + 1)
    ensures Wrapped(n) == n % WRAP
  {
    if n >= WRAP {
      PositionWraps(n - WRAP);
      SameRemainders(n - WRAP);
    }
  }

  lemma SameRemainders(n: nat)
    ensures (n + WRAP) % BUFFER_SIZE == n % BUFFER_SIZE && (n + WRAP) % WRAP == n % WRAP
  {
    assert WRAP == 0x100_0000 * BUFFER_SIZE;
  }

  /** What the positions can tell of the number of characters waiting. */
  function Waiting(total: nat, consumed: nat): (n: nat)
    requires consumed <= total
    ensures n <= total - consumed
  {
    if total - consumed < WRAP then total - consumed else Waiting(total - WRAP, consumed)
  }

  lemma {:induction false} PositionsMeet(total: nat, consumed: nat)
    requires consumed <= total
    ensures Wrapped(consumed) == Wrapped(total) <==> Waiting(total, consumed) == 0
    ensures Waiting(total, consumed) > 0 ==> Waiting(total, consumed + 1) == Waiting(total, consumed) - 1
    ensures Waiting(total, consumed) == (total - consumed) % WRAP
  {
    if total - consumed >= WRAP {
      PositionsMeet(total - WRAP, consumed);
    } else {
      CloseCountersDiffer(total, consumed);
    }
  }

  lemma {:induction false} CloseCountersDiffer(n: nat, k: nat)
    requires k <= n < k + WRAP
    ensures Wrapped(k) == Wrapped(n) <==> k == n
  {
    if k >= WRAP {
      CloseCountersDiffer(n - WRAP, k - WRAP);
    }
  }

  class Keyboard {
    var buffer: array<char>
    var readPos: u32
    var writePos: u32
    var shiftHeld: bool
    var ctrlHeld: bool
    ghost var history: seq<u8>   // every scancode since initialisation
    ghost var consumed: nat      // how many characters have been read

    ghost predicate Valid()
      reads this, buffer
    {
      && ModifiersAfter(history) == Modifiers(shiftHeld, ctrlHeld)
      && consumed <= |Text()|
      && readPos == Wrapped(consumed) && writePos == Wrapped(|Text()|)
      && Holds(buffer[..], Text())
    }

    ghost function Text(): string
      reads `history
    {
      Translate(history)
    }

    ghost function Unread(): nat
      requires consumed <= |Text()|
      reads `history, `consumed
    {
      Waiting(|Text()|, consumed)
    }

    constructor (memory: array<char>)
      requires memory.Length == BUFFER_SIZE
      ensures Valid() && history == [] && consumed == 0 && buffer == memory
    {
      buffer := memory;
      readPos, writePos, shiftHeld, ctrlHeld := 0, 0, false, false;
      history, consumed := [], 0;
    }

    method HandleInterrupt(scancode: u8)
      requires Valid()
      modifies this, buffer
      ensures Valid() && buffer == old(buffer)
      ensures history == old(history) + [scancode] && consumed == old(consumed)
    {
      TypingOnlyAppends(history, scancode);
      history := history + [scancode];
      if scancode == LSHIFT || scancode == RSHIFT {
        shiftHeld := true;
        return;
      }
      if scancode == LSHIFT + RELEASED || scancode == RSHIFT + RELEASED {
        shiftHeld := false;
        return;
      }
      if scancode == CTRL {
        ctrlHeld := true;
        return;
      }
      if scancode == CTRL + RELEASED {
        ctrlHeld := false;
        return;
      }
      if scancode >= RELEASED {
        return;
      }
      var c := Ascii(shiftHeld, scancode);
      if c != NONE {
        Put(c, old(Text()));
      }
    }

    method Put(c: char, ghost text: string)
      requires Holds(buffer[..], text) && writePos == Wrapped(|text|)
      modifies `writePos, buffer
      ensures Holds(buffer[..], text + [c]) && writePos == Wrapped(|text| + 1)
    {
      PositionWraps(|text|);
      HoldsOneMore(buffer[..], text, c);
      ghost var slots := buffer[..];
      buffer[writePos % BUFFER_SIZE] := c;
      assert buffer[..] == slots[|text| % BUFFER_SIZE := c];
      writePos := Next(writePos);
    }

    predicate HasInput()
      requires Valid()
      reads this, buffer
      ensures HasInput() <==> Unread() != 0
    {
      PositionsMeet(|Text()|, consumed);
      readPos != writePos
    }

    method ReadChar() returns (c: char)
      requires Valid()
      modifies `readPos, `consumed
      ensures Valid()
      ensures if old(Unread()) == 0
        then c == NONE && consumed == old(consumed)
        else |Text()| > old(consumed) && c == Text()[Newest(|Text()|, old(consumed))] && consumed == old(consumed) + 1
             && Unread() == old(Unread()) - 1
    {
      if !HasInput() {
        return NONE;
      }
      PositionsMeet(|Text()|, consumed);
      PositionWraps(consumed);
      HoldsNewest(buffer[..], Text(), consumed);
      c := buffer[readPos % BUFFER_SIZE];
      readPos := Next(readPos);
      consumed := consumed + 1;
    }

    /** The `read` system call; its gate keeps keyboard interrupts out until it returns. */
    method SysRead(count: u32, buf: array<char>) returns (n: u32)
      requires Valid() && count <= buf.Length && buf != buffer
      modifies `readPos, `consumed, buf
      ensures Valid()
      ensures n == Min(count, old(Unread())) && consumed == old(consumed) + n <= |Text()|
      ensures forall k :: 0 <= k < n ==> buf[k] == Text()[Newest(|Text()|, old(consumed) + k)]
      ensures forall k :: n <= k < buf.Length ==> buf[k] == old(buf[k])
    {
      n := 0;
      ghost var text, first, waiting := Text(), consumed, Unread();
      while n < count
        invariant Valid() && consumed == first + n && Unread() == waiting - n && n <= count
        invariant forall k :: 0 <= k < n ==> buf[k] == text[Newest(|text|, first + k)]
        invariant forall k :: n <= k < buf.Length ==> buf[k] == old(buf[k])
      {
        if !HasInput() {
          break;
        }
        ReadInto(buf, n);
        n := n + 1;
      }
    }

    /** The object has served what the session has. */
    ghost predicate Serves(s: Session)
      reads this, buffer
    {
      Valid() && s.Consistent() && s.history == history && s.consumed == consumed
    }

    /** One event of a session, on the object: a scancode arrives, or a read puts characters into `buf`. */
    method Serve(e: Event, buf: array<char>, ghost s: Session) returns (n: u32)
      requires Serves(s) && buf != buffer && (e.Read? ==> e.count <= buf.Length)
      modifies this, buffer, buf
      ensures buffer == old(buffer) && Serves(After(s, e))
      ensures n <= buf.Length && After(s, e).output == s.output + buf[..n]
    {
      match e
      case Key(scancode) =>
        HandleInterrupt(scancode);
        n := 0;
        assert s.output + buf[..0] == s.output;
      case Read(count) =>
        n := SysRead(count, buf);
        assert buf[..n] == Received(Text(), s.consumed, n);
    }

    method ReadInto(buf: array<char>, n: nat)
      requires Valid() && Unread() != 0 && n < buf.Length && buf != buffer
      modifies `readPos, `consumed, buf
      ensures Valid() && consumed == old(consumed) + 1 && Unread() == old(Unread()) - 1
      ensures old(consumed) < |Text()|
      ensures forall k :: 0 <= k < buf.Length ==>
        buf[k] == if k == n then Text()[Newest(|Text()|, old(consumed))] else old(buf[k])
    {
      buf[n] := ReadChar();
    }
  }

  /** The characters `n` reads in a row return once `consumed` have been read. */
  function Received(text: string, consumed: nat, n: nat): (r: string)
    requires consumed + n <= |text|
    ensures |r| == n && forall k :: 0 <= k < n ==> r[k] == text[Newest(|text|, consumed + k)]
  {
    seq<char>(n, k requires 0 <= k < n => text[Newest(|text|, consumed + k)])
  }

  function Min(a: nat, b: nat): nat {
    if a < b then a else b
  }

  // ----- every interleaving of interrupts and reads

  datatype Event = Key(scancode: u8) | Read(count: u32)

  datatype Session = Session(history: seq<u8>, consumed: nat, output: string, taken: seq<nat>) {
    ghost predicate Consistent() {
      && consumed == |taken| == |output| && consumed <= |Translate(history)|
      && forall i :: 0 <= i < |taken| ==> taken[i] < |Translate(history)| && output[i] == Translate(history)[taken[i]]
    }
  }

  /** The positions, in the text typed so far, of the characters that `n` reads return. */
  function Positions(total: nat, consumed: nat, n: nat): (r: seq<nat>)
    requires consumed + n <= total
    ensures |r| == n && forall i :: 0 <= i < n ==> r[i] == Newest(total, consumed + i)
  {
    seq<nat>(n, i requires 0 <= i < n => Newest(total, consumed + i))
  }

  /** How many characters a read of `count` returns. */
  function Granted(s: Session, count: u32): (n: nat)
    requires s.consumed <= |Translate(s.history)|
    ensures s.consumed + n <= |Translate(s.history)|
  {
    Min(count, Waiting(|Translate(s.history)|, s.consumed))
  }

  /** What the driver's two entry points do to a session; `Keyboard.Serve` does it on the object. */
  ghost function After(s: Session, e: Event): (r: Session)
    requires s.Consistent()
    ensures r.Consistent()
  {
    match e
    case Key(scancode) =>
      TypingOnlyAppends(s.history, scancode);
      s.(history := s.history + [scancode])
    case Read(count) =>
      var text := Translate(s.history);
      var n := Granted(s, count);
      s.(consumed := s.consumed + n,
         output := s.output + Received(text, s.consumed, n),
         taken := s.taken + Positions(|text|, s.consumed, n))
  }

  const START := Session([], 0, "", [])

  ghost function Run(events: seq<Event>): (r: Session)
    ensures r.Consistent()
  {
    if events == [] then START else After(Run(events[..|events| - 1]), events[|events| - 1])
  }

  /** No read that returns characters comes when more than a buffer full is unread. */
  ghost predicate InTime(events: seq<Event>) {
    events == [] ||
    (var before, last := events[..|events| - 1], events[|events| - 1];
     InTime(before) && (last.Read? ==> ReadIsInTime(Run(before), last.count)))
  }

  ghost predicate ReadIsInTime(s: Session, count: u32)
    requires s.consumed <= |Translate(s.history)|
  {
    Granted(s, count) == 0 || |Translate(s.history)| - s.consumed <= BUFFER_SIZE
  }

  ghost predicate InOrder(taken: seq<nat>) {
    forall i :: 0 <= i < |taken| ==> taken[i] == i
  }

  lemma ReadTakesInOrder(s: Session, count: u32)
    requires s.Consistent()
    ensures InOrder(After(s, Read(count)).taken) <==> InOrder(s.taken) && ReadIsInTime(s, count)
  {
    var r := After(s, Read(count));
    var total, n := |Translate(s.history)|, Granted(s, count);
    assert forall i :: 0 <= i < |s.taken| ==> r.taken[i] == s.taken[i];
    if n > 0 {
      ReadInTime(total, s.consumed);
      assert r.taken[s.consumed] == Newest(total, s.consumed + 0);
    }
    if ReadIsInTime(s, count) && InOrder(s.taken) {
      forall i | 0 <= i < |r.taken|
        ensures r.taken[i] == i
      {
        if i >= s.consumed {
          assert r.taken[i] == Newest(total, s.consumed + (i - s.consumed));
          ReadInTime(total, i);
        }
      }
    }
  }

  /** In every interleaving the characters typed are delivered once each and in order exactly when every read
      comes in time. */
  lemma {:induction false} DeliveredInOrder(events: seq<Event>)
    ensures InOrder(Run(events).taken) <==> InTime(events)
  {
    if events != [] {
      var n := |events| - 1;
      DeliveredInOrder(events[..n]);
      if events[n].Read? {
        ReadTakesInOrder(Run(events[..n]), events[n].count);
      }
    }
  }

  /** Then what has been read is a prefix of what the scancodes type, and while no more than a buffer full is unread
      the buffer of the object that served the events holds exactly the rest. */
  lemma ReadIsPrefix(events: seq<Event>, kb: Keyboard)
    requires InTime(events) && kb.Serves(Run(events))
    ensures var s := Run(events);
      var text := Translate(s.history);
      && s.output == text[..s.consumed]
      && (|text| - s.consumed <= 256 ==> Rest(kb.buffer[..], s.consumed, |text|) == text[s.consumed..])
  {
    DeliveredInOrder(events);
  }

  /** The characters in the slots of the positions from `first` up to `last`. */
  function Rest(slots: string, first: nat, last: nat): (r: string)
    requires first <= last && |slots| == BUFFER_SIZE
    ensures |r| == last - first && forall k :: 0 <= k < |r| ==> r[k] == slots[(first + k) % BUFFER_SIZE]
  {
    seq<char>(last - first, k requires 0 <= k < last - first => slots[(first + k) % BUFFER_SIZE])
  }
}
