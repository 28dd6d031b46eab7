/** What the character display does with each byte and each sequence, told in rows and columns of the display
    and in the bytes of the line, and what the bytes on the bus tell the controller. */
module LcdMeaning {
  import opened Words
  import S = ScreenSpec
  import opened C = ScreenCommands
  import opened L = LcdSpec

  // ---------- the controller ----------

  /** The places of the rows in the memory of the controller. */
  lemma RowsBegin(cols: nat, x: nat)
    ensures Address(cols, x, 0) == x && Address(cols, x, 1) == 64 + x
    ensures Address(cols, x, 2) == cols + x && Address(cols, x, 3) == 64 + cols + x
  {
  }

  /** The lines of forty, through which the address counter goes either way. */
  lemma LinesOfForty(a: nat)
    ensures OnLine(a) <==> a < 40 || 64 <= a < 104
    ensures OnLine(a) ==> OnLine(NextAddress(a)) && OnLine(PreviousAddress(a))
    ensures OnLine(a) ==> PreviousAddress(NextAddress(a)) == a && NextAddress(PreviousAddress(a)) == a
    ensures NextAddress(0) == 1 && NextAddress(39) == 64 && NextAddress(103) == 0
  {
  }

  /** A byte on the bus comes as two halves, the higher one first. */
  lemma HigherHalfFirst(c: Controller, high: nat, low: nat)
    requires c.half == 16 && high < 16 && low < 16
    ensures var b := 16 * high + low;
      TakeHalf(TakeHalf(c, high), low) == if c.rs then Store(c, b) else Instruct(c, b)
  {
    var b: Byte := 16 * high + low;
    assert b / 16 == high && b % 16 == low;
    ByteTaken(c, b);
  }

  /** The instructions that the driver gives. */
  lemma Instructions(c: Controller, n: nat)
    requires Listening(c)
    ensures n < 128 ==> Instruct(c, 128 + n) == c.(address := n, font := false)
    ensures n < 64 ==> Instruct(c, 64 + n) == c.(glyph := n, font := true)
    ensures Instruct(c, 0x20) == c.(settings := c.settings.(twoLines := false))
    ensures Instruct(c, 0x28) == c.(settings := c.settings.(twoLines := true))
    ensures Instruct(c, 0x0E) == c.(settings := c.settings.(on := true, cursor := true, blink := false))
    ensures Instruct(c, 0x0C) == c.(settings := c.settings.(on := true, cursor := false, blink := false))
    ensures Instruct(c, 0x06) == c.(settings := c.settings.(right := true, shifting := false))
  {
  }

  lemma ClearInstruction(c: Controller)
    requires Listening(c)
    ensures var d := Instruct(c, 1);
      && d == c.(address := 0, font := false, memory := d.memory, settings := c.settings.(right := true))
      && |d.memory| == 128 && forall a :: 0 <= a < 128 ==> d.memory[a] == 0x20
  {
  }

  /** A byte is stored at the address there is, and no other place changes. */
  lemma StoredAt(c: Controller, b: Byte)
    requires Listening(c)
    ensures var d := Store(c, b);
      && d == c.(memory := d.memory, address := d.address, glyphs := d.glyphs, glyph := d.glyph)
      && |d.memory| == 128 && |d.glyphs| == 64
      && (forall a :: 0 <= a < 128 ==> d.memory[a] == if a == c.address && !c.font then b else c.memory[a])
      && (forall a :: 0 <= a < 64 ==> d.glyphs[a] == if a == c.glyph && c.font then b else c.glyphs[a])
      && d.glyph == (if !c.font then c.glyph else if c.glyph == 63 then 0 else c.glyph + 1)
      && d.address == (if c.font then c.address
           else if c.settings.right then NextAddress(c.address) else PreviousAddress(c.address))
  {
  }

  /** The row of a glyph: of its eight bytes, five bits each. */
  lemma GlyphIs(glyphs: seq<Byte>, first: nat, font: seq<Byte>)
    requires first + 8 <= |glyphs| && |font| == 8
    ensures var g := WithGlyph(glyphs, first, font, 8);
      |g| == |glyphs| && forall a :: 0 <= a < |g| ==>
        g[a] == if first <= a < first + 8 then font[a - first] % 32 else glyphs[a]
  {
  }

  // ---------- control characters ----------

  ghost predicate Idle(t: Terminal, cols: nat, rows: nat) {
    Good(t.s, cols, rows) && t.mode == S.Start
  }

  /** After one byte. */
  ghost function After(t: Terminal, b: Byte, cols: nat, rows: nat): Terminal
    requires Good(t.s, cols, rows)
  {
    Run(t, [b], cols, rows)
  }

  lemma RunOne(t: Terminal, b: Byte, rest: seq<Byte>, cols: nat, rows: nat)
    requires Good(t.s, cols, rows)
    ensures Good(Step(t, b, cols, rows).s, cols, rows)
    ensures Run(t, [b] + rest, cols, rows) == Run(Step(t, b, cols, rows), rest, cols, rows)
    ensures Run(t, [b], cols, rows) == Step(t, b, cols, rows)
  {
    StepKeepsGood(t, b, cols, rows);
    assert ([b] + rest)[1..] == rest;
    assert [b][1..] == [];
  }

  /** The rows of `v` are those of `u`, moved up by one. */
  ghost predicate MovedUp(u: Shown, v: Shown, cols: nat, rows: nat)
    requires Sized(u.copy, cols, rows) && Sized(v.copy, cols, rows)
  {
    forall y, x :: 0 <= y < rows && 0 <= x < cols ==>
      v.copy[y][x] == if y + 1 < rows then u.copy[y + 1][x] else 0x20
  }

  lemma Scrolls(s: Shown, cols: nat, rows: nat)
    requires Good(s, cols, rows) && s.y + 1 == rows
    ensures var v := L.Down(s, cols);
      v == s.(copy := v.copy) && Sized(v.copy, cols, rows) && MovedUp(s, v, cols, rows)
  {
    var v := L.Down(s, cols);
    assert v.copy == s.copy[1..] + [Spaces(cols)];
    forall y | 0 <= y < rows
      ensures v.copy[y] == if y + 1 < rows then s.copy[y + 1] else Spaces(cols)
    {
    }
  }

  lemma Backspace(t: Terminal, cols: nat, rows: nat)
    requires Idle(t, cols, rows)
    ensures After(t, 8, cols, rows) == t.(s := t.s.(
      x := if t.s.x > 0 then t.s.x - 1 else if t.s.y > 0 then cols - 1 else 0,
      y := if t.s.x > 0 || t.s.y == 0 then t.s.y else t.s.y - 1))
  {
    RunOne(t, 8, [], cols, rows);
  }

  lemma Return(t: Terminal, cols: nat, rows: nat)
    requires Idle(t, cols, rows)
    ensures After(t, 13, cols, rows) == t.(s := t.s.(x := 0))
  {
    RunOne(t, 13, [], cols, rows);
  }

  /** A line feed goes to the first column of the next row; in the last row the display scrolls. */
  lemma LineFeed(t: Terminal, cols: nat, rows: nat)
    requires Idle(t, cols, rows)
    ensures var u := After(t, 10, cols, rows);
      if t.s.y + 1 < rows then u == t.(s := t.s.(x := 0, y := t.s.y + 1))
      else u == t.(s := t.s.(x := 0, copy := u.s.copy)) && MovedUp(t.s, u.s, cols, rows)
  {
    RunOne(t, 10, [], cols, rows);
    if t.s.y + 1 >= rows { Scrolls(t.s.(x := 0), cols, rows); }
  }

  /** A tab goes to the next column that is a multiple of eight, or to a new line if there is none. */
  lemma Tabs(t: Terminal, x: nat, cols: nat, rows: nat)
    requires Idle(t, cols, rows) && x % 8 == 0 && t.s.x < x <= t.s.x + 8
    ensures After(t, 9, cols, rows) == if x < cols then t.(s := t.s.(x := x)) else After(t, 10, cols, rows)
  {
    RunOne(t, 9, [], cols, rows);
    RunOne(t, 10, [], cols, rows);
    assert (t.s.x / 8 + 1) * 8 == x;
  }

  /** A character is put where the cursor is, which goes on; from the last column, to a new line. The codes from
      0x80 on stand for the eight glyphs of one's own. */
  lemma Printable(t: Terminal, b: Byte, cols: nat, rows: nat)
    requires Idle(t, cols, rows) && b >= 0x20
    ensures var code: Byte := if 0x80 <= b <= 0x87 then b - 0x80 else b;
      var row: seq<Byte> := t.s.copy[t.s.y][t.s.x := code];
      var p := t.(s := t.s.(copy := t.s.copy[t.s.y := row]));
      && Idle(p, cols, rows)
      && After(t, b, cols, rows)
        == if t.s.x + 1 < cols then p.(s := p.s.(x := t.s.x + 1)) else After(p, 10, cols, rows)
  {
    var code: Byte := if 0x80 <= b <= 0x87 then b - 0x80 else b;
    var row: seq<Byte> := t.s.copy[t.s.y][t.s.x := code];
    var p := t.(s := t.s.(copy := t.s.copy[t.s.y := row]));
    RunOne(t, b, [], cols, rows);
    RunOne(p, 10, [], cols, rows);
  }

  /** The other control characters do nothing, but for the one that begins a sequence. */
  lemma OtherControl(t: Terminal, b: Byte, cols: nat, rows: nat)
    requires Idle(t, cols, rows) && b < 0x20 && b !in {8, 9, 10, 13, 0x1B}
    ensures After(t, b, cols, rows) == t
  {
    RunOne(t, b, [], cols, rows);
  }

  // ---------- sequences without a number ----------

  /** After ESC [ and one more byte. */
  ghost function AfterBracket(t: Terminal, b: Byte, cols: nat, rows: nat): Terminal
    requires Good(t.s, cols, rows)
  {
    Run(t, [0x1B, 0x5B, b], cols, rows)
  }

  lemma Introduced(t: Terminal, rest: seq<Byte>, cols: nat, rows: nat)
    requires Idle(t, cols, rows)
    ensures Run(t, [0x1B, 0x5B] + rest, cols, rows) == Run(t.(mode := S.Bracket), rest, cols, rows)
  {
    RunOne(t, 0x1B, [0x5B] + rest, cols, rows);
    RunOne(t.(mode := S.Escape), 0x5B, rest, cols, rows);
    assert [0x1B, 0x5B] + rest == [0x1B] + ([0x5B] + rest);
  }

  lemma BracketIs(t: Terminal, b: Byte, cols: nat, rows: nat)
    requires Idle(t, cols, rows)
    ensures AfterBracket(t, b, cols, rows) == InBracket(t.s, b, cols, rows)
  {
    assert [0x1B, 0x5B, b] == [0x1B, 0x5B] + [b];
    Introduced(t, [b], cols, rows);
    RunOne(t.(mode := S.Bracket), b, [], cols, rows);
  }

  lemma UpAndDown(t: Terminal, cols: nat, rows: nat)
    requires Idle(t, cols, rows)
    ensures AfterBracket(t, 'A' as int, cols, rows) == t.(s := t.s.(y := if t.s.y > 0 then t.s.y - 1 else 0))
    ensures var u := AfterBracket(t, 'B' as int, cols, rows);
      if t.s.y + 1 < rows then u == t.(s := t.s.(y := t.s.y + 1))
      else u == t.(s := t.s.(copy := u.s.copy)) && MovedUp(t.s, u.s, cols, rows)
  {
    BracketIs(t, 'A' as int, cols, rows);
    BracketIs(t, 'B' as int, cols, rows);
    if t.s.y + 1 >= rows { Scrolls(t.s, cols, rows); }
  }

  lemma ForwardAndBack(t: Terminal, cols: nat, rows: nat)
    requires Idle(t, cols, rows)
    ensures AfterBracket(t, 'C' as int, cols, rows)
      == if t.s.x + 1 < cols then t.(s := t.s.(x := t.s.x + 1)) else After(t, 10, cols, rows)
    ensures AfterBracket(t, 'D' as int, cols, rows) == After(t, 8, cols, rows)
  {
    BracketIs(t, 'C' as int, cols, rows);
    BracketIs(t, 'D' as int, cols, rows);
    RunOne(t, 8, [], cols, rows);
    RunOne(t, 10, [], cols, rows);
  }

  lemma Home(t: Terminal, cols: nat, rows: nat)
    requires Idle(t, cols, rows)
    ensures AfterBracket(t, 'H' as int, cols, rows) == t.(s := t.s.(x := 0, y := 0))
  {
    BracketIs(t, 'H' as int, cols, rows);
  }

  /** Everything from the cursor on becomes blank. */
  lemma EraseInDisplay(t: Terminal, cols: nat, rows: nat)
    requires Idle(t, cols, rows)
    ensures var u := AfterBracket(t, 'J' as int, cols, rows);
      && u == t.(s := t.s.(copy := u.s.copy))
      && forall y, x :: 0 <= y < rows && 0 <= x < cols ==>
          u.s.copy[y][x] == if y > t.s.y || (y == t.s.y && x >= t.s.x) then 0x20 else t.s.copy[y][x]
  {
    BracketIs(t, 'J' as int, cols, rows);
    EraseKeepsGood(t.s, cols, cols, rows);
  }

  /** Everything from the cursor to the end of its row. */
  lemma EraseInLine(t: Terminal, cols: nat, rows: nat)
    requires Idle(t, cols, rows)
    ensures var u := AfterBracket(t, 'K' as int, cols, rows);
      && u == t.(s := t.s.(copy := u.s.copy))
      && forall y, x :: 0 <= y < rows && 0 <= x < cols ==>
          u.s.copy[y][x] == if y == t.s.y && x >= t.s.x then 0x20 else t.s.copy[y][x]
  {
    BracketIs(t, 'K' as int, cols, rows);
    EraseKeepsGood(t.s, cols, cols, rows);
  }

  /** Other bytes end the sequence without effect, but for digits and the question mark. */
  lemma UnknownSequence(t: Terminal, b: Byte, cols: nat, rows: nat)
    requires Idle(t, cols, rows)
    ensures b != 0x5B ==> Run(t, [0x1B, b], cols, rows) == t
    ensures !(0x30 <= b <= 0x39) && b != 0x3F && !(0x41 <= b <= 0x44) && b !in {0x48, 0x4A, 0x4B} ==>
      AfterBracket(t, b, cols, rows) == t
  {
    RunOne(t, 0x1B, [b], cols, rows);
    RunOne(t.(mode := S.Escape), b, [], cols, rows);
    assert [0x1B, b] == [0x1B] + [b];
    BracketIs(t, b, cols, rows);
  }

  // ---------- sequences with numbers ----------

  /** Digits go on with the number that is being read. */
  lemma {:induction false} DigitsRead(t: Terminal, m: S.Mode, ds: seq<Digit>, rest: seq<Byte>, cols: nat, rows: nat)
    requires Good(t.s, cols, rows) && (m.Number1? || m.Number2? || m.Number3?)
    requires Value(ReadSoFar(m), ds) <= Most(m)
    ensures Run(t.(mode := m), DigitBytes(ds) + rest, cols, rows)
      == Run(t.(mode := Reading(m, Value(ReadSoFar(m), ds))), rest, cols, rows)
    decreases |ds|
  {
    if ds == [] {
      assert DigitBytes(ds) + rest == rest;
    } else {
      ValueGrows(10 * ReadSoFar(m) + ds[0], ds[1..]);
      var b: Byte := '0' as int + ds[0];
      RunOne(t.(mode := m), b, DigitBytes(ds[1..]) + rest, cols, rows);
      assert DigitBytes(ds) + rest == [b] + (DigitBytes(ds[1..]) + rest);
      DigitsRead(t, Reading(m, 10 * ReadSoFar(m) + ds[0]), ds[1..], rest, cols, rows);
    }
  }

  /** The first digit leads from `from` into a number. */
  lemma NumberRead(t: Terminal, from: S.Mode, m: S.Mode, ds: seq<Digit>, rest: seq<Byte>, cols: nat, rows: nat)
    requires Good(t.s, cols, rows) && (m.Number1? || m.Number2? || m.Number3?) && Numeral(ds, Most(m))
    requires Step(t.(mode := from), '0' as int + ds[0], cols, rows) == t.(mode := Reading(m, ds[0]))
    ensures Run(t.(mode := from), DigitBytes(ds) + rest, cols, rows)
      == Run(t.(mode := Reading(m, Number(ds))), rest, cols, rows)
  {
    var b: Byte := '0' as int + ds[0];
    RunOne(t.(mode := from), b, DigitBytes(ds[1..]) + rest, cols, rows);
    assert DigitBytes(ds) + rest == [b] + (DigitBytes(ds[1..]) + rest);
    DigitsRead(t, Reading(m, ds[0]), ds[1..], rest, cols, rows);
  }

  /** After ESC [ n and a final byte. */
  ghost function AfterNumber(t: Terminal, ds: seq<Digit>, final: Byte, cols: nat, rows: nat): Terminal
    requires Good(t.s, cols, rows)
  {
    Run(t, [0x1B, 0x5B] + (DigitBytes(ds) + [final]), cols, rows)
  }

  lemma NumberedIs(t: Terminal, ds: seq<Digit>, rest: seq<Byte>, cols: nat, rows: nat)
    requires Idle(t, cols, rows) && Numeral(ds, 99)
    ensures Run(t, [0x1B, 0x5B] + (DigitBytes(ds) + rest), cols, rows)
      == Run(t.(mode := S.Number1(Number(ds))), rest, cols, rows)
  {
    Introduced(t, DigitBytes(ds) + rest, cols, rows);
    NumberRead(t, S.Bracket, S.Number1(0), ds, rest, cols, rows);
  }

  /** ESC [ n X blanks `n` characters from the cursor on, but not beyond its row; other final bytes do nothing. */
  lemma EraseSome(t: Terminal, ds: seq<Digit>, final: Byte, cols: nat, rows: nat)
    requires Idle(t, cols, rows) && Numeral(ds, 99) && !(0x30 <= final <= 0x39) && final != 0x3B
    ensures var u := AfterNumber(t, ds, final, cols, rows);
      && u == t.(s := t.s.(copy := u.s.copy))
      && forall y, x :: 0 <= y < rows && 0 <= x < cols ==>
          u.s.copy[y][x] == if final == 0x58 && y == t.s.y && t.s.x <= x < t.s.x + Number(ds) then 0x20
            else t.s.copy[y][x]
  {
    NumberedIs(t, ds, [final], cols, rows);
    RunOne(t.(mode := S.Number1(Number(ds))), final, [], cols, rows);
    EraseKeepsGood(t.s, Number(ds), cols, rows);
  }

  /** ESC [ n ; m H: row and column, counted from one; ignored if that place is not on the display. Other final
      bytes do nothing. */
  lemma Position(t: Terminal, ds: seq<Digit>, es: seq<Digit>, final: Byte, cols: nat, rows: nat)
    requires Idle(t, cols, rows) && Numeral(ds, 99) && Numeral(es, 199) && !(0x30 <= final <= 0x39)
    ensures var row, column := Number(ds), Number(es);
      Run(t, [0x1B, 0x5B] + (DigitBytes(ds) + ([0x3B] + (DigitBytes(es) + [final]))), cols, rows)
        == if final == 0x48 && 1 <= row <= rows && 1 <= column <= cols
           then t.(s := t.s.(y := row - 1, x := column - 1)) else t
  {
    var rest := [0x3B] + (DigitBytes(es) + [final]);
    NumberedIs(t, ds, rest, cols, rows);
    RunOne(t.(mode := S.Number1(Number(ds))), 0x3B, DigitBytes(es) + [final], cols, rows);
    NumberRead(t, S.Semicolon(Number(ds)), S.Number2(Number(ds), 0), es, [final], cols, rows);
    RunOne(t.(mode := S.Number2(Number(ds), Number(es))), final, [], cols, rows);
  }

  /** ESC [ ? n h shows the cursor and with l it is hidden, if the number is 25; else nothing happens. */
  lemma CursorShown(t: Terminal, ds: seq<Digit>, final: Byte, cols: nat, rows: nat)
    requires Idle(t, cols, rows) && Numeral(ds, 99) && !(0x30 <= final <= 0x39)
    ensures Run(t, [0x1B, 0x5B] + ([0x3F] + (DigitBytes(ds) + [final])), cols, rows)
      == if Number(ds) == 25 && final == 0x68 then t.(s := t.s.(on := true))
         else if Number(ds) == 25 && final == 0x6C then t.(s := t.s.(on := false))
         else t
  {
    Introduced(t, [0x3F] + (DigitBytes(ds) + [final]), cols, rows);
    RunOne(t.(mode := S.Bracket), 0x3F, DigitBytes(ds) + [final], cols, rows);
    NumberRead(t, S.QuestionMark, S.Number3(0), ds, [final], cols, rows);
    RunOne(t.(mode := S.Number3(Number(ds))), final, [], cols, rows);
  }

  /** Where a number must come behind a semicolon or a question mark, any other byte ends the sequence. */
  lemma NumberMissing(t: Terminal, ds: seq<Digit>, b: Byte, cols: nat, rows: nat)
    requires Idle(t, cols, rows) && Numeral(ds, 99) && !(0x30 <= b <= 0x39)
    ensures Run(t, [0x1B, 0x5B] + ([0x3F] + [b]), cols, rows) == t
    ensures Run(t, [0x1B, 0x5B] + (DigitBytes(ds) + ([0x3B] + [b])), cols, rows) == t
  {
    Introduced(t, [0x3F] + [b], cols, rows);
    RunOne(t.(mode := S.Bracket), 0x3F, [b], cols, rows);
    RunOne(t.(mode := S.QuestionMark), b, [], cols, rows);
    NumberedIs(t, ds, [0x3B] + [b], cols, rows);
    RunOne(t.(mode := S.Number1(Number(ds))), 0x3B, [b], cols, rows);
    RunOne(t.(mode := S.Semicolon(Number(ds))), b, [], cols, rows);
  }

  /** A number out of range ends its sequence: the bytes after it are shown. */
  lemma OutOfRangeEnds(t: Terminal, m: S.Mode, d: Digit, cols: nat, rows: nat)
    requires Good(t.s, cols, rows) && (m.Number1? || m.Number2? || m.Number3?) && t.mode == m
    ensures Run(t, [0x30 + d], cols, rows)
      == t.(mode := if 10 * ReadSoFar(m) + d > Most(m) then S.Start else Reading(m, 10 * ReadSoFar(m) + d))
  {
    RunOne(t, 0x30 + d, [], cols, rows);
  }
}
