/** The display driver: what it has written is kept in a buffer, and must be what the controller has. */
module LcdDisplay {
  import opened Words
  import opened ScreenSpec
  import opened ScreenDevice
  import opened L = LcdSpec

  class HD44780 {
    const columns: nat
    const rows: nat
    var lcd: Controller
    var buffer: seq<seq<Byte>>
    var cursorX: nat
    var cursorY: nat
    var cursorOn: bool
    var state: ScreenState
    var param1: nat
    var param2: nat
    /** How the controller is set up; before the direction has been set, `right` is false. */
    ghost var setup: Settings

    ghost predicate SetUp()
      reads this
    {
      lcd.settings.(right := true) == setup.(right := true) && (setup.right ==> lcd.settings.right)
    }

    /** The dimensions; the controller waits for a byte, and shows the buffer. */
    ghost predicate Shows()
      reads this
    {
      && 0 < columns <= 40 && 0 < rows <= 4 && (rows <= 2 || columns <= 32)
      && L.Sized(buffer, columns, rows) && Listening(lcd) && SetUp() && Mirrors(lcd, buffer, columns)
    }

    ghost function View(): Shown
      reads this
    {
      Shown(buffer, cursorX, cursorY, cursorOn)
    }

    ghost function TheMode(): Mode
      reads this
    {
      ModeOf(state, param1, param2)
    }

    /** The controller is on, with a cursor if there is to be one, and goes to the right. */
    ghost predicate Ready()
      reads this
    {
      setup == Settings(true, cursorOn, false, true, false, rows != 1)
    }

    /** The display shows the buffer, and the cursor is on the grid. */
    ghost predicate Valid()
      reads this
    {
      Shows() && Ready() && L.Good(View(), columns, rows) && Modest(TheMode())
    }

    /** The display may hold anything; the bus is in 4-bit mode. */
    constructor (columns: nat, rows: nat, lcd: Controller)
      requires 0 < columns <= 40 && 0 < rows <= 4 && (rows <= 2 || columns <= 32) && Listening(lcd)
      ensures Valid() && TheMode() == Start && this.columns == columns && this.rows == rows
      ensures View() == Shown(seq(rows, _ => Spaces(columns)), 0, 0, true)
    {
      this.columns, this.rows, this.lcd := columns, rows, lcd;
      buffer := [];
      cursorX, cursorY, cursorOn, state, param1, param2 := 0, 0, true, StateStart, 0, 0;
      new;
      Initialize();
    }

    method Initialize()
      requires 0 < columns <= 40 && 0 < rows <= 4 && (rows <= 2 || columns <= 32) && Listening(lcd)
      requires cursorX == 0 && cursorY == 0 && state == StateStart
      modifies this`lcd, this`buffer, this`cursorOn, this`setup
      ensures Valid() && View() == Shown(seq(rows, _ => Spaces(columns)), 0, 0, true)
    {
      WriteByte(if rows == 1 then 0x20 else 0x28);
      setup := lcd.settings;
      assert setup.twoLines == (rows != 1);
      SetCursorMode(true);
      setup := setup.(right := false);
      ClearAll();
      EnterToTheRight();
    }

    method EnterToTheRight()
      requires Shows() && setup.on && setup.cursor && !setup.blink && setup.twoLines == (rows != 1) && cursorOn
      modifies this`lcd, this`setup
      ensures Shows() && Ready()
    {
      ghost var before := lcd;
      WriteByte(0x06);
      assert lcd == before.(settings := before.settings.(right := true, shifting := false));
      setup := Settings(true, true, false, true, false, rows != 1);
    }

    method WriteHalfByte(n: nat)
      requires n < 16
      modifies this`lcd
      ensures lcd == TakeHalf(old(lcd), n)
    {
      lcd := TakeHalf(lcd, n);
    }

    method WriteByte(b: Byte)
      requires lcd.half == 16
      modifies this`lcd
      ensures lcd == if old(lcd).rs then Store(old(lcd), b) else Instruct(old(lcd), b)
    {
      ByteTaken(lcd, b);
      WriteHalfByte(b / 16);
      WriteHalfByte(b % 16);
    }

    /** Write one place, on the display and in the buffer. */
    method SetChar(x: nat, y: nat, b: Byte)
      requires Shows() && x < columns && y < rows
      modifies this`lcd, this`buffer
      ensures Shows() && buffer == Placed(old(buffer), x, y, b)
    {
      SeparateIff(columns, rows);
      assert OnGrid(columns, rows, x, y);
      StoreMirrors(lcd, buffer, columns, rows, x, y, b);
      WriteByte(0x80 + Address(columns, x, y));
      lcd := lcd.(rs := true);
      WriteByte(b);
      lcd := lcd.(rs := false);
      buffer := Placed(buffer, x, y, b);
    }

    /** The controller shows its own cursor where its address is. */
    method SetCursor()
      requires Valid()
      modifies this`lcd
      ensures Valid() && (cursorOn ==> lcd.address == Address(columns, cursorX, cursorY) && !lcd.font)
    {
      if cursorOn {
        SeparateIff(columns, rows);
        assert OnGrid(columns, rows, cursorX, cursorY);
        WriteByte(0x80 + Address(columns, cursorX, cursorY));
      }
    }

    method SetCursorMode(visible: bool)
      requires Listening(lcd) && SetUp()
      modifies this`lcd, this`cursorOn, this`setup
      ensures Listening(lcd) && SetUp() && lcd == old(lcd).(settings := lcd.settings) && cursorOn == visible
      ensures setup == old(setup).(on := true, cursor := visible, blink := false)
    {
      cursorOn := visible;
      WriteByte(if cursorOn then 0x0E else 0x0C);
      setup := setup.(on := true, cursor := visible, blink := false);
    }

    /** A glyph of one's own, with eight rows of five pixels, does not touch what is shown. */
    method DefineCharFont(ch: Byte, fontData: seq<Byte>)
      requires Valid() && |fontData| == 8
      modifies this`lcd
      ensures Valid() && lcd.memory == old(lcd).memory
      ensures lcd.glyphs == if 0x80 <= ch <= 0x87 then WithGlyph(old(lcd).glyphs, 8 * (ch - 0x80), fontData, 8)
        else old(lcd).glyphs
    {
      if ch < 0x80 || ch > 0x87 {
        return;
      }
      ghost var before := lcd.glyphs;
      var first := (ch - 0x80) * 8;
      var line := 0;
      OneMoreRow(before, first, fontData, 0);
      while line <= 7
        invariant line <= 8 && Valid() && lcd.memory == old(lcd).memory
        invariant lcd.glyphs == WithGlyph(before, first, fontData, line)
      {
        OneMoreRow(before, first, fontData, line);
        WriteByte(0x40 + (first + line));
        lcd := lcd.(rs := true);
        WriteByte(fontData[line] % 0x20);
        lcd := lcd.(rs := false);
        line := line + 1;
      }
    }

    /** The controller clears its memory by itself; the buffer follows. */
    method ClearAll()
      requires 0 < columns <= 40 && 0 < rows <= 4 && (rows <= 2 || columns <= 32) && Listening(lcd) && SetUp()
      modifies this`lcd, this`buffer
      ensures Shows() && buffer == seq(rows, _ => Spaces(columns))
    {
      WriteByte(0x01);
      SeparateIff(columns, rows);
      buffer := seq(rows, _ => Spaces(columns));
      forall x: nat, y: nat | y < rows && x < columns
        ensures Address(columns, x, y) < 128
      {
        assert OnGrid(columns, rows, x, y);
      }
    }

    /** Blank columns `from` to `to` of a row. */
    method Blank(y: nat, from: nat, to: nat)
      requires Shows() && y < rows && from <= to <= columns
      modifies this`lcd, this`buffer
      ensures Shows() && buffer == Blanked(old(buffer), y, from, to)
    {
      ghost var before := buffer;
      BlankNothing(before, y, from);
      var x := from;
      while x < to
        invariant from <= x <= to && Shows() && buffer == Blanked(before, y, from, x)
      {
        BlankMore(before, y, from, x);
        SetChar(x, y, SPACE);
        x := x + 1;
      }
    }

    method ClearDisplayEnd()
      requires Valid()
      modifies this`lcd, this`buffer
      ensures Valid() && View() == ClearEnd(old(View()), columns)
    {
      L.EraseKeepsGood(View(), columns, columns, rows);
      if cursorX == 0 && cursorY == 0 {
        ClearEndAll(View(), columns, rows);
        ClearAll();
      } else {
        Blank(cursorY, cursorX, columns);
        BlankBelow();
      }
    }

    method BlankBelow()
      requires Shows() && cursorY < rows
      modifies this`lcd, this`buffer
      ensures Shows()
      ensures buffer == old(buffer)[..cursorY + 1] + seq(|old(buffer)| - cursorY - 1, _ => Spaces(columns))
    {
      ghost var before := buffer;
      BlankBelowEnds(before, cursorY, columns);
      var y := cursorY + 1;
      while y < rows
        invariant cursorY < y <= rows && Shows() && buffer == BlankedBelow(before, cursorY, y, columns)
      {
        BlankBelowMore(before, cursorY, y, columns);
        Blank(y, 0, columns);
        y := y + 1;
      }
    }

    /** Move the rows up by one and blank the last one. */
    method Scroll()
      requires Shows()
      modifies this`lcd, this`buffer
      ensures Shows() && buffer == old(buffer)[1..] + [Spaces(columns)]
    {
      ScrollLast(buffer, rows, columns);
      MoveRowsUp();
      Blank(rows - 1, 0, columns);
    }

    method MoveRowsUp()
      requires Shows()
      modifies this`lcd, this`buffer
      ensures Shows() && buffer == ScrolledTo(old(buffer), rows)
    {
      ghost var before := buffer;
      var y := 1;
      while y < rows
        invariant 1 <= y <= rows && Shows() && buffer == ScrolledTo(before, y)
      {
        ScrollMore(before, y);
        MoveRowUp(y);
        y := y + 1;
      }
    }

    method MoveRowUp(y: nat)
      requires Shows() && 1 <= y < rows
      modifies this`lcd, this`buffer
      ensures Shows() && buffer == old(buffer)[y - 1 := old(buffer)[y]]
    {
      ghost var before := buffer;
      RaiseEnds(before, y);
      var x := 0;
      while x < columns
        invariant x <= columns && Shows() && buffer == Raised(before, y, x)
      {
        RaiseMore(before, y, x);
        SetChar(x, y - 1, buffer[y][x]);
        x := x + 1;
      }
    }

    method CursorDown()
      requires Valid()
      modifies this`lcd, this`buffer, this`cursorY
      ensures Valid() && View() == Down(old(View()), columns)
    {
      DownKeepsGood(View(), columns, rows);
      cursorY := cursorY + 1;
      if cursorY >= rows {
        Scroll();
        cursorY := cursorY - 1;
      }
    }

    /** The column does not matter: it is set to 0 first. */
    method NewLine()
      requires Shows() && Ready() && cursorY < rows && Modest(TheMode())
      modifies this`lcd, this`buffer, this`cursorX, this`cursorY
      ensures Valid() && View() == L.NewLine(old(View()), columns)
    {
      cursorX := 0;
      CursorDown();
    }

    method CursorRight()
      requires Valid()
      modifies this`lcd, this`buffer, this`cursorX, this`cursorY
      ensures Valid() && View() == Right(old(View()), columns)
    {
      ghost var s := View();
      cursorX := cursorX + 1;
      if cursorX >= columns {
        NewLine();
      }
    }

    method CursorLeft()
      requires Valid()
      modifies this`cursorX, this`cursorY
      ensures Valid() && View() == Left(old(View()), columns)
    {
      if cursorX > 0 {
        cursorX := cursorX - 1;
      } else {
        if cursorY > 0 {
          cursorX := columns - 1;
          cursorY := cursorY - 1;
        }
      }
    }

    method CursorUp()
      requires Valid()
      modifies this`cursorY
      ensures Valid() && View() == Up(old(View()))
    {
      if cursorY > 0 {
        cursorY := cursorY - 1;
      }
    }

    /** In unsigned arithmetic zero wraps around, and is ignored. */
    method CursorMove(row: nat, column: nat)
      requires Valid() && row <= 99 && column <= 199
      modifies this`cursorX, this`cursorY
      ensures Valid() && View() == Move(old(View()), row, column, columns)
    {
      var x := U32(column - 1);
      if x < columns {
        var y := U32(row - 1);
        if y < rows {
          cursorX := x;
          cursorY := y;
        }
      }
    }

    method Tabulator()
      requires Valid()
      modifies this`lcd, this`buffer, this`cursorX, this`cursorY
      ensures Valid() && View() == Tab(old(View()), columns)
    {
      cursorX := (cursorX + 8) / 8 * 8;
      if cursorX >= columns {
        NewLine();
      }
    }

    method EraseChars(n: nat)
      requires Valid()
      modifies this`lcd, this`buffer
      ensures Valid() && View() == Erase(old(View()), n)
    {
      L.EraseKeepsGood(View(), n, columns, rows);
      if n == 0 {
        BlankNothing(buffer, cursorY, cursorX);
        return;
      }
      var endX := cursorX + n;
      if endX > columns {
        endX := columns;
      }
      Blank(cursorY, cursorX, endX);
    }

    method ClearLineEnd()
      requires Valid()
      modifies this`lcd, this`buffer
      ensures Valid() && View() == Erase(old(View()), columns)
    {
      L.EraseKeepsGood(View(), columns, columns, rows);
      Blank(cursorY, cursorX, columns);
    }

    method DisplayChar(ch: Byte)
      requires Valid()
      modifies this`lcd, this`buffer, this`cursorX, this`cursorY
      ensures Valid() && View() == Print(old(View()), ch, columns)
    {
      if SPACE <= ch {
        SetChar(cursorX, cursorY, if 0x80 <= ch <= 0x87 then ch - 0x80 else ch);
        CursorRight();
      }
    }

    // ---------- the automaton ----------

    method WriteInStart(b: Byte)
      requires Valid() && state == StateStart
      modifies this
      ensures Valid() && Terminal(View(), TheMode()) == L.InStart(old(View()), b, columns, rows)
    {
      if b == 8 { CursorLeft(); }
      else if b == 9 { Tabulator(); }
      else if b == 10 { NewLine(); }
      else if b == 13 { cursorX := 0; }
      else if b == ESC { state := StateEscape; }
      else { DisplayChar(b); }
    }

    method WriteInBracket(b: Byte)
      requires Valid() && state == StateBracket
      modifies this
      ensures Valid() && Terminal(View(), TheMode()) == L.InBracket(old(View()), b, columns, rows)
    {
      if b == '?' as int {
        state := StateQuestionMark;
      } else if IsDigit(b) {
        param1 := b - '0' as int;
        state := StateNumber1;
      } else {
        state := StateStart;
        if b == 'A' as int { CursorUp(); }
        else if b == 'B' as int { CursorDown(); }
        else if b == 'C' as int { CursorRight(); }
        else if b == 'D' as int { CursorLeft(); }
        else if b == 'H' as int { cursorX, cursorY := 0, 0; }
        else if b == 'J' as int { ClearDisplayEnd(); }
        else if b == 'K' as int { ClearLineEnd(); }
      }
    }

    method WriteDigit(b: Byte)
      requires Valid() && IsDigit(b) && (state == StateNumber1 || state == StateNumber2 || state == StateNumber3)
      modifies this`state, this`param1, this`param2
      ensures Valid() && TheMode() == L.NextMode(old(TheMode()), b)
    {
      if state == StateNumber2 {
        param2 := param2 * 10 + (b - '0' as int);
        if param2 > 199 { state := StateStart; }
      } else {
        param1 := param1 * 10 + (b - '0' as int);
        if param1 > 99 { state := StateStart; }
      }
    }

    method WriteInNumber(b: Byte)
      requires Valid() && (state == StateNumber1 || state == StateNumber2 || state == StateNumber3)
      modifies this
      ensures Valid() && Terminal(View(), TheMode()) == L.InNumber(old(View()), old(TheMode()), b, columns, rows)
    {
      var s, p, q := state, param1, param2;
      if IsDigit(b) {
        WriteDigit(b);
      } else if s == StateNumber1 && b == ';' as int {
        state := StateSemicolon;
      } else {
        state := StateStart;
        if s == StateNumber1 && b == 'X' as int {
          EraseChars(p);
        } else if s == StateNumber2 && b == 'H' as int {
          CursorMove(p, q);
        } else if s == StateNumber3 && (b == 'h' as int || b == 'l' as int) && p == 25 {
          SetCursorMode(b == 'h' as int);
        }
      }
    }

    /** One byte. */
    method WriteChar(b: Byte)
      requires Valid()
      modifies this
      ensures Valid() && Terminal(View(), TheMode()) == L.Step(Terminal(old(View()), old(TheMode())), b, columns, rows)
    {
      match state
      case StateStart => WriteInStart(b);
      case StateEscape => state := if b == '[' as int then StateBracket else StateStart;
      case StateBracket => WriteInBracket(b);
      case StateQuestionMark =>
        if IsDigit(b) { param1 := b - '0' as int; state := StateNumber3; } else { state := StateStart; }
      case StateSemicolon =>
        if IsDigit(b) { param2 := b - '0' as int; state := StateNumber2; } else { state := StateStart; }
      case StateNumber1 => WriteInNumber(b);
      case StateNumber2 => WriteInNumber(b);
      case StateNumber3 => WriteInNumber(b);
    }

    /** For every byte string: afterwards the buffer is the grid stepped by the bytes, the display shows
        it, the cursor is on it, and the controller's address is the cursor's if that is on. */
    method Write(bytes: seq<Byte>) returns (result: nat)
      requires Valid()
      modifies this
      ensures Valid() && result == |bytes|
      ensures Terminal(View(), TheMode()) == L.Run(Terminal(old(View()), old(TheMode())), bytes, columns, rows)
      ensures cursorOn ==> lcd.address == Address(columns, cursorX, cursorY) && !lcd.font
    {
      result := 0;
      while result < |bytes|
        invariant result <= |bytes| && Valid()
        invariant L.Run(Terminal(View(), TheMode()), bytes[result..], columns, rows)
          == L.Run(Terminal(old(View()), old(TheMode())), bytes, columns, rows)
      {
        WriteChar(bytes[result]);
        result := result + 1;
      }
      SetCursor();
    }
  }
}
