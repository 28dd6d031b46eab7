/** The screen driver: a frame buffer, and the registers of the terminal in pixels. */
module ScreenDevice {
  import opened Words
  import opened ScreenSpec
  import opened ScreenPixels

  datatype ScreenState =
    | StateStart
    | StateEscape
    | StateBracket
    | StateNumber1
    | StateQuestionMark
    | StateSemicolon
    | StateNumber2
    | StateNumber3

  const CHAR_WIDTH := 8
  const CHAR_HEIGHT := 19
  const UNDERLINE := 16

  function ModeOf(state: ScreenState, param1: nat, param2: nat): Mode {
    match state
    case StateStart => Start
    case StateEscape => Escape
    case StateBracket => Bracket
    case StateNumber1 => Number1(param1)
    case StateQuestionMark => QuestionMark
    case StateSemicolon => Semicolon(param1)
    case StateNumber2 => Number2(param1, param2)
    case StateNumber3 => Number3(param1)
  }

  /** Column and row 0 wrap around. */
  lemma PlaceWraps(row: nat, column: nat)
    requires row <= 199 && column <= 199
    ensures U32((column - 1) * CHAR_WIDTH) == if column == 0 then WORD - 8 else 8 * (column - 1)
    ensures U32((row - 1) * CHAR_HEIGHT) == if row == 0 then WORD - 19 else 19 * (row - 1)
  {
  }

  lemma FillNothing(cells: Cells, r: nat, c: nat)
    requires r < |cells| && c <= |cells[r]|
    ensures Fill(cells, r, c, c, Blank) == cells
  {
    assert cells[r][..c] + seq(0, _ => Blank) + cells[r][c..] == cells[r];
    assert cells[r := cells[r]] == cells;
  }

  /** `n` pixels copied from `from` to `to`. */
  function Moved(s: Pixels, to: nat, from: nat, n: nat): Pixels
    requires to <= from && from + n <= |s|
  {
    s[..to] + s[from..from + n] + s[to + n..]
  }

  lemma MoveOneMore(s: Pixels, to: nat, from: nat, n: nat)
    requires to <= from && from + n < |s|
    ensures |Moved(s, to, from, n)| == |s| && Moved(s, to, from, n)[from + n] == s[from + n]
    ensures Moved(s, to, from, n)[to + n := s[from + n]] == Moved(s, to, from, n + 1)
  {
    assert s[from..from + n + 1] == s[from..from + n] + [s[from + n]];
    assert s[to + n..] == [s[to + n]] + s[to + n + 1..];
  }

  lemma MoveNothing(s: Pixels, to: nat, from: nat)
    requires to <= from <= |s|
    ensures Moved(s, to, from, 0) == s
  {
  }

  /** `n` pixels blackened from `offset` on. */
  function Darkened(s: Pixels, offset: nat, n: nat): Pixels
    requires offset + n <= |s|
  {
    s[..offset] + BlackPixels(n) + s[offset + n..]
  }

  lemma DarkenNothing(s: Pixels, offset: nat)
    requires offset <= |s|
    ensures Darkened(s, offset, 0) == s
  {
  }

  lemma DarkenOneMore(s: Pixels, offset: nat, n: nat)
    requires offset + n < |s|
    ensures |Darkened(s, offset, n)| == |s|
    ensures Darkened(s, offset, n)[offset + n := BLACK] == Darkened(s, offset, n + 1)
  {
  }

  lemma MoveThenDarken(k: Geometry, s: Pixels, top: nat, bottom: nat, to: nat, from: nat, size: nat, row: nat)
    requires Holds(k, |s|) && top < bottom <= k.rows
    requires to == Line(k.pitch, 19 * top) && row == Line(k.pitch, 19)
    requires from == to + row && to + size + row == Line(k.pitch, 19 * bottom)
    ensures from + size <= |s| && |Moved(s, to, from, size)| == |s|
    ensures Darkened(Moved(s, to, from, size), to + size, row) == ScreenPixels.Scrolled(k, s, top, bottom)
  {
    RegionFits(k, top, bottom, |s|);
    var t := Moved(s, to, from, size);
    assert t[..to + size] == s[..to] + s[from..from + size];
    assert t[to + size + row..] == s[to + size + row..];
  }

  /** Blacken `n` pixels from `offset` on. */
  method Blacken(buffer: array<Color>, offset: nat, n: nat)
    requires offset + n <= buffer.Length
    modifies buffer
    ensures buffer[..] == Darkened(old(buffer[..]), offset, n)
  {
    ghost var before := buffer[..];
    var i: nat, size: nat := offset, n;
    ghost var done: nat := 0;
    DarkenNothing(before, offset);
    while size > 0
      invariant done + size == n && i == offset + done && buffer[..] == Darkened(before, offset, done)
    {
      DarkenOneMore(before, offset, done);
      buffer[i] := BLACK;
      i := i + 1;
      size := size - 1;
      done := done + 1;
    }
  }

  /** Copy pixels to a lower place, the first one first: the two parts may overlap. Whole blocks of
      sixteen bytes are copied first, then what is left. */
  method MoveDown(buffer: array<Color>, to: nat, from: nat, size: nat)
    requires to <= from && from + size <= buffer.Length
    modifies buffer
    ensures buffer[..] == Moved(old(buffer[..]), to, from, size)
  {
    ghost var before := buffer[..];
    MoveNothing(before, to, from);
    var i := 0;
    while i < size - size % 8
      invariant i <= size && buffer[..] == Moved(before, to, from, i)
    {
      MoveOneMore(before, to, from, i);
      buffer[to + i] := buffer[from + i];
      i := i + 1;
    }
    while i < size
      invariant i <= size && buffer[..] == Moved(before, to, from, i)
    {
      MoveOneMore(before, to, from, i);
      buffer[to + i] := buffer[from + i];
      i := i + 1;
    }
  }

  class Screen {
    const font: Font
    const buffer: array<Color>
    const width: nat
    const height: nat
    const pitch: nat
    const usedHeight: nat
    var state: ScreenState
    var scrollStart: nat
    var scrollEnd: nat
    var cursorX: nat
    var cursorY: nat
    var cursorOn: bool
    var color: Color
    var insertOn: bool
    var param1: nat
    var param2: nat
    /** The terminal as a grid of characters. */
    ghost var t: Text

    /** Set up the terminal on a frame buffer with any contents. */
    constructor (font: Font, width: nat, height: nat, pitch: nat, buffer: array<Color>)
      requires width % 8 == 0 && 0 < width <= pitch && 19 <= height && width < 0x8000_0000 && height < 0x8000_0000
      requires buffer.Length == pitch * height
      modifies buffer
      ensures Valid()
      ensures t == Text(seq(height / 19, _ => Blanks(width / 8)), 0, height / 19, 0, 0, true, NORMAL, false, Start)
      ensures this.font == font && this.width == width && this.height == height && this.pitch == pitch && this.buffer == buffer
    {
      this.font, this.width, this.height, this.pitch, this.buffer := font, width, height, pitch, buffer;
      state, param1, param2 := StateStart, 0, 0;
      scrollStart, cursorX, cursorY, cursorOn, color, insertOn := 0, 0, 0, true, NORMAL, false;
      usedHeight := height / 19 * 19;
      scrollEnd := height / 19 * 19;
      t := Text(seq(height / 19, _ => Blanks(width / 8)), 0, height / 19, 0, 0, true, NORMAL, false, Start);
      new;
      LineIs(pitch, height);
      UsedLines();
      ghost var before := buffer[..];
      ClearLineEndPixels(0, 0);
      ErasedShows(font, Grid(), before, buffer[..]);
      BlackenBelow(0);
      ShowCursor();
    }

    lemma UsedLines()
      requires usedHeight == height / 19 * 19 && height >= 19
      ensures Rows() == height / 19 > 0 && Line(pitch, 19 * Rows()) <= Line(pitch, height)
    {
      if 19 * Rows() < height { LinesApart(pitch, 19 * Rows(), height); }
    }

    ghost function Rows(): nat { usedHeight / 19 }

    ghost function Cols(): nat { width / 8 }

    ghost function Grid(): Geometry { Geometry(pitch, Rows(), Cols()) }

    /** The dimensions: whole characters fill the width, and there is room for at least one row. */
    ghost predicate Dimensions() {
      && width == 8 * Cols() && usedHeight == 19 * Rows() && usedHeight <= height
      && width < 0x8000_0000 && height < 0x8000_0000
      && width <= pitch && buffer.Length == Line(pitch, height) && Holds(Grid(), buffer.Length)
    }

    /** The registers are those of the grid, in pixels. The cursor's are left out: they are in
        between while it moves. */
    ghost predicate Agrees()
      reads this, buffer
    {
      && Dimensions() && Good(t, Rows(), Cols())
      && scrollStart == 19 * t.top && scrollEnd == 19 * t.bottom
      && cursorOn == t.cursorOn && color == t.color && insertOn == t.insertOn
      && t.mode == ModeOf(state, param1, param2)
    }

    ghost predicate CursorAgrees()
      reads this
    {
      cursorX == 8 * t.col && cursorY == 19 * t.row
    }

    ghost predicate Showing(cursor: Cursor)
      reads this, buffer
    {
      Shows(font, Grid(), buffer[..], t.cells, cursor)
    }

    /** The cursor as it is drawn between writes. */
    ghost function TextCursor(): Cursor
      reads this
    {
      if t.cursorOn then Underline(t.row, t.col, t.color) else Hidden
    }

    /** Between writes: the buffer shows the grid with its cursor. */
    ghost predicate Valid()
      reads this, buffer
    {
      Agrees() && CursorAgrees() && Showing(TextCursor())
    }

    /** During a write: the buffer shows the grid without the cursor. */
    ghost predicate Ready()
      reads this, buffer
    {
      Agrees() && CursorAgrees() && Showing(Hidden)
    }

    /** What is seen between writes, pixel by pixel of the text area: the cursor's underline in the pen's
        colour, the characters in theirs, and black. */
    lemma WhatIsSeen(px: nat, py: nat)
      requires Valid() && px < width && py < usedHeight
      ensures pitch * py + px < buffer.Length && py / 19 < |t.cells| && px / 8 < |t.cells[py / 19]|
      ensures var cell, x, y := t.cells[py / 19][px / 8], px % 8, py % 19;
        buffer[pitch * py + px] ==
          if t.cursorOn && py / 19 == t.row && px / 8 == t.col && y >= 16 then t.color
          else if cell.Glyph? && 0x21 <= cell.ch && y < 16
            && font[cell.ch - 0x21][y] & (0x80 >> x) != 0 then cell.color
          else 0
    {
      EveryVisiblePixel(font, Grid(), buffer[..], t.cells, TextCursor(), px, py);
    }

    // ---------- pixels ----------

    method SetPixel(x: nat, y: nat, c: Color)
      requires Dimensions()
      modifies buffer
      ensures if x < width && y < height then Line(pitch, y) + x < buffer.Length && buffer[..] == old(buffer[..])[Line(pitch, y) + x := c]
        else buffer[..] == old(buffer[..])
    {
      if x < width && y < height {
        LineIs(pitch, y);
        LinesApart(pitch, y, height);
        buffer[pitch * y + x] := c;
      }
    }

    method GetPixel(x: nat, y: nat) returns (c: Color)
      requires Dimensions()
      ensures x < width && y < height ==> Line(pitch, y) + x < buffer.Length && c == buffer[Line(pitch, y) + x]
      ensures !(x < width && y < height) ==> c == BLACK
    {
      if x < width && y < height {
        LineIs(pitch, y);
        LinesApart(pitch, y, height);
        return buffer[pitch * y + x];
      }
      return BLACK;
    }

    method DisplayCharAt(ch: Byte, posX: nat, posY: nat, ink: Color, ghost r: nat, ghost c: nat)
      requires Dimensions() && r < Rows() && c < Cols() && posX == 8 * c && posY == 19 * r
      modifies buffer
      ensures Filled(font, Grid(), old(buffer[..]), buffer[..], r, c, c + 1, Glyph(ch, ink))
    {
      ghost var k, before, cell := Grid(), buffer[..], Glyph(ch, ink);
      NothingPainted(font, k, before, r, c, cell);
      var y := 0;
      while y < CHAR_HEIGHT
        invariant y <= 19 && Painted(font, k, before, buffer[..], r, c, cell, 0, y)
      {
        var x := 0;
        while x < CHAR_WIDTH
          invariant x <= 8 && Painted(font, k, before, buffer[..], r, c, cell, x, y)
        {
          PaintOne(font, k, before, buffer[..], r, c, cell, x, y);
          SetPixel(posX + x, posY + y, if GlyphPixel(font, ch, x, y) then ink else BLACK);
          x := x + 1;
        }
        LinePainted(font, k, before, buffer[..], r, c, cell, y);
        y := y + 1;
      }
      CellPainted(font, k, before, buffer[..], r, c, cell);
    }

    method EraseChar(posX: nat, posY: nat, ghost r: nat, ghost c: nat)
      requires Dimensions() && r < Rows() && c < Cols() && posX == 8 * c && posY == 19 * r
      modifies buffer
      ensures Filled(font, Grid(), old(buffer[..]), buffer[..], r, c, c + 1, Blank)
    {
      ghost var k, before := Grid(), buffer[..];
      NothingPainted(font, k, before, r, c, Blank);
      var y := 0;
      while y < CHAR_HEIGHT
        invariant y <= 19 && Painted(font, k, before, buffer[..], r, c, Blank, 0, y)
      {
        var x := 0;
        while x < CHAR_WIDTH
          invariant x <= 8 && Painted(font, k, before, buffer[..], r, c, Blank, x, y)
        {
          PaintOne(font, k, before, buffer[..], r, c, Blank, x, y);
          SetPixel(posX + x, posY + y, BLACK);
          x := x + 1;
        }
        LinePainted(font, k, before, buffer[..], r, c, Blank, y);
        y := y + 1;
      }
      CellPainted(font, k, before, buffer[..], r, c, Blank);
    }

    /** Erase the characters between `posX` and `endX` on the line at `posY`. */
    method EraseSpan(posX: nat, endX: nat, posY: nat, ghost r: nat, ghost from: nat, ghost to: nat)
      requires Dimensions() && r < Rows() && from <= to <= Cols()
      requires posX == 8 * from && endX == 8 * to && posY == 19 * r
      modifies buffer
      ensures Filled(font, Grid(), old(buffer[..]), buffer[..], r, from, to, Blank)
    {
      ghost var k, before := Grid(), buffer[..];
      ghost var c := from;
      NothingFilled(font, k, before, r, from, Blank);
      var x := posX;
      while x < endX
        invariant from <= c <= to && x == 8 * c && Filled(font, k, before, buffer[..], r, from, c, Blank)
      {
        ghost var mid := buffer[..];
        EraseChar(x, posY, r, c);
        FillMore(font, k, before, mid, buffer[..], r, from, c, Blank);
        x := x + CHAR_WIDTH;
        c := c + 1;
      }
    }

    /** Move the lines of the scroll region up by the height of a character. */
    method Scroll(ghost top: nat, ghost bottom: nat)
      requires Dimensions() && scrollStart == 19 * top && scrollEnd == 19 * bottom && top < bottom <= Rows()
      modifies buffer
      ensures buffer[..] == ScreenPixels.Scrolled(Grid(), old(buffer[..]), top, bottom)
    {
      RegionFits(Grid(), top, bottom, buffer.Length);
      ScrollArithmetic(top, bottom);
      var to := Offset(scrollStart);
      var from := Offset(scrollStart + CHAR_HEIGHT);
      var size := Offset(scrollEnd - scrollStart - CHAR_HEIGHT);
      var row := Offset(CHAR_HEIGHT);
      MoveThenDarken(Grid(), buffer[..], top, bottom, to, from, size, row);
      MoveDown(buffer, to, from, size);
      Blacken(buffer, to + size, row);
    }

    /** Where line `y` begins. */
    method Offset(y: nat) returns (n: nat)
      ensures n == Line(pitch, y)
    {
      LineIs(pitch, y);
      n := pitch * y;
    }

    lemma ScrollArithmetic(top: nat, bottom: nat)
      requires Dimensions() && scrollStart == 19 * top && scrollEnd == 19 * bottom && top < bottom <= Rows()
      ensures Line(pitch, scrollStart + 19) == Line(pitch, scrollStart) + Line(pitch, 19)
      ensures Line(pitch, scrollStart) + Line(pitch, scrollEnd - scrollStart - 19) + Line(pitch, 19) == Line(pitch, scrollEnd)
      ensures Line(pitch, scrollEnd) <= buffer.Length
    {
      LineAdd(pitch, scrollStart, 19);
      LineAdd(pitch, scrollStart + 19, scrollEnd - scrollStart - 19);
      RowsInOrder(Grid(), bottom, Rows());
    }

    // ---------- erasing, and the cursor's line ----------

    /** Erase from the cursor to the end of its line. */
    method ClearLineEndPixels(ghost r: nat, ghost c: nat)
      requires Dimensions() && r < Rows() && c < Cols() && cursorX == 8 * c && cursorY == 19 * r
      modifies buffer
      ensures Filled(font, Grid(), old(buffer[..]), buffer[..], r, c, Cols(), Blank)
    {
      EraseSpan(cursorX, width, cursorY, r, c, Cols());
    }

    /** Blacken the lines below the cursor's row, to the end of the buffer. */
    method BlackenBelow(ghost r: nat)
      requires Dimensions() && r < Rows() && cursorY == 19 * r
      modifies buffer
      ensures Line(pitch, 19 * (r + 1)) <= buffer.Length
      ensures buffer[..] == Blackened(old(buffer[..]), Line(pitch, 19 * (r + 1)))
    {
      var offset := Offset(cursorY + CHAR_HEIGHT);
      RowsInOrder(Grid(), r + 1, Rows());
      ghost var before := buffer[..];
      Blacken(buffer, offset, buffer.Length - offset);
      assert before[buffer.Length..] == [];
    }

    /** Invert the underline at the cursor, if the cursor is on. */
    method InvertCursorPixels(ghost r: nat, ghost c: nat)
      requires Dimensions() && r < Rows() && c < Cols() && cursorX == 8 * c && cursorY == 19 * r
      modifies buffer
      ensures if cursorOn then Inverted(Grid(), old(buffer[..]), buffer[..], r, c, color, 0, 19)
        else buffer[..] == old(buffer[..])
    {
      if !cursorOn {
        return;
      }
      ghost var k, before := Grid(), buffer[..];
      NothingInverted(k, before, r, c, color);
      var y := UNDERLINE;
      while y < CHAR_HEIGHT
        invariant 16 <= y <= 19 && Inverted(k, before, buffer[..], r, c, color, 0, y)
      {
        var x := 0;
        while x < CHAR_WIDTH
          invariant x <= 8 && Inverted(k, before, buffer[..], r, c, color, x, y)
        {
          InvertOne(k, before, buffer[..], r, c, color, x, y);
          var pixel := GetPixel(cursorX + x, cursorY + y);
          if pixel == BLACK {
            SetPixel(cursorX + x, cursorY + y, color);
          } else {
            SetPixel(cursorX + x, cursorY + y, BLACK);
          }
          x := x + 1;
        }
        LineInverted(k, before, buffer[..], r, c, color, y);
        y := y + 1;
      }
    }

    // ---------- the operations on the grid ----------

    method CarriageReturn()
      requires Agrees() && Showing(Hidden) && cursorY == 19 * t.row
      modifies this`cursorX, this`t
      ensures Ready() && t == ScreenSpec.CarriageReturn(old(t))
    {
      cursorX := 0;
      t := ScreenSpec.CarriageReturn(t);
    }

    method CursorDown()
      requires Ready()
      modifies this`cursorY, this`t, buffer
      ensures Ready() && t == ScreenSpec.CursorDown(old(t), Cols())
    {
      NewLineKeepsGood(t, Rows(), Cols());
      cursorY := cursorY + CHAR_HEIGHT;
      if cursorY >= scrollEnd {
        ScrollShows(font, Grid(), buffer[..], t.cells, t.top, t.bottom);
        Scroll(t.top, t.bottom);
        cursorY := cursorY - CHAR_HEIGHT;
      }
      t := ScreenSpec.CursorDown(t, Cols());
    }

    method NewLine()
      requires Agrees() && Showing(Hidden) && cursorY == 19 * t.row
      modifies this`cursorX, this`cursorY, this`t, buffer
      ensures Ready() && t == ScreenSpec.NewLine(old(t), Cols())
    {
      CarriageReturn();
      CursorDown();
    }

    method CursorRight()
      requires Ready()
      modifies this`cursorX, this`cursorY, this`t, buffer
      ensures Ready() && t == ScreenSpec.CursorRight(old(t), Cols())
    {
      cursorX := cursorX + CHAR_WIDTH;
      if cursorX >= width {
        NewLine();
      } else {
        t := ScreenSpec.CursorRight(t, Cols());
      }
    }

    method CursorLeft()
      requires Ready()
      modifies this`cursorX, this`cursorY, this`t
      ensures Ready() && t == ScreenSpec.CursorLeft(old(t), Cols())
    {
      if cursorX > 0 {
        cursorX := cursorX - CHAR_WIDTH;
      } else {
        if cursorY > scrollStart {
          cursorX := width - CHAR_WIDTH;
          cursorY := cursorY - CHAR_HEIGHT;
        }
      }
      t := ScreenSpec.CursorLeft(t, Cols());
    }

    method CursorUp()
      requires Ready()
      modifies this`cursorY, this`t
      ensures Ready() && t == ScreenSpec.CursorUp(old(t))
    {
      if cursorY > scrollStart {
        cursorY := cursorY - CHAR_HEIGHT;
      }
      t := ScreenSpec.CursorUp(t);
    }

    method CursorHome()
      requires Agrees() && Showing(Hidden)
      modifies this`cursorX, this`cursorY, this`t
      ensures Ready() && t == ScreenSpec.CursorHome(old(t))
    {
      cursorX := 0;
      cursorY := scrollStart;
      t := ScreenSpec.CursorHome(t);
    }

    method CursorMove(row: nat, column: nat)
      requires Ready() && row <= 99 && column <= 199
      modifies this`cursorX, this`cursorY, this`t
      ensures Ready() && t == ScreenSpec.CursorMove(old(t), row, column, Cols())
    {
      var posX := U32((column - 1) * CHAR_WIDTH);
      var posY := U32((row - 1) * CHAR_HEIGHT);
      PlaceWraps(row, column);
      if posX < width && posY >= scrollStart && posY < scrollEnd {
        cursorX := posX;
        cursorY := posY;
      }
      t := ScreenSpec.CursorMove(t, row, column, Cols());
    }

    method SetScrollRegion(first: nat, last: nat)
      requires Ready() && first <= 99 && last <= 199
      modifies this`scrollStart, this`scrollEnd, this`cursorX, this`cursorY, this`t
      ensures Ready() && t == ScreenSpec.SetScrollRegion(old(t), first, last)
    {
      var start := U32((first - 1) * CHAR_HEIGHT);
      PlaceWraps(first, first);
      var end := last * CHAR_HEIGHT;
      ghost var t1 := ScreenSpec.SetScrollRegion(t, first, last);
      if start < usedHeight && end > 0 && end <= usedHeight && start < end {
        scrollStart := start;
        scrollEnd := end;
      }
      t := t1;
      CursorHome();
    }

    method Tabulator()
      requires Ready()
      modifies this`cursorX, this`cursorY, this`t, buffer
      ensures Ready() && t == ScreenSpec.Tabulator(old(t), Cols())
    {
      var tabWidth := CHAR_WIDTH * 8;
      cursorX := (cursorX + tabWidth) / 64 * 64;
      assert cursorX == 8 * ((t.col / 8 + 1) * 8);
      if cursorX >= width {
        NewLine();
      } else {
        t := ScreenSpec.Tabulator(t, Cols());
      }
    }

    method ClearLineEnd()
      requires Ready()
      modifies this`t, buffer
      ensures Ready() && t == ScreenSpec.ClearLineEnd(old(t), Cols())
    {
      EraseKeepsGood(t, 0, Rows(), Cols());
      ghost var before := buffer[..];
      ClearLineEndPixels(t.row, t.col);
      FillShows(font, Grid(), before, buffer[..], t.cells, t.row, t.col, Cols(), Blank);
      t := ScreenSpec.ClearLineEnd(t, Cols());
    }

    method ClearDisplayEnd()
      requires Ready()
      modifies this`t, buffer
      ensures Ready() && t == ScreenSpec.ClearDisplayEnd(old(t), Cols())
    {
      EraseKeepsGood(t, 0, Rows(), Cols());
      ghost var t1 := ScreenSpec.ClearDisplayEnd(t, Cols());
      ClearLineEnd();
      BlackenShows(font, Grid(), buffer[..], t.cells, t.row + 1);
      BlackenBelow(t.row);
      t := t1;
    }

    method EraseChars(n: nat)
      requires Ready() && n <= 99
      modifies this`t, buffer
      ensures Ready() && t == ScreenSpec.EraseChars(old(t), n, Cols())
    {
      EraseKeepsGood(t, n, Rows(), Cols());
      ghost var to := if t.col + n > Cols() then Cols() else t.col + n;
      if n == 0 {
        FillNothing(t.cells, t.row, t.col);
        return;
      }
      var endX := cursorX + n * CHAR_WIDTH;
      if endX > width {
        endX := width;
      }
      ghost var before := buffer[..];
      EraseSpan(cursorX, endX, cursorY, t.row, t.col, to);
      FillShows(font, Grid(), before, buffer[..], t.cells, t.row, t.col, to, Blank);
      t := ScreenSpec.EraseChars(t, n, Cols());
    }

    method DisplayChar(ch: Byte)
      requires Ready()
      modifies this`cursorX, this`cursorY, this`t, buffer
      ensures Ready() && t == ScreenSpec.DisplayChar(old(t), ch, Cols())
    {
      if ' ' as int <= ch {
        ghost var cell := Glyph(ch, color);
        FillKeepsSize(t.cells, t.row, t.col, t.col + 1, cell, Rows(), Cols());
        ghost var before := buffer[..];
        DisplayCharAt(ch, cursorX, cursorY, color, t.row, t.col);
        FillShows(font, Grid(), before, buffer[..], t.cells, t.row, t.col, t.col + 1, cell);
        t := t.(cells := Fill(t.cells, t.row, t.col, t.col + 1, cell));
        CursorRight();
      }
    }

    method SetStandoutMode(n: nat)
      requires Ready()
      modifies this`color, this`t
      ensures Ready() && t == ScreenSpec.SetStandoutMode(old(t), n)
    {
      if n == 0 || n == 27 {
        color := NORMAL;
      } else if n == 1 {
        color := HIGH;
      } else if n == 2 {
        color := HALF;
      }
      t := ScreenSpec.SetStandoutMode(t, n);
    }

    method InsertMode(begin: bool)
      requires Ready()
      modifies this`insertOn, this`t
      ensures Ready() && t == old(t).(insertOn := begin)
    {
      insertOn := begin;
      t := t.(insertOn := begin);
    }

    method SetCursorMode(visible: bool)
      requires Ready()
      modifies this`cursorOn, this`t
      ensures Ready() && t == old(t).(cursorOn := visible)
    {
      cursorOn := visible;
      t := t.(cursorOn := visible);
    }

    // ---------- the automaton ----------

    /** Go to another state, with the numbers read so far. */
    method Enter(next: ScreenState, p: nat, q: nat)
      requires Ready() && Modest(ModeOf(next, p, q))
      modifies this`state, this`param1, this`param2, this`t
      ensures Ready() && t == old(t).(mode := ModeOf(next, p, q)) && state == next && param1 == p && param2 == q
    {
      state, param1, param2 := next, p, q;
      t := t.(mode := ModeOf(next, p, q));
    }

    method WriteInStart(b: Byte)
      requires Ready() && state == StateStart
      modifies this, buffer
      ensures Ready() && t == InStart(old(t), b, Rows(), Cols())
    {
      if b == 8 {
        CursorLeft();
      } else if b == 9 {
        Tabulator();
      } else if b == 10 {
        NewLine();
      } else if b == 13 {
        CarriageReturn();
      } else if b == ESC {
        Enter(StateEscape, param1, param2);
      } else {
        DisplayChar(b);
      }
    }

    method WriteInBracket(b: Byte)
      requires Ready() && state == StateBracket
      modifies this, buffer
      ensures Ready() && t == InBracket(old(t), b, Rows(), Cols())
    {
      if b == '?' as int {
        Enter(StateQuestionMark, param1, param2);
      } else if IsDigit(b) {
        Enter(StateNumber1, DigitOf(b), param2);
      } else {
        Enter(StateStart, param1, param2);
        if b == 'A' as int {
          CursorUp();
        } else if b == 'B' as int {
          CursorDown();
        } else if b == 'C' as int {
          CursorRight();
        } else if b == 'D' as int {
          CursorLeft();
        } else if b == 'H' as int {
          CursorHome();
        } else if b == 'J' as int {
          ClearDisplayEnd();
        } else if b == 'K' as int {
          ClearLineEnd();
        }
      }
    }

    method WriteInNumber1(b: Byte)
      requires Ready() && state == StateNumber1
      modifies this, buffer
      ensures Ready() && t == InNumber1(old(t), old(param1), b, Rows(), Cols())
    {
      var p := param1;
      if b == ';' as int {
        Enter(StateSemicolon, p, param2);
      } else if IsDigit(b) {
        var n := p * 10 + DigitOf(b);
        Enter(if n > 99 then StateStart else StateNumber1, n, param2);
      } else {
        Enter(StateStart, p, param2);
        if b == 'X' as int {
          EraseChars(p);
        } else if b == 'h' as int || b == 'l' as int {
          if p == 4 {
            InsertMode(b == 'h' as int);
          }
        } else if b == 'm' as int {
          SetStandoutMode(p);
        }
      }
    }

    method WriteInNumber2(b: Byte)
      requires Ready() && state == StateNumber2
      modifies this, buffer
      ensures Ready() && t == InNumber2(old(t), old(param1), old(param2), b, Cols())
    {
      var p, q := param1, param2;
      if IsDigit(b) {
        var n := q * 10 + DigitOf(b);
        Enter(if n > 199 then StateStart else StateNumber2, p, n);
      } else {
        Enter(StateStart, p, q);
        if b == 'H' as int {
          CursorMove(p, q);
        } else if b == 'r' as int {
          SetScrollRegion(p, q);
        }
      }
    }

    method WriteInNumber3(b: Byte)
      requires Ready() && state == StateNumber3
      modifies this, buffer
      ensures Ready() && t == InNumber3(old(t), old(param1), b)
    {
      var p := param1;
      if IsDigit(b) {
        var n := p * 10 + DigitOf(b);
        Enter(if n > 99 then StateStart else StateNumber3, n, param2);
      } else {
        Enter(StateStart, p, param2);
        if b == 'h' as int || b == 'l' as int {
          if p == 25 {
            SetCursorMode(b == 'h' as int);
          }
        }
      }
    }

    /** Write one byte. */
    method WriteByte(b: Byte)
      requires Ready()
      modifies this, buffer
      ensures Ready() && t == Step(old(t), b, Rows(), Cols())
    {
      match state
      case StateStart => WriteInStart(b);
      case StateEscape => Enter(if b == '[' as int then StateBracket else StateStart, param1, param2);
      case StateBracket => WriteInBracket(b);
      case StateNumber1 => WriteInNumber1(b);
      case StateQuestionMark =>
        if IsDigit(b) { Enter(StateNumber3, DigitOf(b), param2); } else { Enter(StateStart, param1, param2); }
      case StateSemicolon =>
        if IsDigit(b) { Enter(StateNumber2, param1, DigitOf(b)); } else { Enter(StateStart, param1, param2); }
      case StateNumber2 => WriteInNumber2(b);
      case StateNumber3 => WriteInNumber3(b);
    }

    /** Hide the cursor. */
    method HideCursor()
      requires Valid()
      modifies buffer
      ensures Ready()
    {
      ghost var before := buffer[..];
      InvertCursorPixels(t.row, t.col);
      if t.cursorOn {
        InvertHidesCursor(font, Grid(), before, buffer[..], t.cells, t.row, t.col, color, color);
      }
    }

    /** Show the cursor, if it is on. */
    method ShowCursor()
      requires Ready()
      modifies buffer
      ensures Valid()
    {
      ghost var before := buffer[..];
      InvertCursorPixels(t.row, t.col);
      if t.cursorOn {
        InvertShowsCursor(font, Grid(), before, buffer[..], t.cells, t.row, t.col, color);
      }
    }

    /** Write a text: afterwards the frame buffer shows the grid stepped by its bytes, and the cursor
        where the grid has it. */
    method Write(bytes: seq<Byte>) returns (result: nat)
      requires Valid()
      modifies this, buffer
      ensures Valid() && t == Run(old(t), bytes, Rows(), Cols()) && result == |bytes|
    {
      HideCursor();
      result := 0;
      var i := 0;
      while i < |bytes|
        invariant result == i <= |bytes| && Ready()
        invariant Run(t, bytes[i..], Rows(), Cols()) == Run(old(t), bytes, Rows(), Cols())
      {
        WriteByte(bytes[i]);
        i := i + 1;
        result := result + 1;
      }
      ShowCursor();
    }
  }
}
