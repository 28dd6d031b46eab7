/** The text terminal seen as a grid of characters: what every byte does to the cells, the cursor, the
    scroll region and the automaton that reads escape sequences. */
module ScreenSpec {
  import opened Words

  type Color = nat

  const BLACK: Color := 0
  // five bits each of red, green and blue, the green ones shifted by six
  const NORMAL: Color := 0xFFDF
  const HIGH: Color := 0xF800
  const HALF: Color := 0x001F

  const ESC: Byte := 0x1B

  datatype Cell = Blank | Glyph(ch: Byte, color: Color)

  type Row = seq<Cell>
  type Cells = seq<Row>

  /** How far an escape sequence has been read, with the numbers read so far. */
  datatype Mode =
    | Start
    | Escape
    | Bracket
    | Number1(p: nat)
    | QuestionMark
    | Semicolon(p: nat)
    | Number2(p: nat, q: nat)
    | Number3(p: nat)

  /** The scroll region is rows `top` up to but not including `bottom`. */
  datatype Text = Text(cells: Cells, top: nat, bottom: nat, row: nat, col: nat,
                       cursorOn: bool, color: Color, insertOn: bool, mode: Mode)

  ghost predicate Sized(cells: Cells, rows: nat, cols: nat) {
    |cells| == rows && forall r :: 0 <= r < rows ==> |cells[r]| == cols
  }

  /** The cursor is inside the scroll region, which is not empty. */
  ghost predicate Good(t: Text, rows: nat, cols: nat) {
    && Sized(t.cells, rows, cols)
    && t.top <= t.row < t.bottom <= rows
    && t.col < cols
    && t.color != BLACK
    && Modest(t.mode)
  }

  /** The numbers in an unfinished sequence are bounded. */
  predicate Modest(m: Mode) {
    match m
    case Number1(p) => p <= 99
    case Semicolon(p) => p <= 99
    case Number2(p, q) => p <= 99 && q <= 199
    case Number3(p) => p <= 99
    case _ => true
  }

  // ---------- on cells ----------

  function Blanks(n: nat): (row: Row)
    ensures |row| == n && forall c :: 0 <= c < n ==> row[c] == Blank
  {
    seq(n, _ => Blank)
  }

  /** Put `cell` into columns `from` to `to` of row `r`. */
  function Fill(cells: Cells, r: nat, from: nat, to: nat, cell: Cell): Cells
    requires r < |cells| && from <= to <= |cells[r]|
  {
    cells[r := cells[r][..from] + seq(to - from, _ => cell) + cells[r][to..]]
  }

  /** Erase the rows from `r` on. */
  function ClearRows(cells: Cells, r: nat, cols: nat): Cells
    requires r <= |cells|
  {
    cells[..r] + seq(|cells| - r, _ => Blanks(cols))
  }

  /** Move the rows of the region up by one and leave the last of them blank. */
  function ScrollUp(cells: Cells, top: nat, bottom: nat, cols: nat): Cells
    requires top < bottom <= |cells|
  {
    cells[..top] + cells[top + 1..bottom] + [Blanks(cols)] + cells[bottom..]
  }

  /** Row by row, what scrolling does. */
  lemma ScrolledRow(cells: Cells, top: nat, bottom: nat, cols: nat, r: nat)
    requires top < bottom <= |cells| && r < |cells|
    ensures ScrollUp(cells, top, bottom, cols)[r]
      == if r < top || r >= bottom then cells[r] else if r < bottom - 1 then cells[r + 1] else Blanks(cols)
  {
  }

  // ---------- the operations ----------

  function CarriageReturn(t: Text): Text {
    t.(col := 0)
  }

  function CursorDown(t: Text, cols: nat): Text
    requires t.top < t.bottom <= |t.cells|
  {
    if t.row + 1 >= t.bottom then t.(cells := ScrollUp(t.cells, t.top, t.bottom, cols))
    else t.(row := t.row + 1)
  }

  function NewLine(t: Text, cols: nat): Text
    requires t.top < t.bottom <= |t.cells|
  {
    CursorDown(CarriageReturn(t), cols)
  }

  function CursorRight(t: Text, cols: nat): Text
    requires t.top < t.bottom <= |t.cells|
  {
    if t.col + 1 >= cols then NewLine(t, cols) else t.(col := t.col + 1)
  }

  function CursorLeft(t: Text, cols: nat): Text
    requires cols > 0
  {
    if t.col > 0 then t.(col := t.col - 1)
    else if t.row > t.top then t.(row := t.row - 1, col := cols - 1)
    else t
  }

  function CursorUp(t: Text): Text {
    if t.row > t.top then t.(row := t.row - 1) else t
  }

  function CursorHome(t: Text): Text {
    t.(row := t.top, col := 0)
  }

  /** Rows and columns count from one; a position outside the region is ignored. */
  function CursorMove(t: Text, row: nat, col: nat, cols: nat): Text {
    if 1 <= col <= cols && t.top < row <= t.bottom then t.(row := row - 1, col := col - 1) else t
  }

  function SetScrollRegion(t: Text, first: nat, last: nat): Text {
    CursorHome(if 1 <= first <= last <= |t.cells| then t.(top := first - 1, bottom := last) else t)
  }

  function Tabulator(t: Text, cols: nat): Text
    requires t.top < t.bottom <= |t.cells|
  {
    var col := (t.col / 8 + 1) * 8;
    if col >= cols then NewLine(t, cols) else t.(col := col)
  }

  function ClearLineEnd(t: Text, cols: nat): Text
    requires t.row < |t.cells| && t.col <= cols == |t.cells[t.row]|
  {
    t.(cells := Fill(t.cells, t.row, t.col, cols, Blank))
  }

  function ClearDisplayEnd(t: Text, cols: nat): Text
    requires t.row < |t.cells| && t.col <= cols == |t.cells[t.row]|
  {
    t.(cells := ClearRows(ClearLineEnd(t, cols).cells, t.row + 1, cols))
  }

  function EraseChars(t: Text, n: nat, cols: nat): Text
    requires t.row < |t.cells| && t.col <= cols == |t.cells[t.row]|
  {
    t.(cells := Fill(t.cells, t.row, t.col, if t.col + n > cols then cols else t.col + n, Blank))
  }

  /** Control characters are not shown. */
  function DisplayChar(t: Text, ch: Byte, cols: nat): Text
    requires t.top < t.bottom <= |t.cells|
    requires t.row < |t.cells| && t.col < |t.cells[t.row]|
  {
    if ch < ' ' as int then t
    else CursorRight(t.(cells := Fill(t.cells, t.row, t.col, t.col + 1, Glyph(ch, t.color))), cols)
  }

  function SetStandoutMode(t: Text, n: nat): Text {
    if n == 0 || n == 27 then t.(color := NORMAL)
    else if n == 1 then t.(color := HIGH)
    else if n == 2 then t.(color := HALF)
    else t
  }

  // ---------- one byte ----------

  predicate IsDigit(b: Byte) {
    '0' as int <= b <= '9' as int
  }

  function DigitOf(b: Byte): nat
    requires IsDigit(b)
  {
    b - '0' as int
  }

  function InStart(t: Text, b: Byte, rows: nat, cols: nat): Text
    requires Good(t, rows, cols)
  {
    if b == 8 then CursorLeft(t, cols)
    else if b == 9 then Tabulator(t, cols)
    else if b == 10 then NewLine(t, cols)
    else if b == 13 then CarriageReturn(t)
    else if b == ESC then t.(mode := Escape)
    else DisplayChar(t, b, cols)
  }

  function InBracket(t: Text, b: Byte, rows: nat, cols: nat): Text
    requires Good(t, rows, cols)
  {
    if b == '?' as int then t.(mode := QuestionMark)
    else if IsDigit(b) then t.(mode := Number1(DigitOf(b)))
    else
      var s := t.(mode := Start);
      if b == 'A' as int then CursorUp(s)
      else if b == 'B' as int then CursorDown(s, cols)
      else if b == 'C' as int then CursorRight(s, cols)
      else if b == 'D' as int then CursorLeft(s, cols)
      else if b == 'H' as int then CursorHome(s)
      else if b == 'J' as int then ClearDisplayEnd(s, cols)
      else if b == 'K' as int then ClearLineEnd(s, cols)
      else s
  }

  function InNumber1(t: Text, p: nat, b: Byte, rows: nat, cols: nat): Text
    requires Good(t, rows, cols)
  {
    if b == ';' as int then t.(mode := Semicolon(p))
    else if IsDigit(b) then
      var n := 10 * p + DigitOf(b);
      t.(mode := if n > 99 then Start else Number1(n))
    else
      var s := t.(mode := Start);
      if b == 'X' as int then EraseChars(s, p, cols)
      else if b == 'h' as int && p == 4 then s.(insertOn := true)
      else if b == 'l' as int && p == 4 then s.(insertOn := false)
      else if b == 'm' as int then SetStandoutMode(s, p)
      else s
  }

  function InNumber2(t: Text, p: nat, q: nat, b: Byte, cols: nat): Text {
    if IsDigit(b) then
      var n := 10 * q + DigitOf(b);
      t.(mode := if n > 199 then Start else Number2(p, n))
    else
      var s := t.(mode := Start);
      if b == 'H' as int then CursorMove(s, p, q, cols)
      else if b == 'r' as int then SetScrollRegion(s, p, q)
      else s
  }

  function InNumber3(t: Text, p: nat, b: Byte): Text {
    if IsDigit(b) then
      var n := 10 * p + DigitOf(b);
      t.(mode := if n > 99 then Start else Number3(n))
    else
      var s := t.(mode := Start);
      if b == 'h' as int && p == 25 then s.(cursorOn := true)
      else if b == 'l' as int && p == 25 then s.(cursorOn := false)
      else s
  }

  function Step(t: Text, b: Byte, rows: nat, cols: nat): Text
    requires Good(t, rows, cols)
  {
    match t.mode
    case Start => InStart(t, b, rows, cols)
    case Escape => t.(mode := if b == '[' as int then Bracket else Start)
    case Bracket => InBracket(t, b, rows, cols)
    case Number1(p) => InNumber1(t, p, b, rows, cols)
    case QuestionMark => t.(mode := if IsDigit(b) then Number3(DigitOf(b)) else Start)
    case Semicolon(p) => t.(mode := if IsDigit(b) then Number2(p, DigitOf(b)) else Start)
    case Number2(p, q) => InNumber2(t, p, q, b, cols)
    case Number3(p) => InNumber3(t, p, b)
  }

  // ---------- what every byte keeps ----------

  lemma FillKeepsSize(cells: Cells, r: nat, from: nat, to: nat, cell: Cell, rows: nat, cols: nat)
    requires Sized(cells, rows, cols) && r < rows && from <= to <= cols
    ensures Sized(Fill(cells, r, from, to, cell), rows, cols)
  {
  }

  lemma NewLineKeepsGood(t: Text, rows: nat, cols: nat)
    requires Good(t, rows, cols)
    ensures Good(NewLine(t, cols), rows, cols) && Good(CursorDown(t, cols), rows, cols)
    ensures Good(CursorRight(t, cols), rows, cols) && Good(Tabulator(t, cols), rows, cols)
  {
    assert Sized(ScrollUp(t.cells, t.top, t.bottom, cols), rows, cols);
  }

  lemma DisplayKeepsGood(t: Text, b: Byte, rows: nat, cols: nat)
    requires Good(t, rows, cols)
    ensures Good(DisplayChar(t, b, cols), rows, cols)
  {
    if b >= ' ' as int {
      FillKeepsSize(t.cells, t.row, t.col, t.col + 1, Glyph(b, t.color), rows, cols);
      NewLineKeepsGood(t.(cells := Fill(t.cells, t.row, t.col, t.col + 1, Glyph(b, t.color))), rows, cols);
    }
  }

  lemma EraseKeepsGood(t: Text, n: nat, rows: nat, cols: nat)
    requires Good(t, rows, cols)
    ensures Good(ClearLineEnd(t, cols), rows, cols) && Good(ClearDisplayEnd(t, cols), rows, cols)
    ensures Good(EraseChars(t, n, cols), rows, cols)
  {
    FillKeepsSize(t.cells, t.row, t.col, cols, Blank, rows, cols);
    FillKeepsSize(t.cells, t.row, t.col, if t.col + n > cols then cols else t.col + n, Blank, rows, cols);
    assert Sized(ClearRows(ClearLineEnd(t, cols).cells, t.row + 1, cols), rows, cols);
  }

  lemma StartKeepsGood(t: Text, b: Byte, rows: nat, cols: nat)
    requires Good(t, rows, cols)
    ensures Good(InStart(t, b, rows, cols), rows, cols)
  {
    NewLineKeepsGood(t, rows, cols);
    DisplayKeepsGood(t, b, rows, cols);
  }

  lemma BracketKeepsGood(t: Text, b: Byte, rows: nat, cols: nat)
    requires Good(t, rows, cols)
    ensures Good(InBracket(t, b, rows, cols), rows, cols)
  {
    var s := t.(mode := Start);
    if b == 'J' as int || b == 'K' as int {
      EraseKeepsGood(s, 0, rows, cols);
    } else if b in {'A' as int, 'B' as int, 'C' as int, 'D' as int, 'H' as int} {
      NewLineKeepsGood(s, rows, cols);
      assert Good(CursorUp(s), rows, cols) && Good(CursorLeft(s, cols), rows, cols) && Good(CursorHome(s), rows, cols);
    }
  }

  lemma Number1KeepsGood(t: Text, p: nat, b: Byte, rows: nat, cols: nat)
    requires Good(t, rows, cols) && p <= 99
    ensures Good(InNumber1(t, p, b, rows, cols), rows, cols)
  {
    EraseKeepsGood(t.(mode := Start), p, rows, cols);
  }

  lemma Number2KeepsGood(t: Text, p: nat, q: nat, b: Byte, rows: nat, cols: nat)
    requires Good(t, rows, cols) && p <= 99 && q <= 199
    ensures Good(InNumber2(t, p, q, b, cols), rows, cols)
  {
  }

  lemma Number3KeepsGood(t: Text, p: nat, b: Byte, rows: nat, cols: nat)
    requires Good(t, rows, cols) && p <= 99
    ensures Good(InNumber3(t, p, b), rows, cols)
  {
  }

  /** Whatever byte comes, the cursor stays in the scroll region and on the grid, and the grid keeps
      its size. */
  lemma StepKeepsGood(t: Text, b: Byte, rows: nat, cols: nat)
    requires Good(t, rows, cols)
    ensures Good(Step(t, b, rows, cols), rows, cols)
  {
    match t.mode
    case Start => StartKeepsGood(t, b, rows, cols);
    case Bracket => BracketKeepsGood(t, b, rows, cols);
    case Number1(p) => Number1KeepsGood(t, p, b, rows, cols);
    case Number2(p, q) => Number2KeepsGood(t, p, q, b, rows, cols);
    case Number3(p) => Number3KeepsGood(t, p, b, rows, cols);
    case _ =>
  }

  function Run(t: Text, bytes: seq<Byte>, rows: nat, cols: nat): (u: Text)
    requires Good(t, rows, cols)
    ensures Good(u, rows, cols)
    decreases |bytes|
  {
    if bytes == [] then t
    else
      StepKeepsGood(t, bytes[0], rows, cols);
      Run(Step(t, bytes[0], rows, cols), bytes[1..], rows, cols)
  }

  /** It makes no difference how a text is split into writes. */
  lemma {:induction false} RunAppend(t: Text, a: seq<Byte>, b: seq<Byte>, rows: nat, cols: nat)
    requires Good(t, rows, cols)
    ensures Run(t, a + b, rows, cols) == Run(Run(t, a, rows, cols), b, rows, cols)
    decreases |a|
  {
    if a == [] {
      assert a + b == b;
    } else {
      StepKeepsGood(t, a[0], rows, cols);
      assert (a + b)[1..] == a[1..] + b;
      RunAppend(Step(t, a[0], rows, cols), a[1..], b, rows, cols);
    }
  }

  // ---------- plain text ----------

  /** Bytes that do not begin an escape sequence. */
  predicate Plain(bytes: seq<Byte>) {
    forall i :: 0 <= i < |bytes| ==> bytes[i] != ESC
  }

  ghost predicate SameOutside(t: Text, u: Text) {
    && u.top == t.top && u.bottom == t.bottom && |u.cells| == |t.cells| && u.mode == t.mode
    && forall r :: 0 <= r < |t.cells| && !(t.top <= r < t.bottom) ==> u.cells[r] == t.cells[r]
  }

  lemma ScrollStaysInside(t: Text, rows: nat, cols: nat)
    requires Good(t, rows, cols)
    ensures SameOutside(t, NewLine(t, cols)) && SameOutside(t, CursorRight(t, cols)) && SameOutside(t, Tabulator(t, cols))
  {
  }

  lemma PlainStepStaysInside(t: Text, b: Byte, rows: nat, cols: nat)
    requires Good(t, rows, cols) && t.mode == Start && b != ESC
    ensures SameOutside(t, Step(t, b, rows, cols))
  {
    if b == 9 || b == 10 {
      ScrollStaysInside(t, rows, cols);
    } else if b != 8 && b != 13 && b >= ' ' as int {
      var u := t.(cells := Fill(t.cells, t.row, t.col, t.col + 1, Glyph(b, t.color)));
      FillKeepsSize(t.cells, t.row, t.col, t.col + 1, Glyph(b, t.color), rows, cols);
      ScrollStaysInside(u, rows, cols);
    }
  }

  /** Text without escape sequences never touches a row outside the scroll region, however often it
      makes the region scroll. */
  lemma {:induction false} PlainTextStaysInside(t: Text, bytes: seq<Byte>, rows: nat, cols: nat)
    requires Good(t, rows, cols) && t.mode == Start && Plain(bytes)
    ensures SameOutside(t, Run(t, bytes, rows, cols))
    decreases |bytes|
  {
    if bytes != [] {
      StepKeepsGood(t, bytes[0], rows, cols);
      PlainStepStaysInside(t, bytes[0], rows, cols);
      PlainTextStaysInside(Step(t, bytes[0], rows, cols), bytes[1..], rows, cols);
    }
  }

  predicate Printable(bytes: seq<Byte>) {
    forall i :: 0 <= i < |bytes| ==> bytes[i] >= ' ' as int
  }

  function Glyphs(bytes: seq<Byte>, color: Color): (row: Row)
    ensures |row| == |bytes|
  {
    seq(|bytes|, i requires 0 <= i < |bytes| => Glyph(bytes[i], color))
  }

  /** Printable text that does not reach the end of the line lands in the cells from the cursor on,
      in the pen's colour, and changes nothing else. */
  lemma {:induction false} PrintedTextLands(t: Text, bytes: seq<Byte>, rows: nat, cols: nat)
    requires Good(t, rows, cols) && t.mode == Start && Printable(bytes) && t.col + |bytes| < cols
    ensures Run(t, bytes, rows, cols) == t.(col := t.col + |bytes|,
      cells := t.cells[t.row := t.cells[t.row][..t.col] + Glyphs(bytes, t.color) + t.cells[t.row][t.col + |bytes|..]])
    decreases |bytes|
  {
    if bytes == [] {
      assert t.cells[t.row][..t.col] + Glyphs(bytes, t.color) + t.cells[t.row][t.col..] == t.cells[t.row];
    } else {
      var u := Step(t, bytes[0], rows, cols);
      StepKeepsGood(t, bytes[0], rows, cols);
      PrintedTextLands(u, bytes[1..], rows, cols);
      var row, n := t.cells[t.row], t.col + |bytes|;
      var glyph := Glyph(bytes[0], t.color);
      assert u.cells[t.row] == row[..t.col] + [glyph] + row[t.col + 1..];
      assert u.cells[t.row][..t.col + 1] == row[..t.col] + [glyph];
      assert u.cells[t.row][n..] == row[n..];
      assert Glyphs(bytes, t.color) == [glyph] + Glyphs(bytes[1..], t.color);
      assert row[..t.col] + [glyph] + Glyphs(bytes[1..], t.color) + row[n..]
          == row[..t.col] + Glyphs(bytes, t.color) + row[n..];
    }
  }
}
