/** What the terminal does with each byte and each sequence, told in rows and columns of the screen and in
    the bytes of the line. All of this is from the state in which no sequence has begun. */
module ScreenMeaning {
  import opened Words
  import opened ScreenSpec
  import opened ScreenCommands

  ghost predicate Idle(t: Text, rows: nat, cols: nat) {
    Good(t, rows, cols) && t.mode == Start
  }

  /** The text after one byte. */
  ghost function After(t: Text, b: Byte, rows: nat, cols: nat): Text
    requires Good(t, rows, cols)
  {
    Run(t, [b], rows, cols)
  }

  /** The cells of `u` are those of `t` with the rows of the scroll region moved up by one. */
  ghost predicate MovedUp(t: Text, u: Text, rows: nat, cols: nat)
    requires Sized(t.cells, rows, cols) && Sized(u.cells, rows, cols) && t.bottom <= rows
  {
    forall r, c :: 0 <= r < rows && 0 <= c < cols ==>
      u.cells[r][c] == if r < t.top || t.bottom <= r then t.cells[r][c]
        else if r + 1 < t.bottom then t.cells[r + 1][c]
        else Blank
  }

  // ---------- control characters ----------

  lemma AfterIsStep(t: Text, b: Byte, rows: nat, cols: nat)
    requires Idle(t, rows, cols)
    ensures After(t, b, rows, cols) == InStart(t, b, rows, cols)
  {
    RunOne(t, b, [], rows, cols);
  }

  /** Backspace goes left; from the first column, to the end of the row above, but not out of the region. */
  lemma Backspace(t: Text, rows: nat, cols: nat)
    requires Idle(t, rows, cols)
    ensures After(t, 8, rows, cols) == t.(
      row := if t.col == 0 && t.row > t.top then t.row - 1 else t.row,
      col := if t.col > 0 then t.col - 1 else if t.row > t.top then cols - 1 else 0)
  {
    AfterIsStep(t, 8, rows, cols);
  }

  lemma Return(t: Text, rows: nat, cols: nat)
    requires Idle(t, rows, cols)
    ensures After(t, 13, rows, cols) == t.(col := 0)
  {
    AfterIsStep(t, 13, rows, cols);
  }

  /** A line feed goes to the first column of the next row; in the last row of the region it scrolls. */
  lemma LineFeed(t: Text, rows: nat, cols: nat)
    requires Idle(t, rows, cols)
    ensures var u := After(t, 10, rows, cols);
      if t.row + 1 < t.bottom then u == t.(row := t.row + 1, col := 0)
      else u == t.(col := 0, cells := u.cells) && Sized(u.cells, rows, cols) && MovedUp(t, u, rows, cols)
  {
    AfterIsStep(t, 10, rows, cols);
    NewLineKeepsGood(t, rows, cols);
    if t.row + 1 >= t.bottom { Scrolls(t, rows, cols); }
  }

  lemma Scrolls(t: Text, rows: nat, cols: nat)
    requires Good(t, rows, cols)
    ensures var cells := ScrollUp(t.cells, t.top, t.bottom, cols);
      Sized(cells, rows, cols) && MovedUp(t, t.(cells := cells), rows, cols)
  {
    forall r, c | 0 <= r < rows && 0 <= c < cols
      ensures var cells := ScrollUp(t.cells, t.top, t.bottom, cols);
        |cells| == rows && |cells[r]| == cols
        && cells[r][c] == if r < t.top || t.bottom <= r then t.cells[r][c]
          else if r + 1 < t.bottom then t.cells[r + 1][c] else Blank
    {
      ScrolledRow(t.cells, t.top, t.bottom, cols, r);
    }
    assert forall r :: 0 <= r < rows ==> |ScrollUp(t.cells, t.top, t.bottom, cols)[r]| == cols;
  }

  /** A tab goes to the next column that is a multiple of eight, or to a new line if there is none. */
  lemma Tab(t: Text, x: nat, rows: nat, cols: nat)
    requires Idle(t, rows, cols) && x % 8 == 0 && t.col < x <= t.col + 8
    ensures After(t, 9, rows, cols) == if x < cols then t.(col := x) else After(t, 10, rows, cols)
  {
    AfterIsStep(t, 9, rows, cols);
    AfterIsStep(t, 10, rows, cols);
    assert (t.col / 8 + 1) * 8 == x;
  }

  /** A printable character is put at the cursor in the pen's colour, and the cursor moves on, at the end of
      the row to the next one. */
  lemma Printable(t: Text, b: Byte, rows: nat, cols: nat)
    requires Idle(t, rows, cols) && b >= 0x20
    ensures var p := t.(cells := t.cells[t.row := t.cells[t.row][t.col := Glyph(b, t.color)]]);
      Idle(p, rows, cols)
      && After(t, b, rows, cols) == if t.col + 1 < cols then p.(col := t.col + 1) else After(p, 10, rows, cols)
  {
    var p := t.(cells := t.cells[t.row := t.cells[t.row][t.col := Glyph(b, t.color)]]);
    assert t.cells[t.row][..t.col] + seq(1, _ => Glyph(b, t.color)) + t.cells[t.row][t.col + 1..]
      == t.cells[t.row][t.col := Glyph(b, t.color)];
    AfterIsStep(t, b, rows, cols);
    AfterIsStep(p, 10, rows, cols);
  }

  /** The other control characters do nothing, but for the one that begins a sequence. */
  lemma OtherControl(t: Text, b: Byte, rows: nat, cols: nat)
    requires Idle(t, rows, cols) && b < 0x20 && b !in {8, 9, 10, 13, 0x1B}
    ensures After(t, b, rows, cols) == t
  {
    AfterIsStep(t, b, rows, cols);
  }

  // ---------- sequences without a number ----------

  /** The text after ESC [ and one more byte. */
  ghost function AfterBracket(t: Text, b: Byte, rows: nat, cols: nat): Text
    requires Good(t, rows, cols)
  {
    Run(t, [0x1B, 0x5B, b], rows, cols)
  }

  lemma BracketIs(t: Text, b: Byte, rows: nat, cols: nat)
    requires Idle(t, rows, cols)
    ensures AfterBracket(t, b, rows, cols) == InBracket(t.(mode := Bracket), b, rows, cols)
  {
    assert [0x1B, 0x5B, b] == CSI + [b];
    Introduce(t, [b], rows, cols);
    RunOne(t.(mode := Bracket), b, [], rows, cols);
  }

  /** CUU and CUD: up as far as the region goes; down, scrolling in its last row. */
  lemma UpAndDown(t: Text, rows: nat, cols: nat)
    requires Idle(t, rows, cols)
    ensures AfterBracket(t, 'A' as int, rows, cols) == t.(row := if t.row > t.top then t.row - 1 else t.row)
    ensures var u := AfterBracket(t, 'B' as int, rows, cols);
      if t.row + 1 < t.bottom then u == t.(row := t.row + 1)
      else u == t.(cells := u.cells) && Sized(u.cells, rows, cols) && MovedUp(t, u, rows, cols)
  {
    BracketIs(t, 'A' as int, rows, cols);
    BracketIs(t, 'B' as int, rows, cols);
    if t.row + 1 >= t.bottom { Scrolls(t, rows, cols); }
  }

  /** CUF and CUB: like printing without a character, and like a backspace. */
  lemma ForwardAndBack(t: Text, rows: nat, cols: nat)
    requires Idle(t, rows, cols)
    ensures AfterBracket(t, 'C' as int, rows, cols)
      == if t.col + 1 < cols then t.(col := t.col + 1) else After(t, 10, rows, cols)
    ensures AfterBracket(t, 'D' as int, rows, cols) == After(t, 8, rows, cols)
  {
    BracketIs(t, 'C' as int, rows, cols);
    BracketIs(t, 'D' as int, rows, cols);
    AfterIsStep(t, 8, rows, cols);
    AfterIsStep(t, 10, rows, cols);
  }

  /** CUP without numbers: to the upper left corner of the region. */
  lemma Home(t: Text, rows: nat, cols: nat)
    requires Idle(t, rows, cols)
    ensures AfterBracket(t, 'H' as int, rows, cols) == t.(row := t.top, col := 0)
  {
    BracketIs(t, 'H' as int, rows, cols);
  }

  /** ED: everything from the cursor on, also below the region, becomes blank. */
  lemma EraseInDisplay(t: Text, rows: nat, cols: nat)
    requires Idle(t, rows, cols)
    ensures var u := AfterBracket(t, 'J' as int, rows, cols);
      && u == t.(cells := u.cells) && Sized(u.cells, rows, cols)
      && forall r, c :: 0 <= r < rows && 0 <= c < cols ==>
          u.cells[r][c] == if r > t.row || (r == t.row && c >= t.col) then Blank else t.cells[r][c]
  {
    BracketIs(t, 'J' as int, rows, cols);
    EraseKeepsGood(t, 0, rows, cols);
  }

  /** EL: everything from the cursor to the end of its row. */
  lemma EraseInLine(t: Text, rows: nat, cols: nat)
    requires Idle(t, rows, cols)
    ensures var u := AfterBracket(t, 'K' as int, rows, cols);
      && u == t.(cells := u.cells) && Sized(u.cells, rows, cols)
      && forall r, c :: 0 <= r < rows && 0 <= c < cols ==>
          u.cells[r][c] == if r == t.row && c >= t.col then Blank else t.cells[r][c]
  {
    BracketIs(t, 'K' as int, rows, cols);
    EraseKeepsGood(t, 0, rows, cols);
  }

  /** Other bytes end the sequence without effect, but for digits and the question mark. */
  lemma UnknownSequence(t: Text, b: Byte, rows: nat, cols: nat)
    requires Idle(t, rows, cols)
    ensures b != '[' as int ==> Run(t, [0x1B, b], rows, cols) == t
    ensures !(0x30 <= b <= 0x39) && b != 0x3F && !(0x41 <= b <= 0x44) && b !in {0x48, 0x4A, 0x4B} ==>
      AfterBracket(t, b, rows, cols) == t
  {
    RunOne(t, 0x1B, [b], rows, cols);
    RunOne(t.(mode := Escape), b, [], rows, cols);
    assert [0x1B, b] == [0x1B] + [b];
    BracketIs(t, b, rows, cols);
  }

  // ---------- sequences with numbers ----------

  /** The number of a string of digits. */
  lemma {:induction false} NumberIs(p: nat, ds: seq<Digit>, d: Digit)
    ensures Number([]) == 0 && Number(ds + [d]) == 10 * Number(ds) + d
    ensures Value(p, ds + [d]) == 10 * Value(p, ds) + d
    decreases |ds|
  {
    ValueSnoc(0, ds, d);
    ValueSnoc(p, ds, d);
  }

  lemma {:induction false} ValueSnoc(p: nat, ds: seq<Digit>, d: Digit)
    ensures Value(p, ds + [d]) == 10 * Value(p, ds) + d
    decreases |ds|
  {
    if ds == [] {
      assert ([] + [d])[1..] == [];
    } else {
      assert (ds + [d])[1..] == ds[1..] + [d];
      ValueSnoc(10 * p + ds[0], ds[1..], d);
    }
  }

  /** ESC [ n and a final byte. */
  ghost function AfterNumber(t: Text, ds: seq<Digit>, final: Byte, rows: nat, cols: nat): Text
    requires Good(t, rows, cols)
  {
    Run(t, [0x1B, 0x5B] + (DigitBytes(ds) + [final]), rows, cols)
  }

  lemma NumberedIs(t: Text, ds: seq<Digit>, final: Byte, rows: nat, cols: nat)
    requires Idle(t, rows, cols) && Numeral(ds, 99)
    ensures AfterNumber(t, ds, final, rows, cols) == InNumber1(t.(mode := Number1(Number(ds))), Number(ds), final, rows, cols)
  {
    NumberedCommand(t, ds, final, rows, cols);
  }

  /** ECH: `n` characters from the cursor on, but not beyond its row. */
  lemma EraseSome(t: Text, ds: seq<Digit>, rows: nat, cols: nat)
    requires Idle(t, rows, cols) && Numeral(ds, 99)
    ensures var u := AfterNumber(t, ds, 'X' as int, rows, cols);
      && u == t.(cells := u.cells) && Sized(u.cells, rows, cols)
      && forall r, c :: 0 <= r < rows && 0 <= c < cols ==>
          u.cells[r][c] == if r == t.row && t.col <= c < t.col + Number(ds) then Blank else t.cells[r][c]
  {
    NumberedIs(t, ds, 'X' as int, rows, cols);
    EraseKeepsGood(t, Number(ds), rows, cols);
  }

  /** The pen: white, red for 1, blue for 2, white again for 0 and 27; other numbers leave it. */
  lemma PenColors(t: Text, ds: seq<Digit>, rows: nat, cols: nat)
    requires Idle(t, rows, cols) && Numeral(ds, 99)
    ensures AfterNumber(t, ds, 'm' as int, rows, cols) == t.(color :=
      if Number(ds) == 0 || Number(ds) == 27 then 0xFFDF
      else if Number(ds) == 1 then 0xF800
      else if Number(ds) == 2 then 0x001F
      else t.color)
  {
    NumberedIs(t, ds, 'm' as int, rows, cols);
  }

  /** Insert mode, which is kept but has no effect. */
  lemma InsertMode(t: Text, ds: seq<Digit>, rows: nat, cols: nat)
    requires Idle(t, rows, cols) && Numeral(ds, 99)
    ensures AfterNumber(t, ds, 'h' as int, rows, cols) == t.(insertOn := t.insertOn || Number(ds) == 4)
    ensures AfterNumber(t, ds, 'l' as int, rows, cols) == t.(insertOn := t.insertOn && Number(ds) != 4)
  {
    NumberedIs(t, ds, 'h' as int, rows, cols);
    NumberedIs(t, ds, 'l' as int, rows, cols);
  }

  /** ESC [ n ; m and a final byte. */
  ghost function AfterPair(t: Text, ds: seq<Digit>, es: seq<Digit>, final: Byte, rows: nat, cols: nat): Text
    requires Good(t, rows, cols)
  {
    Run(t, [0x1B, 0x5B] + (DigitBytes(ds) + ([0x3B] + (DigitBytes(es) + [final]))), rows, cols)
  }

  lemma PairIs(t: Text, ds: seq<Digit>, es: seq<Digit>, final: Byte, rows: nat, cols: nat)
    requires Idle(t, rows, cols) && Numeral(ds, 99) && Numeral(es, 199)
    ensures AfterPair(t, ds, es, final, rows, cols)
      == InNumber2(t.(mode := Number2(Number(ds), Number(es))), Number(ds), Number(es), final, cols)
  {
    PairCommand(t, ds, es, final, rows, cols);
  }

  /** CUP: line and column, counted from one; ignored if the place is not in the region or not on the row. */
  lemma Position(t: Text, ds: seq<Digit>, es: seq<Digit>, rows: nat, cols: nat)
    requires Idle(t, rows, cols) && Numeral(ds, 99) && Numeral(es, 199)
    ensures var line, column := Number(ds), Number(es);
      AfterPair(t, ds, es, 'H' as int, rows, cols)
        == if line >= 1 && column >= 1 && t.top <= line - 1 < t.bottom && column - 1 < cols
           then t.(row := line - 1, col := column - 1) else t
  {
    PairIs(t, ds, es, 'H' as int, rows, cols);
  }

  /** The region: from the first to the last line, counted from one, if these are lines of the screen in
      this order; in any case the cursor goes to the corner of the region there is then. */
  lemma Region(t: Text, ds: seq<Digit>, es: seq<Digit>, rows: nat, cols: nat)
    requires Idle(t, rows, cols) && Numeral(ds, 99) && Numeral(es, 199)
    ensures var first, last := Number(ds), Number(es);
      AfterPair(t, ds, es, 'r' as int, rows, cols)
        == if 1 <= first <= last <= rows then t.(top := first - 1, bottom := last, row := first - 1, col := 0)
           else t.(row := t.top, col := 0)
  {
    PairIs(t, ds, es, 'r' as int, rows, cols);
  }

  /** Other final bytes end the sequence without effect. */
  lemma UnknownWithNumbers(t: Text, ds: seq<Digit>, es: seq<Digit>, final: Byte, rows: nat, cols: nat)
    requires Idle(t, rows, cols) && Numeral(ds, 99) && Numeral(es, 199) && !(0x30 <= final <= 0x39)
    ensures final !in {';' as int, 'X' as int, 'h' as int, 'l' as int, 'm' as int} ==>
      AfterNumber(t, ds, final, rows, cols) == t
    ensures final !in {'H' as int, 'r' as int} ==> AfterPair(t, ds, es, final, rows, cols) == t
  {
    NumberedIs(t, ds, final, rows, cols);
    PairIs(t, ds, es, final, rows, cols);
  }

  /** ESC [ ? n h shows the cursor and with l it is hidden, if the number is 25; else nothing happens. */
  lemma CursorShown(t: Text, ds: seq<Digit>, final: Byte, rows: nat, cols: nat)
    requires Idle(t, rows, cols) && Numeral(ds, 99) && !(0x30 <= final <= 0x39)
    ensures Run(t, [0x1B, 0x5B] + ([0x3F] + (DigitBytes(ds) + [final])), rows, cols)
      == if Number(ds) == 25 && final == 0x68 then t.(cursorOn := true)
         else if Number(ds) == 25 && final == 0x6C then t.(cursorOn := false)
         else t
  {
    var rest := DigitBytes(ds) + [final];
    Introduce(t, [0x3F] + rest, rows, cols);
    RunOne(t.(mode := Bracket), 0x3F, rest, rows, cols);
    ReadNumber(t, QuestionMark, Number3(0), ds, [final], rows, cols);
    RunOne(t.(mode := Number3(Number(ds))), final, [], rows, cols);
  }

  /** Where a number must come behind a semicolon or a question mark, any other byte ends the sequence. */
  lemma NumberMissing(t: Text, ds: seq<Digit>, b: Byte, rows: nat, cols: nat)
    requires Idle(t, rows, cols) && Numeral(ds, 99) && !(0x30 <= b <= 0x39)
    ensures Run(t, [0x1B, 0x5B] + ([0x3F] + [b]), rows, cols) == t
    ensures Run(t, [0x1B, 0x5B] + (DigitBytes(ds) + ([0x3B] + [b])), rows, cols) == t
  {
    Introduce(t, [0x3F] + [b], rows, cols);
    RunOne(t.(mode := Bracket), 0x3F, [b], rows, cols);
    RunOne(t.(mode := QuestionMark), b, [], rows, cols);
    Introduce(t, DigitBytes(ds) + ([0x3B] + [b]), rows, cols);
    ReadNumber(t, Bracket, Number1(0), ds, [0x3B] + [b], rows, cols);
    RunOne(t.(mode := Number1(Number(ds))), 0x3B, [b], rows, cols);
    RunOne(t.(mode := Semicolon(Number(ds))), b, [], rows, cols);
  }
}
