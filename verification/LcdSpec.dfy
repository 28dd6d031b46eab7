/** The character display: a controller behind a 4-bit bus, which has its own idea of addresses, and what
    every byte does to the grid of characters. */
module LcdSpec {
  import opened Words
  import opened S = ScreenSpec

  const SPACE: Byte := 0x20

  // ---------- the controller ----------

  /** What instructions other than writing set: the display is on, with its cursor, blinking; the address counter
      goes to the right, or the display is shifted instead; there are two lines. */
  datatype Settings = Settings(on: bool, cursor: bool, blink: bool, right: bool, shifting: bool, twoLines: bool)

  /** The controller with its line RS, half a byte that came first (or 16), the address counter, its display
      memory, and the memory for glyphs, into which the counter points if `font`. */
  datatype Controller = Controller(rs: bool, half: nat, address: nat, memory: seq<Byte>,
                                   font: bool, glyph: nat, glyphs: seq<Byte>, settings: Settings)

  ghost predicate Listening(c: Controller) {
    c.half == 16 && !c.rs && |c.memory| == 128 && c.address < 128 && |c.glyphs| == 64 && c.glyph < 64
  }

  /** In two-line mode the lines of forty begin at 0 and at 64. */
  function NextAddress(a: nat): nat {
    if a == 0x27 then 0x40 else if a >= 0x67 then 0 else a + 1
  }

  function PreviousAddress(a: nat): nat {
    if a == 0 then 0x67 else if a == 0x40 then 0x27 else a - 1
  }

  predicate Set(b: Byte, weight: nat)
    requires weight > 0
  {
    b / weight % 2 == 1
  }

  /** An instruction is known by its highest bit: set an address, of either memory; the function, the display and
      its cursor, the direction; home; clear. */
  function Instruct(c: Controller, b: Byte): Controller {
    var s := c.settings;
    if b >= 0x80 then c.(address := b - 0x80, font := false)
    else if b >= 0x40 then c.(font := true, glyph := b - 0x40)
    else if b >= 0x20 then c.(settings := s.(twoLines := Set(b, 8)))
    else if b >= 0x10 then c
    else if b >= 8 then c.(settings := s.(on := Set(b, 4), cursor := Set(b, 2), blink := Set(b, 1)))
    else if b >= 4 then c.(settings := s.(right := Set(b, 2), shifting := Set(b, 1)))
    else if b >= 2 then c.(address := 0, font := false)
    else if b == 1 then c.(address := 0, font := false, memory := seq(128, _ => SPACE), settings := s.(right := true))
    else c
  }

  function Store(c: Controller, b: Byte): Controller {
    if c.font then
      if c.glyph < |c.glyphs| then c.(glyphs := c.glyphs[c.glyph := b], glyph := (c.glyph + 1) % 64) else c
    else if c.address < |c.memory| then
      c.(memory := c.memory[c.address := b],
         address := if c.settings.right then NextAddress(c.address) else PreviousAddress(c.address))
    else c
  }

  /** Four bits on the bus: the first ones wait for the others. */
  function TakeHalf(c: Controller, n: nat): Controller
    requires n < 16
  {
    if c.half >= 16 then c.(half := n)
    else
      var b: Byte := c.half * 16 + n;
      if c.rs then Store(c.(half := 16), b) else Instruct(c.(half := 16), b)
  }

  // ---------- addresses ----------

  /** Rows 2 and 3 continue the lines of rows 0 and 1. */
  function Address(cols: nat, x: nat, y: nat): nat {
    x + (if y == 1 || y == 3 then 0x40 else 0) + (if y >= 2 then cols else 0)
  }

  ghost predicate OnGrid(cols: nat, rows: nat, x: nat, y: nat) {
    x < cols && y < rows
  }

  ghost predicate Separate(cols: nat, rows: nat) {
    forall x: nat, y: nat, x': nat, y': nat ::
      (OnGrid(cols, rows, x, y) && OnGrid(cols, rows, x', y') && Address(cols, x, y) == Address(cols, x', y'))
      ==> x == x' && y == y'
  }

  /** Different places have different addresses exactly on displays with at most two rows or at most 32
      columns; then the addresses have seven bits. */
  lemma SeparateIff(cols: nat, rows: nat)
    requires 0 < cols <= 40 && 0 < rows <= 4
    ensures Separate(cols, rows) <==> rows <= 2 || cols <= 32
    ensures rows <= 2 || cols <= 32 ==> forall x: nat, y: nat :: OnGrid(cols, rows, x, y) ==> Address(cols, x, y) < 0x80
  {
    if rows > 2 && cols > 32 {
      // the place of row 2 that has the first address of row 1
      assert OnGrid(cols, rows, 64 - cols, 2) && OnGrid(cols, rows, 0, 1);
      assert Address(cols, 64 - cols, 2) == Address(cols, 0, 1);
    }
  }

  /** A controller has memory behind its two lines of forty only. */
  predicate OnLine(a: nat) {
    a < 0x28 || 0x40 <= a < 0x68
  }

  /** All places are there exactly on displays with at most two rows or at most 20 columns. */
  lemma OnLinesIff(cols: nat, rows: nat)
    requires 0 < cols <= 40 && 0 < rows <= 4
    ensures (forall x: nat, y: nat :: OnGrid(cols, rows, x, y) ==> OnLine(Address(cols, x, y))) <==> rows <= 2 || cols <= 20
  {
    if rows > 2 && cols > 20 {
      // the place of row 2 that would follow the first line
      assert OnGrid(cols, rows, 40 - cols, 2) && !OnLine(Address(cols, 40 - cols, 2));
    }
  }

  /** Between places that are there the counter never leaves the lines. */
  lemma NextStaysOnLine(a: nat)
    requires OnLine(a)
    ensures OnLine(NextAddress(a))
  {
  }

  /** A grid with one place changed. */
  function Placed(copy: seq<seq<Byte>>, x: nat, y: nat, b: Byte): seq<seq<Byte>>
    requires y < |copy| && x < |copy[y]|
  {
    var row: seq<Byte> := copy[y][x := b];
    copy[y := row]
  }

  function Spaces(n: nat): (s: seq<Byte>)
    ensures |s| == n && forall i :: 0 <= i < n ==> s[i] == SPACE
  {
    seq(n, _ => SPACE)
  }

  /** A grid with columns `from` to `to` of a row blanked. */
  function Blanked(copy: seq<seq<Byte>>, y: nat, from: nat, to: nat): seq<seq<Byte>>
    requires y < |copy| && from <= to <= |copy[y]|
  {
    copy[y := copy[y][..from] + Spaces(to - from) + copy[y][to..]]
  }

  lemma BlankNothing(copy: seq<seq<Byte>>, y: nat, x: nat)
    requires y < |copy| && x <= |copy[y]|
    ensures Blanked(copy, y, x, x) == copy
  {
    assert copy[y][..x] + Spaces(0) + copy[y][x..] == copy[y];
  }

  lemma BlankMore(copy: seq<seq<Byte>>, y: nat, from: nat, x: nat)
    requires y < |copy| && from <= x < |copy[y]|
    ensures |Blanked(copy, y, from, x)[y]| == |copy[y]|
    ensures Placed(Blanked(copy, y, from, x), x, y, SPACE) == Blanked(copy, y, from, x + 1)
  {
    assert (copy[y][..from] + Spaces(x - from) + copy[y][x..])[x := SPACE] == copy[y][..from] + Spaces(x + 1 - from) + copy[y][x + 1..];
  }

  /** A grid with the first `x` places of a row copied to the row above it. */
  function Raised(copy: seq<seq<Byte>>, y: nat, x: nat): seq<seq<Byte>>
    requires 0 < y < |copy| && |copy[y - 1]| == |copy[y]| && x <= |copy[y]|
  {
    copy[y - 1 := copy[y][..x] + copy[y - 1][x..]]
  }

  lemma RaiseMore(copy: seq<seq<Byte>>, y: nat, x: nat)
    requires 0 < y < |copy| && |copy[y - 1]| == |copy[y]| && x < |copy[y]|
    ensures |Raised(copy, y, x)[y - 1]| == |copy[y]| && Raised(copy, y, x)[y] == copy[y]
    ensures Placed(Raised(copy, y, x), x, y - 1, copy[y][x]) == Raised(copy, y, x + 1)
  {
    assert (copy[y][..x] + copy[y - 1][x..])[x := copy[y][x]] == copy[y][..x + 1] + copy[y - 1][x + 1..];
  }

  lemma RaiseEnds(copy: seq<seq<Byte>>, y: nat)
    requires 0 < y < |copy| && |copy[y - 1]| == |copy[y]|
    ensures Raised(copy, y, 0) == copy && Raised(copy, y, |copy[y]|) == copy[y - 1 := copy[y]]
  {
    assert copy[y][..0] + copy[y - 1][0..] == copy[y - 1];
    assert copy[y][..|copy[y]|] + copy[y - 1][|copy[y]|..] == copy[y];
  }

  /** A grid with each row up to `y` copied to the one above it, one after the other. */
  function ScrolledTo(copy: seq<seq<Byte>>, y: nat): (s: seq<seq<Byte>>)
    requires 1 <= y <= |copy|
    ensures |s| == |copy|
    decreases y
  {
    if y == 1 then copy else ScrolledTo(copy, y - 1)[y - 2 := copy[y - 1]]
  }

  lemma {:induction false} ScrolledRow(copy: seq<seq<Byte>>, y: nat, i: nat)
    requires 1 <= y <= |copy| && i < |copy|
    ensures ScrolledTo(copy, y)[i] == if i < y - 1 then copy[i + 1] else copy[i]
    decreases y
  {
    if y > 1 { ScrolledRow(copy, y - 1, i); }
  }

  lemma ScrollMore(copy: seq<seq<Byte>>, y: nat)
    requires 1 <= y < |copy|
    ensures var s := ScrolledTo(copy, y);
      s[y - 1 := s[y]] == ScrolledTo(copy, y + 1)
  {
    ScrolledRow(copy, y, y);
  }

  lemma ScrollLast(copy: seq<seq<Byte>>, rows: nat, cols: nat)
    requires rows > 0 && |copy| == rows && |copy[rows - 1]| == cols
    ensures |ScrolledTo(copy, rows)[rows - 1]| == cols
    ensures Blanked(ScrolledTo(copy, rows), rows - 1, 0, cols) == copy[1..] + [Spaces(cols)]
  {
    var s := ScrolledTo(copy, rows);
    ScrolledRow(copy, rows, rows - 1);
    BlankRow(s, rows - 1, cols);
    forall i | 0 <= i < rows - 1
      ensures s[i] == copy[1..][i]
    {
      ScrolledRow(copy, rows, i);
    }
    assert s[..rows - 1] == copy[1..];
    assert s[rows..] == [];
  }

  lemma BlankRow(copy: seq<seq<Byte>>, y: nat, cols: nat)
    requires y < |copy| && |copy[y]| == cols
    ensures Blanked(copy, y, 0, cols) == copy[..y] + [Spaces(cols)] + copy[y + 1..]
  {
    assert copy[y][..0] + Spaces(cols) + copy[y][cols..] == Spaces(cols);
  }

  /** The display shows the copy. */
  ghost predicate Mirrors(c: Controller, copy: seq<seq<Byte>>, cols: nat) {
    forall x: nat, y: nat :: y < |copy| && x < cols && x < |copy[y]| ==>
      Address(cols, x, y) < |c.memory| && c.memory[Address(cols, x, y)] == copy[y][x]
  }

  lemma ByteTaken(c: Controller, b: Byte)
    requires c.half == 16
    ensures TakeHalf(TakeHalf(c, b / 16), b % 16) == if c.rs then Store(c, b) else Instruct(c, b)
  {
    assert b / 16 * 16 + b % 16 == b;
    assert c.(half := b / 16).(half := 16) == c;
  }

  lemma StoreMirrors(c: Controller, copy: seq<seq<Byte>>, cols: nat, rows: nat, x: nat, y: nat, b: Byte)
    requires 0 < cols <= 40 && 0 < rows <= 4 && (rows <= 2 || cols <= 32)
    requires Sized(copy, cols, rows) && OnGrid(cols, rows, x, y)
    requires Mirrors(c, copy, cols) && |c.memory| == 128
    ensures Address(cols, x, y) < 128
    ensures Mirrors(c.(memory := c.memory[Address(cols, x, y) := b]), Placed(copy, x, y, b), cols)
  {
    SeparateIff(cols, rows);
    var c', copy' := c.(memory := c.memory[Address(cols, x, y) := b]), Placed(copy, x, y, b);
    forall x': nat, y': nat | y' < |copy'| && x' < cols && x' < |copy'[y']|
      ensures Address(cols, x', y') < |c'.memory| && c'.memory[Address(cols, x', y')] == copy'[y'][x']
    {
      assert OnGrid(cols, rows, x', y');
    }
  }

  // ---------- what every byte does ----------

  /** The grid, the cursor's place, and whether it is on. */
  datatype Shown = Shown(copy: seq<seq<Byte>>, x: nat, y: nat, on: bool)

  ghost predicate Sized(copy: seq<seq<Byte>>, cols: nat, rows: nat) {
    |copy| == rows && forall y :: 0 <= y < rows ==> |copy[y]| == cols
  }

  /** The cursor is on the grid. */
  ghost predicate Good(s: Shown, cols: nat, rows: nat) {
    Sized(s.copy, cols, rows) && s.x < cols && s.y < rows
  }

  function Down(s: Shown, cols: nat): Shown {
    if s.y + 1 < |s.copy| || s.copy == [] then s.(y := s.y + 1) else s.(copy := s.copy[1..] + [Spaces(cols)])
  }

  function NewLine(s: Shown, cols: nat): Shown {
    Down(s.(x := 0), cols)
  }

  function Right(s: Shown, cols: nat): Shown {
    if s.x + 1 < cols then s.(x := s.x + 1) else NewLine(s, cols)
  }

  function Left(s: Shown, cols: nat): Shown
    requires cols > 0
  {
    if s.x > 0 then s.(x := s.x - 1) else if s.y > 0 then s.(x := cols - 1, y := s.y - 1) else s
  }

  function Up(s: Shown): Shown {
    if s.y > 0 then s.(y := s.y - 1) else s
  }

  /** Rows and columns count from one; a place outside the grid is ignored. */
  function Move(s: Shown, row: nat, column: nat, cols: nat): Shown {
    if 1 <= row <= |s.copy| && 1 <= column <= cols then s.(x := column - 1, y := row - 1) else s
  }

  function Tab(s: Shown, cols: nat): Shown {
    var x := (s.x / 8 + 1) * 8;
    if x < cols then s.(x := x) else NewLine(s, cols)
  }

  /** Blank `n` places from the cursor on, but not beyond the line. */
  function Erase(s: Shown, n: nat): Shown
    requires s.y < |s.copy| && s.x <= |s.copy[s.y]|
  {
    var cols := |s.copy[s.y]|;
    s.(copy := Blanked(s.copy, s.y, s.x, if s.x + n > cols then cols else s.x + n))
  }

  /** Blank everything from the cursor on. */
  function ClearEnd(s: Shown, cols: nat): Shown
    requires s.y < |s.copy| && s.x <= |s.copy[s.y]|
  {
    var line := Erase(s, |s.copy[s.y]|);
    s.(copy := line.copy[..s.y + 1] + seq(|s.copy| - s.y - 1, _ => Spaces(cols)))
  }

  lemma ClearEndAll(s: Shown, cols: nat, rows: nat)
    requires Good(s, cols, rows) && s.x == 0 && s.y == 0
    ensures ClearEnd(s, cols).copy == seq(rows, _ => Spaces(cols))
  {
    BlankRow(s.copy, 0, cols);
    assert Erase(s, cols).copy[0] == Spaces(cols);
  }

  /** A grid with the rows below `y` up to `z` blanked. */
  function BlankedBelow(copy: seq<seq<Byte>>, y: nat, z: nat, cols: nat): seq<seq<Byte>>
    requires y < z <= |copy|
  {
    copy[..y + 1] + seq(z - y - 1, _ => Spaces(cols)) + copy[z..]
  }

  lemma BlankBelowMore(copy: seq<seq<Byte>>, y: nat, z: nat, cols: nat)
    requires y < z < |copy| && |copy[z]| == cols
    ensures |BlankedBelow(copy, y, z, cols)| == |copy| && BlankedBelow(copy, y, z, cols)[z] == copy[z]
    ensures Blanked(BlankedBelow(copy, y, z, cols), z, 0, cols) == BlankedBelow(copy, y, z + 1, cols)
  {
    BlankRow(BlankedBelow(copy, y, z, cols), z, cols);
  }

  lemma BlankBelowEnds(copy: seq<seq<Byte>>, y: nat, cols: nat)
    requires y < |copy|
    ensures BlankedBelow(copy, y, y + 1, cols) == copy
    ensures BlankedBelow(copy, y, |copy|, cols) == copy[..y + 1] + seq(|copy| - y - 1, _ => Spaces(cols))
  {
  }

  /** Control characters are not shown; eight codes stand for glyphs of one's own. */
  function Print(s: Shown, ch: Byte, cols: nat): Shown
    requires s.y < |s.copy| && s.x < |s.copy[s.y]|
  {
    if ch < SPACE then s
    else Right(s.(copy := Placed(s.copy, s.x, s.y, if 0x80 <= ch <= 0x87 then ch - 0x80 else ch)), cols)
  }

  datatype Terminal = Terminal(s: Shown, mode: S.Mode)

  function InStart(s: Shown, b: Byte, cols: nat, rows: nat): Terminal
    requires Good(s, cols, rows)
  {
    if b == 8 then Terminal(Left(s, cols), S.Start)
    else if b == 9 then Terminal(Tab(s, cols), S.Start)
    else if b == 10 then Terminal(NewLine(s, cols), S.Start)
    else if b == 13 then Terminal(s.(x := 0), S.Start)
    else if b == ESC then Terminal(s, S.Escape)
    else Terminal(Print(s, b, cols), S.Start)
  }

  function InBracket(s: Shown, b: Byte, cols: nat, rows: nat): Terminal
    requires Good(s, cols, rows)
  {
    if b == '?' as int then Terminal(s, S.QuestionMark)
    else if S.IsDigit(b) then Terminal(s, S.Number1(S.DigitOf(b)))
    else if b == 'A' as int then Terminal(Up(s), S.Start)
    else if b == 'B' as int then Terminal(Down(s, cols), S.Start)
    else if b == 'C' as int then Terminal(Right(s, cols), S.Start)
    else if b == 'D' as int then Terminal(Left(s, cols), S.Start)
    else if b == 'H' as int then Terminal(s.(x := 0, y := 0), S.Start)
    else if b == 'J' as int then Terminal(ClearEnd(s, cols), S.Start)
    else if b == 'K' as int then Terminal(Erase(s, cols), S.Start)
    else Terminal(s, S.Start)
  }

  /** One more digit, unless that takes the number out of range. */
  function NextMode(m: S.Mode, b: Byte): S.Mode
    requires S.IsDigit(b) && (m.Number1? || m.Number2? || m.Number3?)
  {
    match m
    case Number1(p) => if 10 * p + S.DigitOf(b) > 99 then S.Start else S.Number1(10 * p + S.DigitOf(b))
    case Number2(p, q) => if 10 * q + S.DigitOf(b) > 199 then S.Start else S.Number2(p, 10 * q + S.DigitOf(b))
    case Number3(p) => if 10 * p + S.DigitOf(b) > 99 then S.Start else S.Number3(10 * p + S.DigitOf(b))
  }

  function InNumber(s: Shown, m: S.Mode, b: Byte, cols: nat, rows: nat): Terminal
    requires Good(s, cols, rows) && (m.Number1? || m.Number2? || m.Number3?)
  {
    if S.IsDigit(b) then Terminal(s, NextMode(m, b))
    else if m.Number1? && b == ';' as int then Terminal(s, S.Semicolon(m.p))
    else if m.Number1? && b == 'X' as int then Terminal(Erase(s, m.p), S.Start)
    else if m.Number2? && b == 'H' as int then Terminal(Move(s, m.p, m.q, cols), S.Start)
    else if m.Number3? && b == 'h' as int && m.p == 25 then Terminal(s.(on := true), S.Start)
    else if m.Number3? && b == 'l' as int && m.p == 25 then Terminal(s.(on := false), S.Start)
    else Terminal(s, S.Start)
  }

  function Step(t: Terminal, b: Byte, cols: nat, rows: nat): Terminal
    requires Good(t.s, cols, rows)
  {
    match t.mode
    case Start => InStart(t.s, b, cols, rows)
    case Escape => t.(mode := if b == '[' as int then S.Bracket else S.Start)
    case Bracket => InBracket(t.s, b, cols, rows)
    case QuestionMark => t.(mode := if S.IsDigit(b) then S.Number3(S.DigitOf(b)) else S.Start)
    case Semicolon(p) => t.(mode := if S.IsDigit(b) then S.Number2(p, S.DigitOf(b)) else S.Start)
    case _ => InNumber(t.s, t.mode, b, cols, rows)
  }

  lemma DownKeepsGood(s: Shown, cols: nat, rows: nat)
    requires Good(s, cols, rows)
    ensures Good(Down(s, cols), cols, rows) && Good(NewLine(s, cols), cols, rows)
    ensures Good(Right(s, cols), cols, rows) && Good(Tab(s, cols), cols, rows)
  {
  }

  lemma EraseKeepsGood(s: Shown, n: nat, cols: nat, rows: nat)
    requires Good(s, cols, rows)
    ensures Good(Erase(s, n), cols, rows) && Good(ClearEnd(s, cols), cols, rows)
  {
  }

  lemma PrintKeepsGood(s: Shown, ch: Byte, cols: nat, rows: nat)
    requires Good(s, cols, rows)
    ensures Good(Print(s, ch, cols), cols, rows)
  {
    if ch >= SPACE {
      DownKeepsGood(s.(copy := Placed(s.copy, s.x, s.y, if 0x80 <= ch <= 0x87 then ch - 0x80 else ch)), cols, rows);
    }
  }

  /** Every byte leaves the cursor on the grid. */
  lemma StepKeepsGood(t: Terminal, b: Byte, cols: nat, rows: nat)
    requires Good(t.s, cols, rows)
    ensures Good(Step(t, b, cols, rows).s, cols, rows)
  {
    DownKeepsGood(t.s, cols, rows);
    PrintKeepsGood(t.s, b, cols, rows);
    EraseKeepsGood(t.s, cols, cols, rows);
    if t.mode.Number1? { EraseKeepsGood(t.s, t.mode.p, cols, rows); }
  }

  ghost function Run(t: Terminal, bytes: seq<Byte>, cols: nat, rows: nat): (u: Terminal)
    requires Good(t.s, cols, rows)
    ensures Good(u.s, cols, rows)
    decreases |bytes|
  {
    if bytes == [] then t
    else
      StepKeepsGood(t, bytes[0], cols, rows);
      Run(Step(t, bytes[0], cols, rows), bytes[1..], cols, rows)
  }

  // ---------- glyphs ----------

  /** The lowest five bits of the first `n` rows of a glyph, put at place `first`. */
  function WithGlyph(glyphs: seq<Byte>, first: nat, font: seq<Byte>, n: nat): seq<Byte>
    requires first + n <= |glyphs| && n <= |font|
  {
    glyphs[..first] + seq(n, i requires 0 <= i < n => font[i] % 0x20) + glyphs[first + n..]
  }

  lemma OneMoreRow(glyphs: seq<Byte>, first: nat, font: seq<Byte>, n: nat)
    requires first + n < |glyphs| && n < |font|
    ensures WithGlyph(glyphs, first, font, 0) == glyphs
    ensures |WithGlyph(glyphs, first, font, n)| == |glyphs|
    ensures WithGlyph(glyphs, first, font, n)[first + n := font[n] % 0x20] == WithGlyph(glyphs, first, font, n + 1)
  {
  }
}
