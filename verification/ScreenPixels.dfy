/** How the character grid is drawn: cells of 8 by 19 pixels, one pixel after the other along each
    line of the frame buffer. */
module ScreenPixels {
  import opened Words
  import opened ScreenSpec

  type Pixels = seq<Color>

  /** The glyphs of the characters from 0x21 on: sixteen rows of eight bits each. */
  type Font = f: seq<seq<bv8>> | |f| == 223 && forall i :: 0 <= i < |f| ==> |f[i]| == 16
    ghost witness seq(223, _ => seq(16, _ => 0))

  /** Is the pixel of the character's glyph set? */
  function GlyphPixel(font: Font, ch: Byte, x: nat, y: nat): bool
    requires x < 8
  {
    ch >= 0x21 && y < 16 && font[ch - 0x21][y] & (0x80 >> x) != 0
  }

  /** The colour of a pixel in a cell. */
  function CellPixel(font: Font, cell: Cell, x: nat, y: nat): Color
    requires x < 8
  {
    match cell
    case Blank => BLACK
    case Glyph(ch, color) => if GlyphPixel(font, ch, x, y) then color else BLACK
  }

  /** A frame buffer with lines of `pitch` pixels, of which `rows` times `cols` cells are used. */
  datatype Geometry = Geometry(pitch: nat, rows: nat, cols: nat)

  /** Where line `y` of a buffer with lines of `pitch` pixels begins. */
  function Line(pitch: nat, y: nat): nat {
    if y == 0 then 0 else Line(pitch, y - 1) + pitch
  }

  /** Where pixel `x`, `y` of the cell in row `r`, column `c` is stored. */
  function Spot(k: Geometry, r: nat, c: nat, x: nat, y: nat): nat {
    Line(k.pitch, 19 * r + y) + (8 * c + x)
  }

  ghost predicate InGrid(k: Geometry, r: nat, c: nat, x: nat, y: nat) {
    r < k.rows && c < k.cols && x < 8 && y < 19
  }

  /** Does a buffer of `n` pixels hold the grid? */
  ghost predicate Holds(k: Geometry, n: nat) {
    0 < k.rows && 0 < k.cols && 8 * k.cols <= k.pitch && Line(k.pitch, 19 * k.rows) <= n
  }

  lemma {:induction false} LineIs(p: nat, y: nat)
    ensures Line(p, y) == p * y
  {
    if y > 0 {
      LineIs(p, y - 1);
      assert p * y == p * (y - 1) + p;
    }
  }

  lemma {:induction false} LineAdd(p: nat, y: nat, z: nat)
    ensures Line(p, y + z) == Line(p, y) + Line(p, z)
    decreases z
  {
    if z > 0 { LineAdd(p, y, z - 1); }
  }

  lemma {:induction false} LinesApart(p: nat, y: nat, z: nat)
    requires y < z
    ensures Line(p, y) + p <= Line(p, z)
    decreases z
  {
    if y < z - 1 { LinesApart(p, y, z - 1); }
  }

  /** A cell's pixels lie on the lines of its row. */
  lemma SpotInRow(k: Geometry, r: nat, c: nat, x: nat, y: nat)
    requires InGrid(k, r, c, x, y) && 8 * k.cols <= k.pitch
    ensures Line(k.pitch, 19 * r) <= Spot(k, r, c, x, y) < Line(k.pitch, 19 * (r + 1)) <= Line(k.pitch, 19 * k.rows)
  {
    LinesApart(k.pitch, 19 * r + y, 19 * (r + 1));
    if y > 0 { LinesApart(k.pitch, 19 * r, 19 * r + y); }
    if r + 1 < k.rows { LinesApart(k.pitch, 19 * (r + 1), 19 * k.rows); }
  }

  /** Different pixels are stored in different places. */
  lemma SpotsDiffer(k: Geometry, r: nat, c: nat, x: nat, y: nat, r': nat, c': nat, x': nat, y': nat)
    requires InGrid(k, r, c, x, y) && InGrid(k, r', c', x', y') && 8 * k.cols <= k.pitch
    requires Spot(k, r, c, x, y) == Spot(k, r', c', x', y')
    ensures r == r' && c == c' && x == x' && y == y'
  {
    var v, v' := 19 * r + y, 19 * r' + y';
    if v < v' { LinesApart(k.pitch, v, v'); }
    if v' < v { LinesApart(k.pitch, v', v); }
  }

  lemma RowsInOrder(k: Geometry, r: nat, r': nat)
    requires r <= r'
    ensures Line(k.pitch, 19 * r) <= Line(k.pitch, 19 * r')
  {
    if r < r' { LinesApart(k.pitch, 19 * r, 19 * r'); }
  }

  // ---------- what is shown ----------

  datatype Cursor = Hidden | Underline(row: nat, col: nat, color: Color)

  /** The colour of a pixel of the grid, with the cursor drawn on the lowest three lines of its cell. */
  function Drawn(font: Font, cells: Cells, cursor: Cursor, r: nat, c: nat, x: nat, y: nat): Color
    requires r < |cells| && c < |cells[r]| && x < 8
  {
    if cursor.Underline? && r == cursor.row && c == cursor.col && y >= 16 then cursor.color
    else CellPixel(font, cells[r][c], x, y)
  }

  ghost predicate Shows(font: Font, k: Geometry, s: Pixels, cells: Cells, cursor: Cursor) {
    && Holds(k, |s|) && Sized(cells, k.rows, k.cols)
    && forall r: nat, c: nat, x: nat, y: nat {:trigger Spot(k, r, c, x, y)} :: InGrid(k, r, c, x, y) ==>
        SpotInRange(k, r, c, x, y, |s|) && s[Spot(k, r, c, x, y)] == Drawn(font, cells, cursor, r, c, x, y)
  }

  predicate SpotInRange(k: Geometry, r: nat, c: nat, x: nat, y: nat, n: nat) {
    Spot(k, r, c, x, y) < n
  }

  /** In terms of plain coordinates: every visible pixel of the text area is as drawn. */
  lemma EveryVisiblePixel(font: Font, k: Geometry, s: Pixels, cells: Cells, cursor: Cursor, px: nat, py: nat)
    requires Shows(font, k, s, cells, cursor) && px < 8 * k.cols && py < 19 * k.rows
    ensures k.pitch * py + px < |s|
    ensures s[k.pitch * py + px] == Drawn(font, cells, cursor, py / 19, px / 8, px % 8, py % 19)
  {
    LineIs(k.pitch, py);
    assert Spot(k, py / 19, px / 8, px % 8, py % 19) == k.pitch * py + px by {
      assert 19 * (py / 19) + py % 19 == py && 8 * (px / 8) + px % 8 == px;
    }
  }

  /** The only underline pixels lit are the cursor's. */
  lemma UnderlineIsCursor(font: Font, k: Geometry, s: Pixels, cells: Cells, cursor: Cursor, r: nat, c: nat, x: nat, y: nat)
    requires Shows(font, k, s, cells, cursor) && InGrid(k, r, c, x, y) && y >= 16
    requires cursor.Underline? ==> cursor.color != BLACK
    ensures SpotInRange(k, r, c, x, y, |s|)
    ensures s[Spot(k, r, c, x, y)] != BLACK <==> cursor.Underline? && cursor.row == r && cursor.col == c
  {
  }

  // ---------- painting ----------

  /** `s` is `before` with columns `from` to `to` of row `r` showing `cell`. */
  ghost predicate Filled(font: Font, k: Geometry, before: Pixels, s: Pixels, r: nat, from: nat, to: nat, cell: Cell) {
    && Holds(k, |before|) && |s| == |before|
    && forall r': nat, c': nat, x: nat, y: nat {:trigger Spot(k, r', c', x, y)} :: InGrid(k, r', c', x, y) ==>
        SpotInRange(k, r', c', x, y, |s|)
        && s[Spot(k, r', c', x, y)]
          == if r' == r && from <= c' < to then CellPixel(font, cell, x, y) else before[Spot(k, r', c', x, y)]
  }

  /** `s` is `before` with the cell painted as far as pixel `px` of line `py`. */
  ghost predicate Painted(font: Font, k: Geometry, before: Pixels, s: Pixels, r: nat, c: nat, cell: Cell, px: nat, py: nat) {
    && Holds(k, |before|) && |s| == |before|
    && forall r': nat, c': nat, x: nat, y: nat {:trigger Spot(k, r', c', x, y)} :: InGrid(k, r', c', x, y) ==>
        SpotInRange(k, r', c', x, y, |s|)
        && s[Spot(k, r', c', x, y)]
          == if r' == r && c' == c && (y < py || (y == py && x < px)) then CellPixel(font, cell, x, y)
             else before[Spot(k, r', c', x, y)]
  }

  lemma NothingPainted(font: Font, k: Geometry, s: Pixels, r: nat, c: nat, cell: Cell)
    requires Holds(k, |s|)
    ensures Painted(font, k, s, s, r, c, cell, 0, 0)
  {
    forall r': nat, c': nat, x: nat, y: nat | InGrid(k, r', c', x, y)
      ensures SpotInRange(k, r', c', x, y, |s|)
    {
      SpotInRow(k, r', c', x, y);
    }
  }

  lemma PaintOne(font: Font, k: Geometry, before: Pixels, s: Pixels, r: nat, c: nat, cell: Cell, px: nat, py: nat)
    requires Painted(font, k, before, s, r, c, cell, px, py) && InGrid(k, r, c, px, py)
    ensures SpotInRange(k, r, c, px, py, |s|)
    ensures Painted(font, k, before, s[Spot(k, r, c, px, py) := CellPixel(font, cell, px, py)], r, c, cell, px + 1, py)
  {
    var i := Spot(k, r, c, px, py);
    var t := s[i := CellPixel(font, cell, px, py)];
    forall r': nat, c': nat, x: nat, y: nat | InGrid(k, r', c', x, y)
      ensures SpotInRange(k, r', c', x, y, |t|)
      ensures t[Spot(k, r', c', x, y)]
        == if r' == r && c' == c && (y < py || (y == py && x < px + 1)) then CellPixel(font, cell, x, y)
           else before[Spot(k, r', c', x, y)]
    {
      if Spot(k, r', c', x, y) == i {
        SpotsDiffer(k, r, c, px, py, r', c', x, y);
      }
    }
  }

  lemma LinePainted(font: Font, k: Geometry, before: Pixels, s: Pixels, r: nat, c: nat, cell: Cell, py: nat)
    requires Painted(font, k, before, s, r, c, cell, 8, py)
    ensures Painted(font, k, before, s, r, c, cell, 0, py + 1)
  {
    forall r': nat, c': nat, x: nat, y: nat | InGrid(k, r', c', x, y)
      ensures SpotInRange(k, r', c', x, y, |s|)
      ensures s[Spot(k, r', c', x, y)]
        == if r' == r && c' == c && y < py + 1 then CellPixel(font, cell, x, y) else before[Spot(k, r', c', x, y)]
    {
    }
  }

  lemma CellPainted(font: Font, k: Geometry, before: Pixels, s: Pixels, r: nat, c: nat, cell: Cell)
    requires Painted(font, k, before, s, r, c, cell, 0, 19)
    ensures Filled(font, k, before, s, r, c, c + 1, cell)
  {
    forall r': nat, c': nat, x: nat, y: nat | InGrid(k, r', c', x, y)
      ensures SpotInRange(k, r', c', x, y, |s|)
      ensures s[Spot(k, r', c', x, y)]
        == if r' == r && c <= c' < c + 1 then CellPixel(font, cell, x, y) else before[Spot(k, r', c', x, y)]
    {
    }
  }

  lemma NothingFilled(font: Font, k: Geometry, s: Pixels, r: nat, from: nat, cell: Cell)
    requires Holds(k, |s|)
    ensures Filled(font, k, s, s, r, from, from, cell)
  {
    forall r': nat, c': nat, x: nat, y: nat | InGrid(k, r', c', x, y)
      ensures SpotInRange(k, r', c', x, y, |s|)
    {
      SpotInRow(k, r', c', x, y);
    }
  }

  lemma FillMore(font: Font, k: Geometry, a: Pixels, b: Pixels, s: Pixels, r: nat, from: nat, to: nat, cell: Cell)
    requires Filled(font, k, a, b, r, from, to, cell) && Filled(font, k, b, s, r, to, to + 1, cell) && from <= to
    ensures Filled(font, k, a, s, r, from, to + 1, cell)
  {
    forall r': nat, c': nat, x: nat, y: nat | InGrid(k, r', c', x, y)
      ensures SpotInRange(k, r', c', x, y, |s|)
      ensures s[Spot(k, r', c', x, y)]
        == if r' == r && from <= c' < to + 1 then CellPixel(font, cell, x, y) else a[Spot(k, r', c', x, y)]
    {
    }
  }

  lemma FillShows(font: Font, k: Geometry, before: Pixels, s: Pixels, cells: Cells, r: nat, from: nat, to: nat, cell: Cell)
    requires Shows(font, k, before, cells, Hidden) && Filled(font, k, before, s, r, from, to, cell)
    requires r < k.rows && from <= to <= k.cols
    ensures Shows(font, k, s, Fill(cells, r, from, to, cell), Hidden)
  {
    FillKeepsSize(cells, r, from, to, cell, k.rows, k.cols);
    var after := Fill(cells, r, from, to, cell);
    forall r': nat, c': nat, x: nat, y: nat | InGrid(k, r', c', x, y)
      ensures SpotInRange(k, r', c', x, y, |s|)
      ensures s[Spot(k, r', c', x, y)] == Drawn(font, after, Hidden, r', c', x, y)
    {
    }
  }

  function BlackPixels(n: nat): (s: Pixels)
    ensures |s| == n && forall i :: 0 <= i < n ==> s[i] == BLACK
  {
    seq(n, _ => BLACK)
  }

  /** Everything from `offset` on blackened. */
  function Blackened(s: Pixels, offset: nat): Pixels
    requires offset <= |s|
  {
    s[..offset] + BlackPixels(|s| - offset)
  }

  lemma BlackenShows(font: Font, k: Geometry, before: Pixels, cells: Cells, r: nat)
    requires Shows(font, k, before, cells, Hidden) && r <= k.rows
    ensures Line(k.pitch, 19 * r) <= |before|
    ensures Shows(font, k, Blackened(before, Line(k.pitch, 19 * r)), ClearRows(cells, r, k.cols), Hidden)
  {
    RowsInOrder(k, r, k.rows);
    var s := Blackened(before, Line(k.pitch, 19 * r));
    var after := ClearRows(cells, r, k.cols);
    forall r': nat, c: nat, x: nat, y: nat | InGrid(k, r', c, x, y)
      ensures SpotInRange(k, r', c, x, y, |s|)
      ensures s[Spot(k, r', c, x, y)] == Drawn(font, after, Hidden, r', c, x, y)
    {
      SpotInRow(k, r', c, x, y);
      if r' < r { RowsInOrder(k, r' + 1, r); } else { RowsInOrder(k, r, r'); }
    }
  }

  /** Whatever was in the buffer: once its first row is erased and the rest blackened, it shows the
      empty grid. */
  lemma ErasedShows(font: Font, k: Geometry, a: Pixels, b: Pixels)
    requires Filled(font, k, a, b, 0, 0, k.cols, Blank)
    ensures Line(k.pitch, 19) <= |b|
    ensures Shows(font, k, Blackened(b, Line(k.pitch, 19)), seq(k.rows, _ => Blanks(k.cols)), Hidden)
  {
    RowsInOrder(k, 1, k.rows);
    var s := Blackened(b, Line(k.pitch, 19));
    var cells := seq(k.rows, _ => Blanks(k.cols));
    forall r: nat, c: nat, x: nat, y: nat | InGrid(k, r, c, x, y)
      ensures SpotInRange(k, r, c, x, y, |s|)
      ensures s[Spot(k, r, c, x, y)] == Drawn(font, cells, Hidden, r, c, x, y)
    {
      SpotInRow(k, r, c, x, y);
      if r > 0 { RowsInOrder(k, 1, r); }
    }
  }

  /** The part between `first` and `last` moved down by `n` places, the end of that part blackened. */
  function Shifted(s: Pixels, first: nat, last: nat, n: nat): Pixels
    requires first + n <= last <= |s|
  {
    s[..first] + s[first + n..last] + BlackPixels(n) + s[last..]
  }

  lemma ShiftedAt(s: Pixels, first: nat, last: nat, n: nat, i: nat)
    requires first + n <= last <= |s| && i < |s|
    ensures |Shifted(s, first, last, n)| == |s|
    ensures Shifted(s, first, last, n)[i]
      == if i < first || last <= i then s[i] else if i < last - n then s[i + n] else BLACK
  {
  }

  /** The lines of the region take room for at least one row. */
  lemma RegionFits(k: Geometry, top: nat, bottom: nat, n: nat)
    requires Holds(k, n) && top < bottom <= k.rows
    ensures Line(k.pitch, 19 * top) + Line(k.pitch, 19) <= Line(k.pitch, 19 * bottom) <= n
    ensures Line(k.pitch, 19 * (bottom - 1)) + Line(k.pitch, 19) == Line(k.pitch, 19 * bottom)
  {
    LineAdd(k.pitch, 19 * (bottom - 1), 19);
    assert 19 * (bottom - 1) + 19 == 19 * bottom;
    RowsInOrder(k, top, bottom - 1);
    RowsInOrder(k, bottom, k.rows);
  }

  /** The lines of the region moved up by one row and its last row blackened. */
  function Scrolled(k: Geometry, s: Pixels, top: nat, bottom: nat): Pixels
    requires Holds(k, |s|) && top < bottom <= k.rows
  {
    RegionFits(k, top, bottom, |s|);
    Shifted(s, Line(k.pitch, 19 * top), Line(k.pitch, 19 * bottom), Line(k.pitch, 19))
  }

  lemma SpotBelow(k: Geometry, r: nat, c: nat, x: nat, y: nat)
    ensures Spot(k, r + 1, c, x, y) == Spot(k, r, c, x, y) + Line(k.pitch, 19)
  {
    LineAdd(k.pitch, 19 * r + y, 19);
  }

  lemma ScrolledSpot(font: Font, k: Geometry, before: Pixels, cells: Cells, top: nat, bottom: nat,
                     r: nat, c: nat, x: nat, y: nat)
    requires Shows(font, k, before, cells, Hidden) && top < bottom <= k.rows && InGrid(k, r, c, x, y)
    ensures var s := Scrolled(k, before, top, bottom);
      && |s| == |before| && SpotInRange(k, r, c, x, y, |s|)
      && s[Spot(k, r, c, x, y)] == CellPixel(font, ScrollUp(cells, top, bottom, k.cols)[r][c], x, y)
  {
    var i := Spot(k, r, c, x, y);
    SpotInRow(k, r, c, x, y);
    RegionFits(k, top, bottom, |before|);
    ShiftedAt(before, Line(k.pitch, 19 * top), Line(k.pitch, 19 * bottom), Line(k.pitch, 19), i);
    ScrolledRow(cells, top, bottom, k.cols, r);
    if r < top {
      RowsInOrder(k, r + 1, top);
    } else if r < bottom - 1 {
      MovedSpot(font, k, before, cells, top, bottom, r, c, x, y);
    } else if r < bottom {
      RowsInOrder(k, top, r);
    } else {
      RowsInOrder(k, bottom, r);
    }
  }

  /** A row inside the region gets its pixels from the row below it. */
  lemma MovedSpot(font: Font, k: Geometry, before: Pixels, cells: Cells, top: nat, bottom: nat,
                  r: nat, c: nat, x: nat, y: nat)
    requires Shows(font, k, before, cells, Hidden) && top <= r < bottom - 1 < k.rows && InGrid(k, r, c, x, y)
    ensures var i := Spot(k, r, c, x, y);
      && Line(k.pitch, 19 * top) <= i < Line(k.pitch, 19 * (bottom - 1)) && i + Line(k.pitch, 19) < |before|
      && before[i + Line(k.pitch, 19)] == CellPixel(font, cells[r + 1][c], x, y)
  {
    SpotInRow(k, r, c, x, y);
    RowsInOrder(k, top, r);
    RowsInOrder(k, r + 1, bottom - 1);
    SpotBelow(k, r, c, x, y);
  }

  lemma ScrollShows(font: Font, k: Geometry, before: Pixels, cells: Cells, top: nat, bottom: nat)
    requires Shows(font, k, before, cells, Hidden) && top < bottom <= k.rows
    ensures Shows(font, k, Scrolled(k, before, top, bottom), ScrollUp(cells, top, bottom, k.cols), Hidden)
  {
    var s := Scrolled(k, before, top, bottom);
    RegionFits(k, top, bottom, |before|);
    assert |s| == |before|;
    forall r: nat, c: nat, x: nat, y: nat | InGrid(k, r, c, x, y)
      ensures SpotInRange(k, r, c, x, y, |s|)
      ensures s[Spot(k, r, c, x, y)] == CellPixel(font, ScrollUp(cells, top, bottom, k.cols)[r][c], x, y)
    {
      ScrolledSpot(font, k, before, cells, top, bottom, r, c, x, y);
    }
  }

  // ---------- the cursor ----------

  /** `s` is `before` with the underline of a cell inverted as far as pixel `px` of line `py`. */
  ghost predicate Inverted(k: Geometry, before: Pixels, s: Pixels, r: nat, c: nat, color: Color, px: nat, py: nat) {
    && Holds(k, |before|) && |s| == |before|
    && forall r': nat, c': nat, x: nat, y: nat {:trigger Spot(k, r', c', x, y)} :: InGrid(k, r', c', x, y) ==>
        SpotInRange(k, r', c', x, y, |s|)
        && var old' := before[Spot(k, r', c', x, y)];
          s[Spot(k, r', c', x, y)]
          == if r' == r && c' == c && 16 <= y && (y < py || (y == py && x < px)) then (if old' == BLACK then color else BLACK)
             else old'
  }

  lemma NothingInverted(k: Geometry, s: Pixels, r: nat, c: nat, color: Color)
    requires Holds(k, |s|)
    ensures Inverted(k, s, s, r, c, color, 0, 16)
  {
    forall r': nat, c': nat, x: nat, y: nat | InGrid(k, r', c', x, y)
      ensures SpotInRange(k, r', c', x, y, |s|)
    {
      SpotInRow(k, r', c', x, y);
    }
  }

  lemma InvertOne(k: Geometry, before: Pixels, s: Pixels, r: nat, c: nat, color: Color, px: nat, py: nat)
    requires Inverted(k, before, s, r, c, color, px, py) && InGrid(k, r, c, px, py) && 16 <= py
    ensures SpotInRange(k, r, c, px, py, |s|)
    ensures var i := Spot(k, r, c, px, py);
      Inverted(k, before, s[i := if s[i] == BLACK then color else BLACK], r, c, color, px + 1, py)
  {
    var i := Spot(k, r, c, px, py);
    var t := s[i := if s[i] == BLACK then color else BLACK];
    forall r': nat, c': nat, x: nat, y: nat | InGrid(k, r', c', x, y)
      ensures SpotInRange(k, r', c', x, y, |t|)
      ensures var old' := before[Spot(k, r', c', x, y)];
        t[Spot(k, r', c', x, y)]
        == if r' == r && c' == c && 16 <= y && (y < py || (y == py && x < px + 1)) then (if old' == BLACK then color else BLACK)
           else old'
    {
      if Spot(k, r', c', x, y) == i {
        SpotsDiffer(k, r, c, px, py, r', c', x, y);
      }
    }
  }

  lemma LineInverted(k: Geometry, before: Pixels, s: Pixels, r: nat, c: nat, color: Color, py: nat)
    requires Inverted(k, before, s, r, c, color, 8, py)
    ensures Inverted(k, before, s, r, c, color, 0, py + 1)
  {
    forall r': nat, c': nat, x: nat, y: nat | InGrid(k, r', c', x, y)
      ensures SpotInRange(k, r', c', x, y, |s|)
      ensures var old' := before[Spot(k, r', c', x, y)];
        s[Spot(k, r', c', x, y)]
        == if r' == r && c' == c && 16 <= y < py + 1 then (if old' == BLACK then color else BLACK) else old'
    {
    }
  }

  /** Inverting shows a cursor that was hidden. */
  lemma InvertShowsCursor(font: Font, k: Geometry, before: Pixels, s: Pixels, cells: Cells, r: nat, c: nat, color: Color)
    requires Shows(font, k, before, cells, Hidden) && Inverted(k, before, s, r, c, color, 0, 19)
    ensures Shows(font, k, s, cells, Underline(r, c, color))
  {
    forall r': nat, c': nat, x: nat, y: nat | InGrid(k, r', c', x, y)
      ensures SpotInRange(k, r', c', x, y, |s|)
      ensures s[Spot(k, r', c', x, y)] == Drawn(font, cells, Underline(r, c, color), r', c', x, y)
    {
    }
  }

  /** Inverting once more hides it, whatever the pen's colour has become. */
  lemma InvertHidesCursor(font: Font, k: Geometry, before: Pixels, s: Pixels, cells: Cells, r: nat, c: nat, color: Color, pen: Color)
    requires Shows(font, k, before, cells, Underline(r, c, color)) && color != BLACK
    requires Inverted(k, before, s, r, c, pen, 0, 19)
    ensures Shows(font, k, s, cells, Hidden)
  {
    forall r': nat, c': nat, x: nat, y: nat | InGrid(k, r', c', x, y)
      ensures SpotInRange(k, r', c', x, y, |s|)
      ensures s[Spot(k, r', c', x, y)] == Drawn(font, cells, Hidden, r', c', x, y)
    {
    }
  }
}
