/** The console refines a grid of character cells. */
module TextGrid {
  import opened Bytes
  import opened Screen

  datatype Glyph = Glyph(ch: byte, color: Pixel)

  /** A cell is a sheet of paper with at most one character on it. */
  datatype Cell = Cell(paper: Pixel, ink: Option<Glyph>)

  /** Cells not in the map are still bare backdrop. */
  datatype Grid = Grid(backdrop: Pixel, cells: map<(int, int), Cell>, row: int, col: int) {
    function At(r: int, c: int): Cell {
      if (r, c) in cells then cells[(r, c)] else Cell(backdrop, None)
    }

    function With(r: int, c: int, cell: Cell): Grid {
      this.(cells := cells[(r, c) := cell])
    }
  }

  function Bare(color: Pixel): Grid {
    Grid(color, map[], 0, 0)
  }

  /** Take the character before the cursor off; nothing happens at the left edge. */
  function Rub(t: Grid): Grid {
    if t.col > 0 then t.With(t.row, t.col - 1, Cell(BLACK, None)).(col := t.col - 1) else t
  }

  function Type(g: Geometry, t: Grid, c: byte, color: Pixel): Grid {
    if c == BACKSPACE then Rub(t)
    else if c == NEWLINE then t.(row := t.row + 1, col := 0)
    else
      var u := if t.col >= g.Columns() then t.(row := t.row + 1, col := 0) else t;
      if u.row < g.Rows()
      then u.With(u.row, u.col, u.At(u.row, u.col).(ink := Some(Glyph(c, color)))).(col := u.col + 1)
      else u
  }

  /** The colour of pixel i when the grid is rendered from nothing. */
  ghost function Paint(g: Geometry, t: Grid, i: nat): Pixel
    requires g.Valid()
  {
    var cell := t.At(g.Row(i) / 16, g.Col(i) / 8);
    if cell.ink.Some? && g.Inked(cell.ink.value.ch, g.Row(i) % 16, g.Col(i) % 8)
    then cell.ink.value.color else cell.paper
  }

  /** No ink at or after the cursor in reading order. */
  ghost predicate TailClean(t: Grid) {
    forall r, c :: r > t.row || (r == t.row && c >= t.col) ==> t.At(r, c).ink.None?
  }

  /** The console displays the grid. */
  ghost predicate Shows(g: Geometry, s: Console, t: Grid) {
    && Sound(g, s)
    && s.cx == t.col && s.cy == 16 * t.row
    && TailClean(t)
    && forall i: nat :: i < |s.px| && g.Col(i) < g.width ==> s.px[i] == Paint(g, t, i)
  }

  datatype Op = Char(c: byte, color: Pixel) | Rubout | Wipe(color: Pixel)

  ghost function Do(g: Geometry, s: Console, op: Op): Console
    requires g.Valid()
  {
    match op
    case Char(c, color) => Put(g, s, c, color)
    case Rubout => Rubbed(g, s)
    case Wipe(color) => Cleared(g, s, color)
  }

  function DoGrid(g: Geometry, t: Grid, op: Op): Grid {
    match op
    case Char(c, color) => Type(g, t, c, color)
    case Rubout => Rub(t)
    case Wipe(color) => Bare(color)
  }

  ghost function Run(g: Geometry, s: Console, ops: seq<Op>): Console
    requires g.Valid()
    decreases |ops|
  {
    if ops == [] then s else Run(g, Do(g, s, ops[0]), ops[1..])
  }

  function RunGrid(g: Geometry, t: Grid, ops: seq<Op>): Grid
    decreases |ops|
  {
    if ops == [] then t else RunGrid(g, DoGrid(g, t, ops[0]), ops[1..])
  }

  /** The cursor may move on to the start of the next row, or back over cells left without ink. */
  lemma TailAfter(t: Grid, t': Grid)
    requires TailClean(t)
    requires forall r, c :: (r > t'.row || (r == t'.row && c >= t'.col)) ==>
               t'.At(r, c).ink.None? || t'.At(r, c) == t.At(r, c)
    requires t'.row > t.row || (t'.row == t.row && t'.col >= t.col)
    ensures TailClean(t')
  {
    forall r, c | r > t'.row || (r == t'.row && c >= t'.col)
      ensures t'.At(r, c).ink.None?
    {
      assert t.At(r, c).ink.None?;
    }
  }

  lemma LineFeedShows(g: Geometry, s: Console, t: Grid)
    requires Shows(g, s, t)
    ensures Shows(g, Console(0, s.cy + 16, s.px), t.(row := t.row + 1, col := 0))
  {
    var t' := t.(row := t.row + 1, col := 0);
    TailAfter(t, t');
    forall i: nat | i < |s.px| && g.Col(i) < g.width
      ensures s.px[i] == Paint(g, t', i)
    {
      assert s.px[i] == Paint(g, t, i);
    }
  }

  lemma RubShows(g: Geometry, s: Console, t: Grid)
    requires Shows(g, s, t)
    ensures Shows(g, Rubbed(g, s), Rub(t))
  {
    if t.col > 0 {
      var s', t' := Rubbed(g, s), Rub(t);
      RowsWithin(g, |s.px|);
      forall i: nat | i < |s.px| && g.Col(i) < g.width
        ensures s'.px[i] == Paint(g, t', i)
      {
        assert s.px[i] == Paint(g, t, i);
      }
      forall r, c | r > t'.row || (r == t'.row && c >= t'.col)
        ensures t'.At(r, c).ink.None?
      {
        assert t.At(r, c).ink.None? || (r, c) == (t'.row, t'.col);
      }
    }
  }

  lemma CellOf(y: nat, x: nat, row: nat, col: nat)
    ensures (16 * row <= y < 16 * row + 16 && 8 * col <= x < 8 * col + 8) <==> (y / 16 == row && x / 8 == col)
    ensures y / 16 == row && x / 8 == col ==> y % 16 == y - 16 * row && x % 8 == x - 8 * col
  {
  }

  /** Pixel by pixel, drawing on a cell without ink puts the glyph over the paper that is there. */
  lemma InkPixel(g: Geometry, px: seq<Pixel>, t: Grid, t': Grid, c: byte, color: Pixel, i: nat)
    requires g.Valid() && i < |px| && px[i] == Paint(g, t, i)
    requires 0 <= t.row && 0 <= t.col
    requires t.At(t.row, t.col).ink.None?
    requires t' == t.With(t.row, t.col, t.At(t.row, t.col).(ink := Some(Glyph(c, color)))).(col := t.col + 1)
    ensures Draw(g, px, c, t.col * 8, 16 * t.row, color)[i] == Paint(g, t', i)
  {
    CellOf(g.Row(i), g.Col(i), t.row, t.col);
  }

  lemma InkShows(g: Geometry, s: Console, t: Grid, c: byte, color: Pixel)
    requires Shows(g, s, t) && OnScreen(g, s) && s.cx * 8 < g.width
    ensures Shows(g, Console(s.cx + 1, s.cy, Draw(g, s.px, c, s.cx * 8, s.cy, color)),
                  t.With(t.row, t.col, t.At(t.row, t.col).(ink := Some(Glyph(c, color)))).(col := t.col + 1))
  {
    assert t.At(t.row, t.col).ink.None?;
    var t' := t.With(t.row, t.col, t.At(t.row, t.col).(ink := Some(Glyph(c, color)))).(col := t.col + 1);
    TailAfter(t, t');
    forall i: nat | i < |s.px| && g.Col(i) < g.width
      ensures Draw(g, s.px, c, s.cx * 8, s.cy, color)[i] == Paint(g, t', i)
    {
      assert s.px[i] == Paint(g, t, i);
      InkPixel(g, s.px, t, t', c, color, i);
    }
  }

  lemma CharShows(g: Geometry, s: Console, t: Grid, c: byte, color: Pixel)
    requires Shows(g, s, t) && c != BACKSPACE && c != NEWLINE
    ensures Shows(g, Put(g, s, c, color), Type(g, t, c, color))
  {
    var w, u := s, t;
    if s.cx * 8 >= g.width {
      LineFeedShows(g, s, t);
      w, u := Console(0, s.cy + 16, s.px), t.(row := t.row + 1, col := 0);
    }
    if OnScreen(g, w) {
      InkShows(g, w, u, c, color);
    }
  }

  lemma WipeShows(g: Geometry, s: Console, color: Pixel)
    requires Sound(g, s) && (g.stride == g.width || g.height <= 1)
    ensures Shows(g, Cleared(g, s, color), Bare(color))
  {
    ClearFills(g, s, color);
  }

  lemma StepShows(g: Geometry, s: Console, t: Grid, op: Op)
    requires Shows(g, s, t)
    requires op.Wipe? ==> g.stride == g.width || g.height <= 1
    ensures Shows(g, Do(g, s, op), DoGrid(g, t, op))
  {
    match op
    case Char(c, color) =>
      if c == BACKSPACE {
        RubShows(g, s, t);
      } else if c == NEWLINE {
        LineFeedShows(g, s, t);
      } else {
        CharShows(g, s, t, c, color);
      }
    case Rubout => RubShows(g, s, t);
    case Wipe(color) => WipeShows(g, s, color);
  }

  /** Pixel refinement: after any run the pixels render the grid driven by the same operations. */
  lemma {:induction false} RunShows(g: Geometry, s: Console, t: Grid, ops: seq<Op>)
    requires Shows(g, s, t)
    requires (forall op :: op in ops && op.Wipe? ==> g.stride == g.width || g.height <= 1)
    ensures Shows(g, Run(g, s, ops), RunGrid(g, t, ops))
    decreases |ops|
  {
    if ops != [] {
      StepShows(g, s, t, ops[0]);
      RunShows(g, Do(g, s, ops[0]), DoGrid(g, t, ops[0]), ops[1..]);
    }
  }

  /** Whatever was on the screen, once it has been cleared the pixels render the grid. */
  lemma RunFromClear(g: Geometry, s: Console, color: Pixel, ops: seq<Op>)
    requires Sound(g, s) && (g.stride == g.width || g.height <= 1)
    ensures Shows(g, Run(g, s, [Wipe(color)] + ops), RunGrid(g, Bare(color), ops))
  {
    WipeShows(g, s, color);
    RunShows(g, Cleared(g, s, color), Bare(color), ops);
    assert ([Wipe(color)] + ops)[1..] == ops;
  }

  /** Every sheet of paper is black. */
  ghost predicate Dark(t: Grid) {
    forall r, c :: t.At(r, c).paper == BLACK
  }

  lemma StepDark(g: Geometry, t: Grid, op: Op)
    requires Dark(t) && (op.Wipe? ==> op.color == BLACK)
    ensures Dark(DoGrid(g, t, op))
  {
    var t' := DoGrid(g, t, op);
    forall r, c
      ensures t'.At(r, c).paper == BLACK
    {
      assert t.At(r, c).paper == BLACK;
    }
  }

  /** With black clears only, the screen is characters over black. */
  lemma {:induction false} RunDark(g: Geometry, t: Grid, ops: seq<Op>)
    requires Dark(t)
    requires forall op :: op in ops && op.Wipe? ==> op.color == BLACK
    ensures Dark(RunGrid(g, t, ops))
    decreases |ops|
  {
    if ops != [] {
      StepDark(g, t, ops[0]);
      RunDark(g, DoGrid(g, t, ops[0]), ops[1..]);
    }
  }

  /** The invariant of every run: aligned row, column on screen, column zero below the screen. */
  lemma {:induction false} RunSound(g: Geometry, s: Console, ops: seq<Op>)
    requires Sound(g, s)
    ensures Sound(g, Run(g, s, ops))
    ensures Run(g, s, ops).cy <= s.cy + 16 * |ops|
    decreases |ops|
  {
    if ops != [] {
      RunSound(g, Do(g, s, ops[0]), ops[1..]);
    }
  }

  /** Below the last row nothing changes a pixel until the screen is cleared. */
  lemma {:induction false} OffScreenFrozen(g: Geometry, s: Console, ops: seq<Op>)
    requires Sound(g, s) && !OnScreen(g, s)
    requires forall op :: op in ops ==> !op.Wipe?
    ensures Run(g, s, ops).px == s.px && !OnScreen(g, Run(g, s, ops))
    decreases |ops|
  {
    if ops != [] {
      assert ops[0] in ops;
      OffScreenFrozen(g, Do(g, s, ops[0]), ops[1..]);
    }
  }

  function Chars(str: seq<byte>, color: Pixel): (ops: seq<Op>)
    ensures |ops| == |str|
  {
    seq(|str|, k requires 0 <= k < |str| => Char(str[k], color))
  }

  lemma {:induction false} RunSnoc(g: Geometry, s: Console, ops: seq<Op>, op: Op)
    requires g.Valid()
    ensures Run(g, s, ops + [op]) == Do(g, Run(g, s, ops), op)
    decreases |ops|
  {
    if ops == [] {
      assert ops + [op] == [op] && [op][1..] == [];
      assert Run(g, s, [op]) == Do(g, s, op);
    } else {
      assert (ops + [op])[1..] == ops[1..] + [op];
      RunSnoc(g, Do(g, s, ops[0]), ops[1..], op);
    }
  }

  /** kprint of a string is one run of kprint_char operations, so every run result holds of it too. */
  lemma {:induction false} PrintIsRun(g: Geometry, s: Console, str: seq<byte>, color: Pixel)
    requires g.Valid()
    ensures Print(g, s, str, color) == Run(g, s, Chars(str, color))
    decreases |str|
  {
    if str != [] {
      var n := |str| - 1;
      assert Chars(str, color) == Chars(str[..n], color) + [Char(str[n], color)];
      PrintIsRun(g, s, str[..n], color);
      RunSnoc(g, s, Chars(str[..n], color), Char(str[n], color));
    }
  }
}
