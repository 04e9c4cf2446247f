/** What printing puts on a cleared screen: the text, broken into lines. */
module TextLayout {
  import opened Bytes
  import opened Screen
  import opened TextGrid

  /** A line cut into rows of n characters; only the last row may be shorter. */
  function Chunks(line: seq<byte>, n: nat): (rows: seq<seq<byte>>)
    requires n > 0
    ensures |rows| >= 1
    decreases |line|
  {
    if |line| <= n then [line] else [line[..n]] + Chunks(line[n..], n)
  }

  function LineEnd(text: seq<byte>): (k: nat)
    ensures k <= |text|
  {
    if text == [] || text[0] == NEWLINE then 0 else 1 + LineEnd(text[1..])
  }

  /** The rows a text takes up: its lines, each cut to the width. */
  function Layout(text: seq<byte>, n: nat): (rows: seq<seq<byte>>)
    requires n > 0
    ensures |rows| >= 1
    decreases |text|
  {
    var k := LineEnd(text);
    if k == |text| then Chunks(text, n) else Chunks(text[..k], n) + Layout(text[k + 1..], n)
  }

  function Last(rows: seq<seq<byte>>): seq<byte>
    requires |rows| >= 1
  {
    rows[|rows| - 1]
  }

  /** One more character on the last row, or on a new one if that is full. */
  function Extend(rows: seq<seq<byte>>, c: byte, n: nat): (r: seq<seq<byte>>)
    requires |rows| >= 1
    ensures |r| >= 1
  {
    if |Last(rows)| >= n then rows + [[c]] else rows[..|rows| - 1] + [Last(rows) + [c]]
  }

  lemma ExtendBehind(front: seq<seq<byte>>, rows: seq<seq<byte>>, c: byte, n: nat)
    requires |rows| >= 1
    ensures Extend(front + rows, c, n) == front + Extend(rows, c, n)
  {
    assert Last(front + rows) == Last(rows);
    assert (front + rows)[..|front + rows| - 1] == front + rows[..|rows| - 1];
  }

  lemma {:induction false} ChunksSnoc(line: seq<byte>, c: byte, n: nat)
    requires n > 0
    ensures Chunks(line + [c], n) == Extend(Chunks(line, n), c, n)
    decreases |line|
  {
    if |line| < n {
    } else if |line| == n {
      assert (line + [c])[..n] == line && (line + [c])[n..] == [c];
    } else {
      assert (line + [c])[..n] == line[..n] && (line + [c])[n..] == line[n..] + [c];
      ChunksSnoc(line[n..], c, n);
      ExtendBehind([line[..n]], Chunks(line[n..], n), c, n);
    }
  }

  lemma {:induction false} LineEndSnoc(text: seq<byte>, c: byte)
    ensures LineEnd(text) < |text| ==> LineEnd(text + [c]) == LineEnd(text)
    ensures LineEnd(text) == |text| ==> LineEnd(text + [c]) == if c == NEWLINE then |text| else |text| + 1
    decreases |text|
  {
    if text != [] && text[0] != NEWLINE {
      assert (text + [c])[1..] == text[1..] + [c];
      LineEndSnoc(text[1..], c);
    }
  }

  /** Before the last line nothing changes. */
  lemma LayoutSplits(text: seq<byte>, c: byte, n: nat)
    requires n > 0 && LineEnd(text) < |text|
    ensures var k := LineEnd(text);
            && Layout(text, n) == Chunks(text[..k], n) + Layout(text[k + 1..], n)
            && Layout(text + [c], n) == Chunks(text[..k], n) + Layout(text[k + 1..] + [c], n)
  {
    var k := LineEnd(text);
    LineEndSnoc(text, c);
    assert (text + [c])[..k] == text[..k] && (text + [c])[k + 1..] == text[k + 1..] + [c];
  }

  /** On the last line a newline opens a row and any other character joins the line. */
  lemma LayoutLastLine(text: seq<byte>, c: byte, n: nat)
    requires n > 0 && LineEnd(text) == |text|
    ensures Layout(text, n) == Chunks(text, n)
    ensures Layout(text + [c], n) == if c == NEWLINE then Chunks(text, n) + [[]] else Chunks(text + [c], n)
  {
    LineEndSnoc(text, c);
    if c == NEWLINE {
      assert (text + [c])[..|text|] == text && (text + [c])[|text| + 1..] == [];
    }
  }

  /** A newline opens a row; any other character extends the last one. */
  function Grown(rows: seq<seq<byte>>, c: byte, n: nat): seq<seq<byte>>
    requires |rows| >= 1
  {
    if c == NEWLINE then rows + [[]] else Extend(rows, c, n)
  }

  lemma GrownBehind(front: seq<seq<byte>>, rows: seq<seq<byte>>, c: byte, n: nat)
    requires |rows| >= 1
    ensures Grown(front + rows, c, n) == front + Grown(rows, c, n)
  {
    if c == NEWLINE {
      assert front + (rows + [[]]) == front + rows + [[]];
    } else {
      ExtendBehind(front, rows, c, n);
    }
  }

  lemma LastLineSnoc(text: seq<byte>, c: byte, n: nat)
    requires n > 0 && LineEnd(text) == |text|
    ensures Layout(text + [c], n) == Grown(Layout(text, n), c, n)
  {
    LayoutLastLine(text, c, n);
    ChunksSnoc(text, c, n);
  }

  /** The layout of one more character is the layout, grown by it. */
  lemma {:induction false} LayoutSnoc(text: seq<byte>, c: byte, n: nat)
    requires n > 0
    ensures Layout(text + [c], n) == Grown(Layout(text, n), c, n)
    decreases |text|
  {
    var k := LineEnd(text);
    if k < |text| {
      LayoutSplits(text, c, n);
      LayoutSnoc(text[k + 1..], c, n);
      GrownBehind(Chunks(text[..k], n), Layout(text[k + 1..], n), c, n);
    } else {
      LastLineSnoc(text, c, n);
    }
  }

  lemma {:induction false} ChunksFit(line: seq<byte>, n: nat)
    requires n > 0
    ensures forall r :: 0 <= r < |Chunks(line, n)| ==> |Chunks(line, n)[r]| <= n
    decreases |line|
  {
    if |line| > n {
      ChunksFit(line[n..], n);
    }
  }

  /** No row is longer than the screen is wide. */
  lemma {:induction false} LayoutFits(text: seq<byte>, n: nat)
    requires n > 0
    ensures forall r :: 0 <= r < |Layout(text, n)| ==> |Layout(text, n)[r]| <= n
    decreases |text|
  {
    var k := LineEnd(text);
    ChunksFit(text, n);
    if k < |text| {
      ChunksFit(text[..k], n);
      LayoutFits(text[k + 1..], n);
    }
  }

  /** The cell at (r, c) of rows on a sheet of the backdrop colour. */
  function CellOfRows(rows: seq<seq<byte>>, r: int, c: int, backdrop: Pixel, color: Pixel): Cell {
    Cell(backdrop, if 0 <= r < |rows| && 0 <= c < |rows[r]| then Some(Glyph(rows[r][c], color)) else None)
  }

  /** The grid's visible rows are these, and the cursor is behind the last of them or below the screen. */
  ghost predicate Laid(g: Geometry, t: Grid, rows: seq<seq<byte>>, backdrop: Pixel, color: Pixel)
    requires |rows| >= 1
  {
    && (forall r, c :: 0 <= r < g.Rows() ==> t.At(r, c) == CellOfRows(rows, r, c, backdrop, color))
    && (if |rows| <= g.Rows() then t.row == |rows| - 1 && t.col == |Last(rows)| else t.row >= g.Rows() && t.col == 0)
  }

  function TypeAll(g: Geometry, t: Grid, text: seq<byte>, color: Pixel): Grid
    decreases |text|
  {
    if text == [] then t else Type(g, TypeAll(g, t, text[..|text| - 1], color), text[|text| - 1], color)
  }

  lemma NewRowLaid(g: Geometry, t: Grid, rows: seq<seq<byte>>, backdrop: Pixel, color: Pixel)
    requires |rows| >= 1 && Laid(g, t, rows, backdrop, color)
    ensures Laid(g, t.(row := t.row + 1, col := 0), rows + [[]], backdrop, color)
  {
    var t' := t.(row := t.row + 1, col := 0);
    forall r, c | 0 <= r < g.Rows()
      ensures t'.At(r, c) == CellOfRows(rows + [[]], r, c, backdrop, color)
    {
      assert t.At(r, c) == CellOfRows(rows, r, c, backdrop, color);
    }
  }

  lemma RowEndLaid(g: Geometry, t: Grid, rows: seq<seq<byte>>, ch: byte, backdrop: Pixel, color: Pixel)
    requires |rows| >= 1 && Laid(g, t, rows, backdrop, color)
    requires |rows| <= g.Rows() && |Last(rows)| < g.Columns()
    requires ch != BACKSPACE && ch != NEWLINE
    ensures Laid(g, Type(g, t, ch, color), Extend(rows, ch, g.Columns()), backdrop, color)
  {
    var t', rows' := Type(g, t, ch, color), Extend(rows, ch, g.Columns());
    forall r, c | 0 <= r < g.Rows()
      ensures t'.At(r, c) == CellOfRows(rows', r, c, backdrop, color)
    {
      assert t.At(r, c) == CellOfRows(rows, r, c, backdrop, color);
    }
  }

  lemma CharLaid(g: Geometry, t: Grid, rows: seq<seq<byte>>, ch: byte, backdrop: Pixel, color: Pixel)
    requires g.Valid() && |rows| >= 1 && Laid(g, t, rows, backdrop, color)
    requires |Last(rows)| <= g.Columns() && ch != BACKSPACE && ch != NEWLINE
    ensures Laid(g, Type(g, t, ch, color), Extend(rows, ch, g.Columns()), backdrop, color)
  {
    var n := g.Columns();
    if |rows| > g.Rows() {
      BelowLaid(g, t, rows, Extend(rows, ch, n), backdrop, color);
    } else if |Last(rows)| < n {
      RowEndLaid(g, t, rows, ch, backdrop, color);
    } else {
      NewRowLaid(g, t, rows, backdrop, color);
      var u, opened' := t.(row := t.row + 1, col := 0), rows + [[]];
      if |opened'| <= g.Rows() {
        RowEndLaid(g, u, opened', ch, backdrop, color);
        assert opened'[..|rows|] == rows && Last(opened') + [ch] == [ch];
      } else {
        BelowLaid(g, u, opened', rows + [[ch]], backdrop, color);
      }
    }
  }

  /** Rows below the screen do not matter. */
  lemma BelowLaid(g: Geometry, t: Grid, rows: seq<seq<byte>>, rows': seq<seq<byte>>, backdrop: Pixel, color: Pixel)
    requires |rows| >= 1 && Laid(g, t, rows, backdrop, color)
    requires |rows| > g.Rows() && |rows'| >= |rows|
    requires forall r :: 0 <= r < g.Rows() ==> rows'[r] == rows[r]
    ensures Laid(g, t, rows', backdrop, color)
  {
    forall r, c | 0 <= r < g.Rows()
      ensures t.At(r, c) == CellOfRows(rows', r, c, backdrop, color)
    {
      assert t.At(r, c) == CellOfRows(rows, r, c, backdrop, color);
    }
  }

  /** Typing a text on a bare grid lays it out. */
  lemma {:induction false} TypedIsLaid(g: Geometry, backdrop: Pixel, text: seq<byte>, color: Pixel)
    requires g.Valid() && BACKSPACE !in text
    ensures Laid(g, TypeAll(g, Bare(backdrop), text, color), Layout(text, g.Columns()), backdrop, color)
    decreases |text|
  {
    var n := g.Columns();
    if text != [] {
      var front, c := text[..|text| - 1], text[|text| - 1];
      var t := TypeAll(g, Bare(backdrop), front, color);
      assert text == front + [c];
      TypedIsLaid(g, backdrop, front, color);
      LayoutSnoc(front, c, n);
      LayoutFits(front, n);
      if c == NEWLINE {
        NewRowLaid(g, t, Layout(front, n), backdrop, color);
      } else {
        CharLaid(g, t, Layout(front, n), c, backdrop, color);
      }
    }
  }

  lemma {:induction false} PrintShowsTyped(g: Geometry, s: Console, t: Grid, text: seq<byte>, color: Pixel)
    requires Shows(g, s, t)
    ensures Shows(g, Print(g, s, text, color), TypeAll(g, t, text, color))
    decreases |text|
  {
    if text != [] {
      var n := |text| - 1;
      PrintShowsTyped(g, s, t, text[..n], color);
      StepShows(g, Print(g, s, text[..n], color), TypeAll(g, t, text[..n], color), Char(text[n], color));
    }
  }

  /** The colour of pixel i when rows of text stand on a plain screen. */
  ghost function PaintRows(g: Geometry, rows: seq<seq<byte>>, backdrop: Pixel, color: Pixel, i: nat): Pixel
    requires g.Valid()
  {
    var r, c := g.Row(i) / 16, g.Col(i) / 8;
    if r < g.Rows() && r < |rows| && c < |rows[r]| && g.Inked(rows[r][c], g.Row(i) % 16, g.Col(i) % 8)
    then color else backdrop
  }

  /**
   * kprint on a cleared screen: every visible pixel is that of the text, its lines cut to the
   * width of the screen and as many rows as fit.
   */
  lemma PrintShowsText(g: Geometry, s: Console, backdrop: Pixel, text: seq<byte>, color: Pixel)
    requires Sound(g, s) && (g.stride == g.width || g.height <= 1) && BACKSPACE !in text
    ensures var e := Print(g, Cleared(g, s, backdrop), text, color);
            forall i: nat :: i < |e.px| && g.Col(i) < g.width ==>
              e.px[i] == PaintRows(g, Layout(text, g.Columns()), backdrop, color, i)
  {
    var rows := Layout(text, g.Columns());
    var e, t := Print(g, Cleared(g, s, backdrop), text, color), TypeAll(g, Bare(backdrop), text, color);
    WipeShows(g, s, backdrop);
    PrintShowsTyped(g, Cleared(g, s, backdrop), Bare(backdrop), text, color);
    TypedIsLaid(g, backdrop, text, color);
    TypedInside(g, Bare(backdrop), text, color);
    forall i: nat | i < |e.px| && g.Col(i) < g.width
      ensures e.px[i] == PaintRows(g, rows, backdrop, color, i)
    {
      var r, c := g.Row(i) / 16, g.Col(i) / 8;
      assert e.px[i] == Paint(g, t, i);
      if r < g.Rows() {
        assert t.At(r, c) == CellOfRows(rows, r, c, backdrop, color);
      } else {
        assert (r, c) !in t.cells;
      }
    }
  }

  /** Typing touches no cell below the last whole row. */
  lemma {:induction false} TypedInside(g: Geometry, t: Grid, text: seq<byte>, color: Pixel)
    requires BACKSPACE !in text && (forall r, c :: (r, c) in t.cells ==> r < g.Rows())
    ensures var t' := TypeAll(g, t, text, color);
            t'.backdrop == t.backdrop && forall r, c :: (r, c) in t'.cells ==> r < g.Rows()
    decreases |text|
  {
    if text != [] {
      TypedInside(g, t, text[..|text| - 1], color);
      assert text[|text| - 1] in text;
    }
  }
}
