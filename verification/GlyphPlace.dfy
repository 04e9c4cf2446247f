/**
 * Where put_char of kernel/drivers/screen.c writes when the width is not a whole number of cells.
 * The wrap test lets a glyph start in the last, cut-off cell of a row.
 */
module GlyphPlace {
  import opened Arithmetic
  import opened Screen

  /** The cursors that pass the wrap test and the row test, so that a glyph is drawn there. */
  ghost predicate Drawn(g: Geometry, cx: nat, cy: nat) {
    cx * 8 < g.width && cy % 16 == 0 && cy + 16 <= g.height
  }

  /** The framebuffer index of pixel (x, y) of the glyph at the cursor. */
  function PixelAddress(g: Geometry, cx: nat, cy: nat, x: nat, y: nat): int {
    g.Address(cx * 8 + x, cy + y)
  }

  /** Every glyph pixel keeps to the row it belongs to. */
  ghost predicate InRows(g: Geometry)
    requires g.stride > 0
  {
    forall cx: nat, cy: nat, x: nat, y: nat :: Drawn(g, cx, cy) && x < 8 && y < 16 ==>
      PixelAddress(g, cx, cy, x, y) / g.stride == cy + y
  }

  /** Every glyph pixel is one of the visible pixels of its row. */
  ghost predicate InView(g: Geometry)
    requires g.stride > 0
  {
    forall cx: nat, cy: nat, x: nat, y: nat :: Drawn(g, cx, cy) && x < 8 && y < 16 ==>
      && PixelAddress(g, cx, cy, x, y) / g.stride == cy + y
      && PixelAddress(g, cx, cy, x, y) % g.stride < g.width
  }

  /** Every glyph pixel is inside the framebuffer. */
  ghost predicate InBuffer(g: Geometry) {
    forall cx: nat, cy: nat, x: nat, y: nat :: Drawn(g, cx, cy) && x < 8 && y < 16 ==>
      0 <= PixelAddress(g, cx, cy, x, y) < g.stride * g.height
  }

  /** The width rounded up to whole cells: what the glyphs of a full row take up. */
  function CellWidth(g: Geometry): nat {
    (g.width + 7) / 8 * 8
  }

  /** The last pixel row a glyph can reach. */
  function LastRow(g: Geometry): int {
    16 * (g.height / 16) - 1
  }

  /** The glyph in the bottom right cell, when there is one, reaches the last row and the full cell width. */
  lemma Corner(g: Geometry)
    requires 0 < g.width && 16 <= g.height
    ensures var cx, cy := (g.width - 1) / 8, g.height / 16 * 16 - 16;
            Drawn(g, cx, cy) && cx * 8 + 7 == CellWidth(g) - 1 && cy + 15 == LastRow(g)
  {
  }

  lemma Within(g: Geometry, cx: nat, cy: nat, x: nat, y: nat)
    requires Drawn(g, cx, cy) && x < 8 && y < 16
    ensures cx * 8 + x < CellWidth(g) && cy + y <= LastRow(g)
  {
  }

  lemma Place(g: Geometry, c: nat, r: nat)
    requires g.stride > 0
    ensures var a := g.Address(c, r);
            if c < g.stride then a / g.stride == r && a % g.stride == c else a / g.stride != r
  {
    var a := g.Address(c, r);
    TimesMonotone(0, r, g.stride);
    DivMod(a, g.stride);
    if c < g.stride {
      QuotientUnique(g.stride, r, c, a / g.stride, a % g.stride);
    }
  }

  /** Glyphs keep to their rows exactly when the rounded width fits the stride. */
  lemma InRowsIff(g: Geometry)
    requires 0 < g.width <= g.stride
    ensures InRows(g) <==> g.height < 16 || CellWidth(g) <= g.stride
  {
    if g.height < 16 || CellWidth(g) <= g.stride {
      forall cx: nat, cy: nat, x: nat, y: nat | Drawn(g, cx, cy) && x < 8 && y < 16
        ensures PixelAddress(g, cx, cy, x, y) / g.stride == cy + y
      {
        Within(g, cx, cy, x, y);
        Place(g, cx * 8 + x, cy + y);
      }
    } else {
      var cx, cy := (g.width - 1) / 8, g.height / 16 * 16 - 16;
      Corner(g);
      Place(g, cx * 8 + 7, cy + 15);
      assert PixelAddress(g, cx, cy, 7, 15) / g.stride != cy + 15;
    }
  }

  lemma CellsWhole(g: Geometry)
    ensures CellWidth(g) >= g.width && (CellWidth(g) == g.width <==> g.width % 8 == 0)
  {
  }

  lemma CornerSticksOut(g: Geometry)
    requires 0 < g.width <= g.stride && 16 <= g.height && g.width < CellWidth(g)
    ensures !InView(g)
  {
    var cx, cy := (g.width - 1) / 8, g.height / 16 * 16 - 16;
    Corner(g);
    Place(g, cx * 8 + 7, cy + 15);
    var a := PixelAddress(g, cx, cy, 7, 15);
    assert a / g.stride != cy + 15 || a % g.stride >= g.width;
  }

  /** Glyphs stay visible exactly when the width is a whole number of cells. */
  lemma InViewIff(g: Geometry)
    requires 0 < g.width <= g.stride
    ensures InView(g) <==> g.height < 16 || g.width % 8 == 0
  {
    CellsWhole(g);
    if g.height < 16 || g.width % 8 == 0 {
      forall cx: nat, cy: nat, x: nat, y: nat | Drawn(g, cx, cy) && x < 8 && y < 16
        ensures PixelAddress(g, cx, cy, x, y) / g.stride == cy + y
        ensures PixelAddress(g, cx, cy, x, y) % g.stride < g.width
      {
        Within(g, cx, cy, x, y);
        Place(g, cx * 8 + x, cy + y);
      }
    } else {
      CornerSticksOut(g);
    }
  }

  /** Glyphs stay inside the framebuffer exactly when the last pixel of the bottom right cell does. */
  lemma InBufferIff(g: Geometry)
    requires 0 < g.width <= g.stride
    ensures InBuffer(g) <==> g.height < 16 || g.Address(CellWidth(g), LastRow(g)) <= g.stride * g.height
  {
    if g.height < 16 || g.Address(CellWidth(g), LastRow(g)) <= g.stride * g.height {
      forall cx: nat, cy: nat, x: nat, y: nat | Drawn(g, cx, cy) && x < 8 && y < 16
        ensures 0 <= PixelAddress(g, cx, cy, x, y) < g.stride * g.height
      {
        Within(g, cx, cy, x, y);
        TimesMonotone(cy + y, LastRow(g), g.stride);
        TimesMonotone(0, cy + y, g.stride);
      }
    } else {
      var cx, cy := (g.width - 1) / 8, g.height / 16 * 16 - 16;
      Corner(g);
      assert PixelAddress(g, cx, cy, 7, 15) == g.Address(CellWidth(g), LastRow(g)) - 1;
    }
  }

  /** With unpadded rows and a height of whole cells, a cut-off last cell is enough to leave the framebuffer. */
  lemma UnpaddedIff(g: Geometry)
    requires 0 < g.width == g.stride && 0 < g.height && g.height % 16 == 0
    ensures InBuffer(g) <==> g.width % 8 == 0
  {
    InBufferIff(g);
    assert g.Address(CellWidth(g), LastRow(g)) == g.stride * g.height + CellWidth(g) - g.width by {
      assert LastRow(g) == g.height - 1;
      assert (g.height - 1) * g.stride == g.stride * g.height - g.stride;
    }
  }
}
