/** The framebuffer text console of kernel/drivers/screen.c. */
module Screen {
  import opened Arithmetic
  import opened Bytes
  import opened Font

  type Pixel = u32

  const BLACK: Pixel := 0x000000
  const WHITE: Pixel := 0xFFFFFF
  const GREEN: Pixel := 0x00FF00
  const RED: Pixel := 0xFF0000
  const CYAN: Pixel := 0x00FFFF
  const YELLOW: Pixel := 0xFFFF00

  /** Framebuffer shape and font. `stride` is pitch / 4; glyphs are 8 by 16. */
  datatype Geometry = Geometry(width: nat, height: nat, stride: nat, font: seq<bv8>) {
    ghost predicate Valid() {
      0 < width <= stride && width % 8 == 0 && |font| >= 256 * 16
    }

    function Row(i: nat): nat
      requires Valid()
    {
      i / stride
    }

    function Col(i: nat): nat
      requires Valid()
    {
      i % stride
    }

    function Columns(): nat { width / 8 }

    function Rows(): nat { height / 16 }

    /** The index of the pixel at column x and row y. */
    function Address(x: int, y: int): int { y * stride + x }

    predicate Inked(c: byte, y: nat, x: nat)
      requires Valid() && y < 16 && x < 8
    {
      Bit(font[16 * c + y], x)
    }

    /** Pixel i lies in the 8 by 16 block whose top left corner is (x, y). */
    predicate InBlock(i: nat, x: int, y: int)
      requires Valid()
    {
      y <= Row(i) < y + 16 && x <= Col(i) < x + 8
    }

    /** Pixel i is a foreground pixel of glyph c placed at (x, y). */
    predicate InGlyph(i: nat, c: byte, x: int, y: int)
      requires Valid()
    {
      InBlock(i, x, y) && Inked(c, Row(i) - y, Col(i) - x)
    }

    /** Row and Col invert the flat index the driver computes. */
    lemma FlatIndex(r: nat, c: nat, rows: nat)
      requires Valid() && r < rows && c < stride
      ensures 0 <= Address(c, r) < stride * rows
      ensures Row(Address(c, r)) == r && Col(Address(c, r)) == c
      ensures forall i: nat :: Row(i) == r && Col(i) == c ==> i == Address(c, r)
    {
      var k := Address(c, r);
      TimesMonotone(r + 1, rows, stride);
      TimesMonotone(0, r, stride);
      DivMod(k, stride);
      QuotientUnique(stride, r, c, k / stride, k % stride);
      forall i: nat | Row(i) == r && Col(i) == c
        ensures i == k
      {
        DivMod(i, stride);
      }
    }
  }

  /** The driver's whole state: cursor cell column, cursor pixel row, pixels. */
  datatype Console = Console(cx: int, cy: int, px: seq<Pixel>)

  /** What every run of the console keeps. */
  ghost predicate Sound(g: Geometry, s: Console) {
    && g.Valid()
    && |s.px| == g.stride * g.height
    && 0 <= s.cy && s.cy % 16 == 0
    && 0 <= s.cx && s.cx * 8 <= g.width
    && (s.cy + 16 > g.height ==> s.cx == 0)
  }

  predicate OnScreen(g: Geometry, s: Console) {
    s.cy + 16 <= g.height
  }

  // ---- Pixel-wise specifications -------------------------------------------

  ghost function Draw(g: Geometry, px: seq<Pixel>, c: byte, x: int, y: int, fg: Pixel): (r: seq<Pixel>)
    requires g.Valid()
    ensures |r| == |px|
  {
    seq(|px|, i requires 0 <= i < |px| => if g.InGlyph(i, c, x, y) then fg else px[i])
  }

  ghost function Blacken(g: Geometry, px: seq<Pixel>, x: int, y: int): (r: seq<Pixel>)
    requires g.Valid()
    ensures |r| == |px|
  {
    seq(|px|, i requires 0 <= i < |px| =>
      if g.InBlock(i, x, y) && g.Row(i) < g.height && g.Col(i) < g.width then BLACK else px[i])
  }

  /** Linear fill: it takes no account of the stride. */
  ghost function Cleared(g: Geometry, s: Console, color: Pixel): Console {
    Console(0, 0, seq(|s.px|, i requires 0 <= i < |s.px| => if i < g.width * g.height then color else s.px[i]))
  }

  ghost function Rubbed(g: Geometry, s: Console): Console
    requires g.Valid()
  {
    if s.cx > 0 then Console(s.cx - 1, s.cy, Blacken(g, s.px, (s.cx - 1) * 8, s.cy)) else s
  }

  /** One character through kprint_char. */
  ghost function Put(g: Geometry, s: Console, c: byte, color: Pixel): Console
    requires g.Valid()
  {
    if c == BACKSPACE then Rubbed(g, s)
    else if c == NEWLINE then Console(0, s.cy + 16, s.px)
    else
      var w := if s.cx * 8 >= g.width then Console(0, s.cy + 16, s.px) else s;
      if OnScreen(g, w) then Console(w.cx + 1, w.cy, Draw(g, w.px, c, w.cx * 8, w.cy, color)) else w
  }

  /** A NUL-free string, one character after another. */
  ghost function Print(g: Geometry, s: Console, str: seq<byte>, color: Pixel): Console
    requires g.Valid()
    decreases |str|
  {
    if str == [] then s else Put(g, Print(g, s, str[..|str| - 1], color), str[|str| - 1], color)
  }

  lemma PutSound(g: Geometry, s: Console, c: byte, color: Pixel)
    requires Sound(g, s)
    ensures Sound(g, Put(g, s, c, color))
    ensures s.cy <= Put(g, s, c, color).cy <= s.cy + 16
  {
  }

  lemma {:induction false} PrintSound(g: Geometry, s: Console, str: seq<byte>, color: Pixel)
    requires Sound(g, s)
    ensures Sound(g, Print(g, s, str, color))
    decreases |str|
  {
    if str != [] {
      PrintSound(g, s, str[..|str| - 1], color);
      PutSound(g, Print(g, s, str[..|str| - 1], color), str[|str| - 1], color);
    }
  }

  /** Printing a concatenation is printing the parts in turn. */
  lemma {:induction false} PrintConcat(g: Geometry, s: Console, a: seq<byte>, b: seq<byte>, color: Pixel)
    requires g.Valid()
    ensures Print(g, s, a + b, color) == Print(g, Print(g, s, a, color), b, color)
    decreases |b|
  {
    if b == [] {
      assert a + b == a;
    } else {
      var b' := b[..|b| - 1];
      assert (a + b)[..|a + b| - 1] == a + b';
      PrintConcat(g, s, a, b', color);
    }
  }

  lemma PrintNext(g: Geometry, s: Console, str: seq<byte>, i: nat, color: Pixel)
    requires g.Valid() && i < |str|
    ensures Print(g, s, str[..i + 1], color) == Put(g, Print(g, s, str[..i], color), str[i], color)
  {
    assert str[..i + 1][..i] == str[..i];
  }

  /** Which pixels have the colour, in one row of the 8 by 16 block at (x, y). */
  ghost function RowBits(g: Geometry, px: seq<Pixel>, x: nat, y: nat, row: nat, color: Pixel): (bits: seq<bool>)
    ensures |bits| == 8
  {
    seq(8, i requires 0 <= i < 8 => 0 <= g.Address(x + i, y + row) < |px| && px[g.Address(x + i, y + row)] == color)
  }

  /** No pixel of the block has the colour. */
  ghost predicate Lacks(g: Geometry, px: seq<Pixel>, x: nat, y: nat, color: Pixel) {
    forall row: nat :: row < 16 ==> true !in RowBits(g, px, x, y, row, color)
  }

  /** The pixels of the block that have the colour, read row by row as binary numbers, are the bytes of the font. */
  ghost predicate Reads(g: Geometry, px: seq<Pixel>, c: byte, x: nat, y: nat, color: Pixel)
    requires g.Valid()
  {
    forall row: nat :: row < 16 ==> Binary(RowBits(g, px, x, y, row, color)) == g.font[16 * c + row] as int
  }

  lemma DrawnRow(g: Geometry, px: seq<Pixel>, c: byte, x: nat, y: nat, fg: Pixel, row: nat)
    requires g.Valid() && |px| == g.stride * g.height && x + 8 <= g.width && y + 16 <= g.height && row < 16
    requires true !in RowBits(g, px, x, y, row, fg)
    ensures Binary(RowBits(g, Draw(g, px, c, x, y, fg), x, y, row, fg)) == g.font[16 * c + row] as int
  {
    var p := Draw(g, px, c, x, y, fg);
    var bits := RowBits(g, p, x, y, row, fg);
    forall i | 0 <= i < 8
      ensures bits[i] == Bit(g.font[16 * c + row], i)
    {
      g.FlatIndex(y + row, x + i, g.height);
      assert !RowBits(g, px, x, y, row, fg)[i];
    }
    RowReads(bits, g.font[16 * c + row]);
  }

  /** Over a block without the colour, a drawn glyph can be read back as the font has it. */
  lemma DrawnReads(g: Geometry, px: seq<Pixel>, c: byte, x: nat, y: nat, fg: Pixel)
    requires g.Valid() && |px| == g.stride * g.height && x + 8 <= g.width && y + 16 <= g.height
    requires Lacks(g, px, x, y, fg)
    ensures Reads(g, Draw(g, px, c, x, y, fg), c, x, y, fg)
  {
    forall row: nat | row < 16
      ensures Binary(RowBits(g, Draw(g, px, c, x, y, fg), x, y, row, fg)) == g.font[16 * c + row] as int
    {
      DrawnRow(g, px, c, x, y, fg, row);
    }
  }

  // ---- The driver ------------------------------------------------------------

  class Display {
    const geo: Geometry
    const fb: array<Pixel>
    var cursorX: int
    var cursorY: int

    ghost function State(): Console
      reads this, fb
    {
      Console(cursorX, cursorY, fb[..])
    }

    ghost predicate Valid()
      reads this, fb
    {
      Sound(geo, State())
    }

    /** screen_init: the cursor statics start at zero, the pixels are whatever is there. */
    constructor (geo: Geometry, fb: array<Pixel>)
      requires geo.Valid() && fb.Length == geo.stride * geo.height
      ensures this.geo == geo && this.fb == fb
      ensures Valid() && State() == Console(0, 0, fb[..])
    {
      this.geo, this.fb := geo, fb;
      cursorX, cursorY := 0, 0;
    }

    method PutChar(c: byte, cx: nat, cy: nat, fg: Pixel)
      requires Valid()
      requires cx + 8 <= geo.width && cy + 16 <= geo.height
      modifies fb
      ensures fb[..] == Draw(geo, old(fb[..]), c, cx, cy, fg)
      ensures Lacks(geo, old(fb[..]), cx, cy, fg) ==> Reads(geo, fb[..], c, cx, cy, fg)
    {
      ghost var was := fb[..];
      var y := 0;
      while y < 16
        invariant 0 <= y <= 16
        invariant forall i :: 0 <= i < fb.Length ==>
          fb[i] == if geo.InGlyph(i, c, cx, cy) && geo.Row(i) < cy + y then fg else old(fb[i])
      {
        var x := 0;
        while x < 8
          invariant 0 <= x <= 8
          invariant forall i :: 0 <= i < fb.Length ==>
            fb[i] == if geo.InGlyph(i, c, cx, cy)
                        && (geo.Row(i) < cy + y || (geo.Row(i) == cy + y && geo.Col(i) < cx + x))
                     then fg else old(fb[i])
        {
          geo.FlatIndex(cy + y, cx + x, geo.height);
          if Bit(geo.font[16 * c + y], x) {
            fb[geo.Address(cx + x, cy + y)] := fg;
          }
          x := x + 1;
        }
        y := y + 1;
      }
      assert fb[..] == Draw(geo, was, c, cx, cy, fg);
      if Lacks(geo, was, cx, cy, fg) {
        DrawnReads(geo, was, c, cx, cy, fg);
      }
    }

    method Backspace()
      requires Valid()
      modifies this, fb
      ensures Valid()
      ensures State() == Rubbed(geo, old(State()))
    {
      if cursorX == 0 && cursorY == 0 {
        return;
      }
      if cursorX > 0 {
        cursorX := cursorX - 1;
      } else {
        return;
      }
      var y := 0;
      while y < 16
        invariant 0 <= y <= 16
        invariant cursorX == old(cursorX) - 1 && cursorY == old(cursorY)
        invariant forall i :: 0 <= i < fb.Length ==>
          fb[i] == if geo.InBlock(i, cursorX * 8, cursorY) && geo.Row(i) < cursorY + y then BLACK else old(fb[i])
      {
        var x := 0;
        while x < 8
          invariant 0 <= x <= 8
          invariant cursorX == old(cursorX) - 1 && cursorY == old(cursorY)
          invariant forall i :: 0 <= i < fb.Length ==>
            fb[i] == if geo.InBlock(i, cursorX * 8, cursorY)
                        && (geo.Row(i) < cursorY + y || (geo.Row(i) == cursorY + y && geo.Col(i) < cursorX * 8 + x))
                     then BLACK else old(fb[i])
        {
          var row := cursorY + y;
          var col := cursorX * 8 + x;
          geo.FlatIndex(row, col, geo.height);
          if row < geo.height && col < geo.width {
            fb[geo.Address(col, row)] := BLACK;
          }
          x := x + 1;
        }
        y := y + 1;
      }
    }

    method LineFeed()
      requires Valid()
      modifies this
      ensures Valid()
      ensures State() == Console(0, old(cursorY) + 16, old(fb[..]))
    {
      cursorX := 0;
      cursorY := cursorY + 16;
    }

    /** The wrap test and the drawing that kprint and kprint_char both end with. */
    method Emit(c: byte, color: Pixel)
      requires Valid() && c != BACKSPACE && c != NEWLINE
      modifies this, fb
      ensures Valid()
      ensures State() == Put(geo, old(State()), c, color)
    {
      if cursorX * 8 >= geo.width {
        LineFeed();
      }
      if cursorY + 16 <= geo.height {
        PutChar(c, cursorX * 8, cursorY, color);
        cursorX := cursorX + 1;
      }
    }

    method KprintChar(c: byte, color: Pixel)
      requires Valid()
      modifies this, fb
      ensures Valid()
      ensures State() == Put(geo, old(State()), c, color)
    {
      if c == BACKSPACE {
        Backspace();
        return;
      }
      if c == NEWLINE {
        LineFeed();
        return;
      }
      Emit(c, color);
    }

    method Kprint(str: seq<byte>, color: Pixel)
      requires Valid()
      modifies this, fb
      ensures Valid()
      ensures State() == Print(geo, old(State()), CStr(str, 0), color)
    {
      ghost var text := CStr(str, 0);
      CStrIs(str, 0);
      var i := 0;
      while At(str, i) != NUL
        invariant 0 <= i <= |text|
        invariant Valid() && State() == Print(geo, old(State()), text[..i], color)
        decreases |text| - i
      {
        PrintNext(geo, old(State()), text, i, color);
        if str[i] == BACKSPACE {
          Backspace();
        } else if str[i] == NEWLINE {
          LineFeed();
        } else {
          Emit(str[i], color);
        }
        i := i + 1;
      }
      assert text[..i] == text;
    }

    method Clear(color: Pixel)
      requires Valid()
      modifies this, fb
      ensures Valid()
      ensures State() == Cleared(geo, old(State()), color)
    {
      AreaFits(geo);
      var i := 0;
      while i < geo.width * geo.height
        invariant 0 <= i <= geo.width * geo.height
        invariant forall k :: 0 <= k < fb.Length ==> fb[k] == if k < i then color else old(fb[k])
      {
        fb[i] := color;
        i := i + 1;
      }
      cursorX := 0;
      cursorY := 0;
    }

    /** The rectangle may start off screen or reach past the edges: it is clipped. */
    method DrawRect(x: int, y: int, width: int, height: int, color: Pixel)
      requires Valid()
      modifies fb
      ensures Valid()
      ensures forall i :: 0 <= i < fb.Length ==>
        fb[i] == if x <= geo.Col(i) < x + width && y <= geo.Row(i) < y + height && geo.Col(i) < geo.width
                 then color else old(fb[i])
    {
      var i := y;
      while i < y + height
        invariant y <= i
        invariant forall k :: 0 <= k < fb.Length ==>
          fb[k] == if x <= geo.Col(k) < x + width && y <= geo.Row(k) < y + height && geo.Col(k) < geo.width
                      && geo.Row(k) < i
                   then color else old(fb[k])
      {
        var j := x;
        while j < x + width
          invariant x <= j
          invariant forall k :: 0 <= k < fb.Length ==>
            fb[k] == if x <= geo.Col(k) < x + width && y <= geo.Row(k) < y + height && geo.Col(k) < geo.width
                        && (geo.Row(k) < i || (geo.Row(k) == i && geo.Col(k) < j))
                     then color else old(fb[k])
        {
          if j >= 0 && j < geo.width && i >= 0 && i < geo.height {
            geo.FlatIndex(i, j, geo.height);
            fb[geo.Address(j, i)] := color;
          } else {
            RowsWithin(geo, fb.Length);
          }
          j := j + 1;
        }
        i := i + 1;
      }
    }
  }

  lemma AreaFits(g: Geometry)
    requires g.Valid()
    ensures 0 <= g.width * g.height <= g.stride * g.height
  {
    TimesMonotone(g.width, g.stride, g.height);
  }

  lemma RowsWithin(g: Geometry, len: nat)
    requires g.Valid() && len == g.stride * g.height
    ensures forall i: nat :: i < len ==> g.Row(i) < g.height
  {
    forall i: nat | i < len
      ensures g.Row(i) < g.height
    {
      var d := i / g.stride;
      assert i == g.stride * d + i % g.stride;
      if d >= g.height {
        TimesMonotone(g.height, d, g.stride);
        assert false;
      }
    }
  }

  ghost predicate Filled(g: Geometry, px: seq<Pixel>, color: Pixel)
    requires g.Valid()
  {
    forall i: nat :: i < |px| && g.Col(i) < g.width ==> px[i] == color
  }

  lemma ClearFills(g: Geometry, s: Console, color: Pixel)
    requires Sound(g, s)
    requires g.stride == g.width || g.height <= 1
    ensures Filled(g, Cleared(g, s, color).px, color)
  {
    RowsWithin(g, |s.px|);
    forall i: nat | i < |s.px| && g.Col(i) < g.width
      ensures i < g.width * g.height
    {
      if g.height == 1 {
        assert g.Row(i) == 0;
        assert i == g.stride * g.Row(i) + g.Col(i);
      }
    }
  }

  lemma LastBeyondFill(g: Geometry)
    requires g.Valid() && g.width < g.stride && 1 < g.height
    ensures g.Address(g.width - 1, g.height - 1) >= g.width * g.height
  {
    TimesMonotone(1, g.height - 1, g.stride - g.width);
    assert (g.height - 1) * (g.stride - g.width) == (g.height - 1) * g.stride - (g.height - 1) * g.width;
    assert (g.height - 1) * g.width == g.height * g.width - g.width;
  }

  lemma ClearMisses(g: Geometry) returns (s: Console)
    requires g.Valid() && g.width < g.stride && 1 < g.height
    ensures Sound(g, s) && !Filled(g, Cleared(g, s, BLACK).px, BLACK)
  {
    var n := g.stride * g.height;
    AreaFits(g);
    s := Console(0, 0, seq(n, _ => WHITE));
    g.FlatIndex(g.height - 1, g.width - 1, g.height);
    var last := g.Address(g.width - 1, g.height - 1);
    LastBeyondFill(g);
    assert Cleared(g, s, BLACK).px[last] == WHITE;
  }

  /** The linear fill of `clear` covers the visible screen exactly when rows are not padded. */
  lemma ClearFillsIff(g: Geometry)
    requires g.Valid()
    ensures (forall s, color :: Sound(g, s) ==> Filled(g, Cleared(g, s, color).px, color))
       <==> (g.stride == g.width || g.height <= 1)
  {
    if g.stride == g.width || g.height <= 1 {
      forall s, color | Sound(g, s)
        ensures Filled(g, Cleared(g, s, color).px, color)
      {
        ClearFills(g, s, color);
      }
    } else {
      var s := ClearMisses(g);
    }
  }
}
