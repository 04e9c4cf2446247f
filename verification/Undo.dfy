/** Text printed on one row, and what backspacing over it gives back. */
module Undo {
  import opened Bytes
  import opened Screen
  import opened TextGrid

  /** Neither of the two characters the console acts on. */
  ghost predicate Plain(str: seq<byte>) {
    forall k :: 0 <= k < |str| ==> str[k] != BACKSPACE && str[k] != NEWLINE
  }

  /** Pixel i lies in one of the n cells from column cx on, in the row at cy. */
  predicate InSpan(g: Geometry, i: nat, cx: int, cy: int, n: int)
    requires g.Valid()
  {
    cy <= g.Row(i) < cy + 16 && cx <= g.Col(i) / 8 < cx + n
  }

  /** The whole string drawn at once. */
  ghost function DrawSpan(g: Geometry, px: seq<Pixel>, cx: nat, cy: nat, str: seq<byte>, color: Pixel): (r: seq<Pixel>)
    requires g.Valid()
    ensures |r| == |px|
  {
    seq(|px|, i requires 0 <= i < |px| =>
      if InSpan(g, i, cx, cy, |str|) && g.Inked(str[g.Col(i) / 8 - cx], g.Row(i) - cy, g.Col(i) % 8)
      then color else px[i])
  }

  ghost function BlackenSpan(g: Geometry, px: seq<Pixel>, cx: nat, cy: nat, n: nat): (r: seq<Pixel>)
    requires g.Valid()
    ensures |r| == |px|
  {
    seq(|px|, i requires 0 <= i < |px| => if InSpan(g, i, cx, cy, n) then BLACK else px[i])
  }

  ghost predicate SpanBlack(g: Geometry, px: seq<Pixel>, cx: nat, cy: nat, n: nat)
    requires g.Valid()
  {
    forall i: nat :: i < |px| && InSpan(g, i, cx, cy, n) ==> px[i] == BLACK
  }

  ghost function Rubouts(g: Geometry, s: Console, n: nat): Console
    requires g.Valid()
    decreases n
  {
    if n == 0 then s else Rubouts(g, Rubbed(g, s), n - 1)
  }

  /** Text that fits on its row is drawn where it stands. */
  lemma {:induction false} PrintFits(g: Geometry, s: Console, str: seq<byte>, color: Pixel)
    requires Sound(g, s) && OnScreen(g, s)
    requires Plain(str) && s.cx + |str| <= g.Columns()
    ensures Print(g, s, str, color) == Console(s.cx + |str|, s.cy, DrawSpan(g, s.px, s.cx, s.cy, str, color))
    decreases |str|
  {
    if str == [] {
      assert DrawSpan(g, s.px, s.cx, s.cy, str, color) == s.px;
    } else {
      var n := |str| - 1;
      PrintFits(g, s, str[..n], color);
      var p := DrawSpan(g, s.px, s.cx, s.cy, str[..n], color);
      assert Draw(g, p, str[n], (s.cx + n) * 8, s.cy, color) == DrawSpan(g, s.px, s.cx, s.cy, str, color);
    }
  }

  /** Drawing two texts side by side is drawing the one they make up. */
  lemma DrawSpanConcat(g: Geometry, px: seq<Pixel>, cx: nat, cy: nat, a: seq<byte>, b: seq<byte>, color: Pixel)
    requires g.Valid()
    ensures DrawSpan(g, DrawSpan(g, px, cx, cy, a, color), cx + |a|, cy, b, color)
         == DrawSpan(g, px, cx, cy, a + b, color)
  {
    var both := DrawSpan(g, px, cx, cy, a + b, color);
    forall i: nat | i < |px|
      ensures DrawSpan(g, DrawSpan(g, px, cx, cy, a, color), cx + |a|, cy, b, color)[i] == both[i]
    {
    }
  }

  lemma {:induction false} RuboutsBlacken(g: Geometry, s: Console, n: nat)
    requires Sound(g, s) && (n > 0 ==> OnScreen(g, s)) && n <= s.cx
    ensures Rubouts(g, s, n) == Console(s.cx - n, s.cy, BlackenSpan(g, s.px, s.cx - n, s.cy, n))
    decreases n
  {
    if n == 0 {
      assert BlackenSpan(g, s.px, s.cx, s.cy, 0) == s.px;
    } else {
      var r := Rubbed(g, s);
      RuboutsBlacken(g, r, n - 1);
      RowsWithin(g, |s.px|);
      assert BlackenSpan(g, r.px, s.cx - n, s.cy, n - 1) == BlackenSpan(g, s.px, s.cx - n, s.cy, n);
    }
  }

  lemma {:induction false} RuboutsNext(g: Geometry, s: Console, n: nat)
    requires g.Valid()
    ensures Rubouts(g, s, n + 1) == Rubbed(g, Rubouts(g, s, n))
    decreases n
  {
    if n > 0 {
      RuboutsNext(g, Rubbed(g, s), n - 1);
    }
  }

  /** Backspacing never changes the row. */
  lemma {:induction false} RuboutsKeepRow(g: Geometry, s: Console, n: nat)
    requires g.Valid()
    ensures Rubouts(g, s, n).cy == s.cy
    decreases n
  {
    if n > 0 {
      RuboutsKeepRow(g, Rubbed(g, s), n - 1);
    }
  }

  lemma {:induction false} PrintLower(g: Geometry, s: Console, str: seq<byte>, color: Pixel)
    requires Sound(g, s)
    ensures Print(g, s, str, color).cy >= s.cy
    decreases |str|
  {
    if str != [] {
      var n := |str| - 1;
      PrintLower(g, s, str[..n], color);
      PrintSound(g, s, str[..n], color);
      PutSound(g, Print(g, s, str[..n], color), str[n], color);
    }
  }

  /** The first character that does not fit goes to the next row. */
  lemma FirstOverflows(g: Geometry, s: Console, str: seq<byte>, n: nat, color: Pixel)
    requires Sound(g, s) && OnScreen(g, s) && Plain(str)
    requires n < |str| && s.cx + n == g.Columns()
    ensures Print(g, s, str[..n + 1], color).cy > s.cy
  {
    PrintFits(g, s, str[..n], color);
    PrintNext(g, s, str, n, color);
  }

  /** Text that does not fit leaves the cursor on a lower row. */
  lemma PrintOverflows(g: Geometry, s: Console, str: seq<byte>, color: Pixel)
    requires Sound(g, s) && OnScreen(g, s)
    requires Plain(str) && s.cx + |str| > g.Columns()
    ensures Print(g, s, str, color).cy > s.cy
  {
    var n := g.Columns() - s.cx;
    FirstOverflows(g, s, str, n, color);
    PrintSound(g, s, str[..n + 1], color);
    PrintLower(g, Print(g, s, str[..n + 1], color), str[n + 1..], color);
    PrintConcat(g, s, str[..n + 1], str[n + 1..], color);
    assert str[..n + 1] + str[n + 1..] == str;
  }

  /** Below the screen plain text does nothing. */
  lemma {:induction false} PrintNowhere(g: Geometry, s: Console, str: seq<byte>, color: Pixel)
    requires Sound(g, s) && !OnScreen(g, s) && Plain(str)
    ensures Print(g, s, str, color) == s
    decreases |str|
  {
    if str != [] {
      PrintNowhere(g, s, str[..|str| - 1], color);
    }
  }

  lemma UndoFits(g: Geometry, s: Console, str: seq<byte>, color: Pixel)
    requires Sound(g, s) && OnScreen(g, s)
    requires Plain(str) && s.cx + |str| <= g.Columns()
    ensures Rubouts(g, Print(g, s, str, color), |str|) == s <==> SpanBlack(g, s.px, s.cx, s.cy, |str|)
  {
    PrintFits(g, s, str, color);
    PrintSound(g, s, str, color);
    var p := Print(g, s, str, color);
    RuboutsBlacken(g, p, |str|);
    var b := BlackenSpan(g, p.px, s.cx, s.cy, |str|);
    if SpanBlack(g, s.px, s.cx, s.cy, |str|) {
      assert b == s.px;
    }
    forall i: nat | i < |s.px| && InSpan(g, i, s.cx, s.cy, |str|)
      ensures b[i] == BLACK
    {
    }
  }

  /**
   * Printing k plain characters and backspacing k times gives back the cursor and every pixel
   * exactly when the text was not shown at all, or fits on the row and its cells were black.
   */
  lemma UndoIff(g: Geometry, s: Console, str: seq<byte>, color: Pixel)
    requires Sound(g, s) && Plain(str)
    ensures Rubouts(g, Print(g, s, str, color), |str|) == s <==>
      !OnScreen(g, s) || (s.cx + |str| <= g.Columns() && SpanBlack(g, s.px, s.cx, s.cy, |str|))
  {
    if !OnScreen(g, s) {
      PrintNowhere(g, s, str, color);
      RuboutsBelow(g, s, |str|);
    } else if s.cx + |str| <= g.Columns() {
      UndoFits(g, s, str, color);
    } else {
      PrintOverflows(g, s, str, color);
      RuboutsKeepRow(g, Print(g, s, str, color), |str|);
    }
  }

  lemma {:induction false} RuboutsBelow(g: Geometry, s: Console, n: nat)
    requires Sound(g, s) && !OnScreen(g, s)
    ensures Rubouts(g, s, n) == s
    decreases n
  {
    if n > 0 {
      RuboutsBelow(g, s, n - 1);
    }
  }

  // ---- Reached states ---------------------------------------------------------------

  /** The state follows from some black clear by console operations, clears among them being black. */
  ghost predicate Reached(g: Geometry, s: Console)
    requires g.Valid()
  {
    exists s0: Console, ops: seq<Op> ::
      && Sound(g, s0) && BlackWipes(ops)
      && s == Run(g, s0, [Wipe(BLACK)] + ops)
  }

  ghost predicate BlackWipes(ops: seq<Op>) {
    forall op :: op in ops && op.Wipe? ==> op.color == BLACK
  }

  lemma {:induction false} RunConcat(g: Geometry, s: Console, a: seq<Op>, b: seq<Op>)
    requires g.Valid()
    ensures Run(g, s, a + b) == Run(g, Run(g, s, a), b)
    decreases |a|
  {
    if a == [] {
      assert a + b == b;
    } else {
      assert (a + b)[1..] == a[1..] + b;
      RunConcat(g, Do(g, s, a[0]), a[1..], b);
    }
  }

  /** Operations keep a state reached. */
  lemma ReachedRun(g: Geometry, s: Console, ops: seq<Op>)
    requires g.Valid() && Reached(g, s) && BlackWipes(ops)
    ensures Reached(g, Run(g, s, ops))
  {
    var s0, first :| Sound(g, s0) && BlackWipes(first) && s == Run(g, s0, [Wipe(BLACK)] + first);
    RunConcat(g, s0, [Wipe(BLACK)] + first, ops);
    assert [Wipe(BLACK)] + first + ops == [Wipe(BLACK)] + (first + ops);
  }

  lemma ReachedPrint(g: Geometry, s: Console, str: seq<byte>, color: Pixel)
    requires g.Valid() && Reached(g, s)
    ensures Reached(g, Print(g, s, str, color))
  {
    PrintIsRun(g, s, str, color);
    ReachedRun(g, s, Chars(str, color));
  }

  lemma ReachedClear(g: Geometry, s: Console)
    requires Sound(g, s)
    ensures Reached(g, Cleared(g, s, BLACK))
  {
    assert Run(g, s, [Wipe(BLACK)] + []) == Cleared(g, s, BLACK);
  }

  /** In every reached state the cells after the cursor are black. */
  lemma ReachedSpanBlack(g: Geometry, s: Console, n: nat)
    requires g.Valid() && (g.stride == g.width || g.height <= 1) && Reached(g, s)
    ensures Sound(g, s) && (s.cx + n <= g.Columns() ==> SpanBlack(g, s.px, s.cx, s.cy, n))
  {
    var s0, ops :| Sound(g, s0) && BlackWipes(ops) && s == Run(g, s0, [Wipe(BLACK)] + ops);
    RunFromClear(g, s0, BLACK, ops);
    RunDark(g, Bare(BLACK), ops);
    var t := RunGrid(g, Bare(BLACK), ops);
    if s.cx + n <= g.Columns() {
      forall i: nat | i < |s.px| && InSpan(g, i, s.cx, s.cy, n)
        ensures s.px[i] == BLACK
      {
        assert s.px[i] == Paint(g, t, i);
        assert t.At(g.Row(i) / 16, g.Col(i) / 8).ink.None?;
      }
    }
  }

  /** From every reached state backspacing undoes printing exactly when the text fits or is not shown. */
  lemma UndoReached(g: Geometry, s: Console, str: seq<byte>, color: Pixel)
    requires g.Valid() && (g.stride == g.width || g.height <= 1) && Reached(g, s) && Plain(str)
    ensures Rubouts(g, Print(g, s, str, color), |str|) == s <==> !OnScreen(g, s) || s.cx + |str| <= g.Columns()
  {
    ReachedSpanBlack(g, s, |str|);
    UndoIff(g, s, str, color);
  }
}
