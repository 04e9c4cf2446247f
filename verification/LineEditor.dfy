/** readline of kernel/lib/input.c: a byte buffer and the screen kept in step. */
module LineEditor {
  import opened Bytes
  import opened Screen
  import opened TextGrid
  import opened Undo

  /** One key other than newline: pop, or append while there is room. NUL means no key yet. */
  function EditKey(line: seq<byte>, c: byte, max: nat): seq<byte> {
    if c == NUL then line
    else if c == BACKSPACE then (if line == [] then line else line[..|line| - 1])
    else if |line| < max - 1 then line + [c]
    else line
  }

  function Edit(keys: seq<byte>, max: nat): seq<byte>
    decreases |keys|
  {
    if keys == [] then [] else EditKey(Edit(keys[..|keys| - 1], max), keys[|keys| - 1], max)
  }

  /** What a key does to the screen while `line` is in the buffer. */
  ghost function EchoKey(g: Geometry, s: Console, line: seq<byte>, c: byte, max: nat): Console
    requires g.Valid()
  {
    if c == NUL then s
    else if c == BACKSPACE then (if line == [] then s else Rubbed(g, s))
    else if |line| < max - 1 then Put(g, s, c, WHITE)
    else s
  }

  ghost function Echo(g: Geometry, s: Console, keys: seq<byte>, max: nat): Console
    requires g.Valid()
    decreases |keys|
  {
    if keys == [] then s
    else
      var before := keys[..|keys| - 1];
      EchoKey(g, Echo(g, s, before, max), Edit(before, max), keys[|keys| - 1], max)
  }

  /** The console operations a key comes to. */
  function EchoOp(line: seq<byte>, c: byte, max: nat): seq<Op> {
    if c == NUL then []
    else if c == BACKSPACE then (if line == [] then [] else [Rubout])
    else if |line| < max - 1 then [Char(c, WHITE)]
    else []
  }

  function EchoOps(keys: seq<byte>, max: nat): (ops: seq<Op>)
    ensures BlackWipes(ops)
    decreases |keys|
  {
    if keys == [] then []
    else
      var before := keys[..|keys| - 1];
      EchoOps(before, max) + EchoOp(Edit(before, max), keys[|keys| - 1], max)
  }

  /** The echo is a run of the console, so every run result holds of it. */
  lemma {:induction false} EchoIsRun(g: Geometry, s: Console, keys: seq<byte>, max: nat)
    requires g.Valid()
    ensures Echo(g, s, keys, max) == Run(g, s, EchoOps(keys, max))
    decreases |keys|
  {
    if keys != [] {
      var before, c := keys[..|keys| - 1], keys[|keys| - 1];
      EchoIsRun(g, s, before, max);
      RunConcat(g, s, EchoOps(before, max), EchoOp(Edit(before, max), c, max));
    }
  }

  /** The buffer never fills its last byte, holds no NUL, and no newline gets in. */
  lemma {:induction false} EditFits(keys: seq<byte>, max: nat)
    requires max >= 1
    ensures |Edit(keys, max)| < max
    ensures NUL !in Edit(keys, max) && BACKSPACE !in Edit(keys, max)
    ensures NEWLINE !in keys ==> NEWLINE !in Edit(keys, max)
    decreases |keys|
  {
    if keys != [] {
      EditFits(keys[..|keys| - 1], max);
    }
  }

  /** Polls that find no key leave no trace in the line. */
  lemma {:induction false} EditNonNul(keys: seq<byte>, max: nat)
    ensures Edit(NonNul(keys), max) == Edit(keys, max)
    decreases |keys|
  {
    if keys != [] {
      var n := |keys| - 1;
      EditNonNul(keys[..n], max);
      if keys[n] != NUL {
        assert NonNul(keys)[..|NonNul(keys)| - 1] == NonNul(keys[..n]);
      }
    }
  }

  /** Nor on the screen. */
  lemma {:induction false} EchoNonNul(g: Geometry, s: Console, keys: seq<byte>, max: nat)
    requires g.Valid()
    ensures Echo(g, s, NonNul(keys), max) == Echo(g, s, keys, max)
    decreases |keys|
  {
    if keys != [] {
      var n := |keys| - 1;
      EchoNonNul(g, s, keys[..n], max);
      EditNonNul(keys[..n], max);
      if keys[n] != NUL {
        assert NonNul(keys)[..|NonNul(keys)| - 1] == NonNul(keys[..n]);
      }
    }
  }

  /** Index of the first newline. */
  function FirstNewline(keys: seq<byte>): (n: nat)
    requires NEWLINE in keys
    ensures n < |keys| && keys[n] == NEWLINE && NEWLINE !in keys[..n]
  {
    if keys[0] == NEWLINE then 0
    else
      assert keys == [keys[0]] + keys[1..];
      var m := FirstNewline(keys[1..]);
      assert keys[..m + 1] == [keys[0]] + keys[1..][..m];
      m + 1
  }

  /** The line a stream of keys enters: what is edited before the first newline. */
  function LineOf(keys: seq<byte>, max: nat): seq<byte>
    requires NEWLINE in keys
  {
    Edit(keys[..FirstNewline(keys)], max)
  }

  method Readline(display: Display, buffer: array<byte>, maxLen: nat, polls: seq<byte>) returns (used: nat)
    requires display.Valid() && buffer as object != display.fb
    requires 1 <= maxLen <= buffer.Length
    requires NEWLINE in polls
    modifies display, display.fb, buffer
    ensures display.Valid()
    ensures used == FirstNewline(polls) + 1
    ensures var line := LineOf(polls, maxLen);
            |line| < maxLen && buffer[..|line|] == line && buffer[|line|] == NUL
    ensures forall k :: maxLen <= k < buffer.Length ==> buffer[k] == old(buffer[k])
    ensures var g := display.geo;
            display.State() ==
            Put(g, Echo(g, old(display.State()), polls[..FirstNewline(polls)], maxLen), NEWLINE, WHITE)
  {
    ghost var g := display.geo;
    ghost var end := FirstNewline(polls);
    var i := 0;
    used := 0;
    while true
      invariant 0 <= used <= end
      invariant display.Valid()
      invariant i < maxLen && buffer[..i] == Edit(polls[..used], maxLen)
      invariant forall k :: maxLen <= k < buffer.Length ==> buffer[k] == old(buffer[k])
      invariant display.State() == Echo(g, old(display.State()), polls[..used], maxLen)
      decreases end - used
    {
      var c := polls[used];
      assert used < end ==> polls[..end][used] == c;
      assert polls[..used + 1][..used] == polls[..used];
      used := used + 1;
      if c == NUL {
        continue;
      }
      if c == NEWLINE {
        display.KprintChar(NEWLINE, WHITE);
        break;
      }
      if c == BACKSPACE {
        if i > 0 {
          i := i - 1;
          buffer[i] := NUL;
          display.Backspace();
        }
        continue;
      }
      if i < maxLen - 1 {
        buffer[i] := c;
        i := i + 1;
        display.KprintChar(c, WHITE);
      }
    }
    buffer[i] := NUL;
  }

  /** The screen shows the line on the row it was started on and is otherwise as it was. */
  ghost predicate InStep(g: Geometry, s: Console, keys: seq<byte>, max: nat)
    requires g.Valid()
  {
    0 <= s.cx && 0 <= s.cy &&
    var line := Edit(keys, max);
    Echo(g, s, keys, max) == Console(s.cx + |line|, s.cy, DrawSpan(g, s.px, s.cx, s.cy, line, WHITE))
  }

  /** Backspacing the last character of a line drawn over black uncovers the shorter line. */
  lemma RubLast(g: Geometry, s: Console, line: seq<byte>)
    requires Sound(g, s) && OnScreen(g, s) && line != [] && s.cx + |line| <= g.Columns()
    requires SpanBlack(g, s.px, s.cx, s.cy, |line|)
    ensures Rubbed(g, Console(s.cx + |line|, s.cy, DrawSpan(g, s.px, s.cx, s.cy, line, WHITE)))
         == Console(s.cx + |line| - 1, s.cy, DrawSpan(g, s.px, s.cx, s.cy, line[..|line| - 1], WHITE))
  {
    var n := |line| - 1;
    RowsWithin(g, |s.px|);
    var long, short := DrawSpan(g, s.px, s.cx, s.cy, line, WHITE), DrawSpan(g, s.px, s.cx, s.cy, line[..n], WHITE);
    assert Blacken(g, long, (s.cx + n) * 8, s.cy) == short;
  }

  /** Typing one more plain character that fits draws the longer line. */
  lemma TypeNext(g: Geometry, s: Console, line: seq<byte>, c: byte)
    requires Sound(g, s) && OnScreen(g, s) && s.cx + |line| < g.Columns()
    requires c != BACKSPACE && c != NEWLINE
    ensures Put(g, Console(s.cx + |line|, s.cy, DrawSpan(g, s.px, s.cx, s.cy, line, WHITE)), c, WHITE)
         == Console(s.cx + |line| + 1, s.cy, DrawSpan(g, s.px, s.cx, s.cy, line + [c], WHITE))
  {
    var n := |line|;
    var short, long := DrawSpan(g, s.px, s.cx, s.cy, line, WHITE), DrawSpan(g, s.px, s.cx, s.cy, line + [c], WHITE);
    assert Draw(g, short, c, (s.cx + n) * 8, s.cy, WHITE) == long;
  }

  /** When the longest line fits on the row, buffer and screen agree after any keys. */
  lemma {:induction false} InStepWhenBlack(g: Geometry, s: Console, keys: seq<byte>, max: nat)
    requires Sound(g, s) && OnScreen(g, s) && max >= 1
    requires s.cx + max - 1 <= g.Columns() && SpanBlack(g, s.px, s.cx, s.cy, max - 1)
    requires NEWLINE !in keys
    ensures InStep(g, s, keys, max)
    decreases |keys|
  {
    if keys == [] {
      assert DrawSpan(g, s.px, s.cx, s.cy, [], WHITE) == s.px;
    } else {
      var n := |keys| - 1;
      var line, c := Edit(keys[..n], max), keys[n];
      InStepWhenBlack(g, s, keys[..n], max);
      EditFits(keys[..n], max);
      if c == BACKSPACE && line != [] {
        RubLast(g, s, line);
      } else if c != NUL && c != BACKSPACE && |line| < max - 1 {
        TypeNext(g, s, line, c);
      }
    }
  }

  /** Plain keys that the line has room for are stored as typed. */
  lemma {:induction false} EditPlain(keys: seq<byte>, max: nat)
    requires Plain(keys) && NUL !in keys && |keys| < max
    ensures Edit(keys, max) == keys
    decreases |keys|
  {
    if keys != [] {
      EditPlain(keys[..|keys| - 1], max);
    }
  }

  /** They are echoed by printing them. */
  lemma {:induction false} EchoPlain(g: Geometry, s: Console, keys: seq<byte>, max: nat)
    requires g.Valid() && Plain(keys) && NUL !in keys && |keys| < max
    ensures Echo(g, s, keys, max) == Print(g, s, keys, WHITE)
    decreases |keys|
  {
    if keys != [] {
      EditPlain(keys[..|keys| - 1], max);
      EchoPlain(g, s, keys[..|keys| - 1], max);
    }
  }

  /** What there is no room for is lost. */
  lemma {:induction false} EditFull(keys: seq<byte>, more: seq<byte>, max: nat)
    requires Plain(keys) && Plain(more) && NUL !in keys && NUL !in more && |keys| + 1 == max
    ensures Edit(keys + more, max) == keys
    decreases |more|
  {
    if more == [] {
      assert keys + more == keys;
      EditPlain(keys, max);
    } else {
      var n := |more| - 1;
      assert (keys + more)[..|keys + more| - 1] == keys + more[..n];
      EditFull(keys, more[..n], max);
    }
  }

  /** A backspace takes the last key off. */
  lemma EditBack(keys: seq<byte>, c: byte, max: nat)
    requires |Edit(keys, max)| < max - 1 && c != NUL && c != BACKSPACE
    ensures Edit(keys + [c, BACKSPACE], max) == Edit(keys, max)
  {
    var all := keys + [c, BACKSPACE];
    assert all[..|keys| + 1] == keys + [c] && (keys + [c])[..|keys|] == keys;
  }

  const LETTER: byte := 65

  /** Typing letters is printing them. */
  lemma EchoLetters(g: Geometry, s: Console, keys: seq<byte>, max: nat)
    requires g.Valid() && |keys| < max
    requires forall k :: 0 <= k < |keys| ==> keys[k] == LETTER
    ensures Edit(keys, max) == keys && Echo(g, s, keys, max) == Print(g, s, keys, WHITE)
  {
    EditPlain(keys, max);
    EchoPlain(g, s, keys, max);
  }

  /** Backspacing over typed letters takes them off the line and the screen again. */
  lemma {:induction false} EchoBack(g: Geometry, s: Console, keys: seq<byte>, back: seq<byte>, max: nat)
    requires g.Valid() && |back| <= |keys| < max
    requires forall k :: 0 <= k < |keys| ==> keys[k] == LETTER
    requires forall k :: 0 <= k < |back| ==> back[k] == BACKSPACE
    ensures Edit(keys + back, max) == keys[..|keys| - |back|]
    ensures Echo(g, s, keys + back, max) == Rubouts(g, Print(g, s, keys, WHITE), |back|)
    decreases |back|
  {
    if back == [] {
      assert keys + back == keys;
      EchoLetters(g, s, keys, max);
    } else {
      var n := |back| - 1;
      assert (keys + back)[..|keys| + n] == keys + back[..n];
      EchoBack(g, s, keys, back[..n], max);
      RuboutsNext(g, Print(g, s, keys, WHITE), n);
    }
  }

  /** A line that can run past the right edge gets out of step as soon as it does. */
  lemma FallsOutOfStep(g: Geometry, s: Console, max: nat) returns (keys: seq<byte>)
    requires Sound(g, s) && OnScreen(g, s) && s.cx + max - 1 > g.Columns()
    ensures NEWLINE !in keys && !InStep(g, s, keys, max)
  {
    var n := g.Columns() - s.cx;
    keys := seq(n + 1, _ => LETTER);
    EchoLetters(g, s, keys, max);
    PrintFits(g, s, keys[..n], WHITE);
    assert Echo(g, s, keys, max).cx <= 1;
  }

  /** Typing the longest line and rubbing it out again shows whether the cells were black. */
  lemma BackInStep(g: Geometry, s: Console, max: nat)
    requires Sound(g, s) && OnScreen(g, s) && max >= 1 && s.cx + max - 1 <= g.Columns()
    requires forall keys :: NEWLINE !in keys ==> InStep(g, s, keys, max)
    ensures SpanBlack(g, s.px, s.cx, s.cy, max - 1)
  {
    var m := max - 1;
    var keys, back := seq(m, _ => LETTER), seq(m, _ => BACKSPACE);
    assert InStep(g, s, keys + back, max);
    EchoBack(g, s, keys, back, max);
    assert DrawSpan(g, s.px, s.cx, s.cy, [], WHITE) == s.px;
    UndoIff(g, s, keys, WHITE);
  }

  /** Below the screen nothing is echoed. */
  lemma LostBelow(g: Geometry, s: Console, max: nat)
    requires Sound(g, s) && !OnScreen(g, s) && max >= 2
    ensures !InStep(g, s, [LETTER], max)
  {
    EchoLetters(g, s, [LETTER], max);
    PrintNowhere(g, s, [LETTER], WHITE);
  }

  lemma {:induction false} EmptyLine(g: Geometry, s: Console, keys: seq<byte>)
    requires Sound(g, s)
    ensures Edit(keys, 1) == [] && Echo(g, s, keys, 1) == s
    decreases |keys|
  {
    if keys != [] {
      EmptyLine(g, s, keys[..|keys| - 1]);
    }
  }

  /**
   * Buffer and screen agree after every key sequence exactly when nothing can be typed, or the row
   * is visible, the longest line the buffer can hold fits between the start column and the right
   * edge, and the cells it would take are black.
   */
  lemma InStepIff(g: Geometry, s: Console, max: nat)
    requires Sound(g, s) && max >= 1
    ensures (forall keys :: NEWLINE !in keys ==> InStep(g, s, keys, max)) <==>
      max == 1 || (OnScreen(g, s) && s.cx + max - 1 <= g.Columns() && SpanBlack(g, s.px, s.cx, s.cy, max - 1))
  {
    if max == 1 {
      forall keys | NEWLINE !in keys
        ensures InStep(g, s, keys, max)
      {
        EmptyLine(g, s, keys);
        assert DrawSpan(g, s.px, s.cx, s.cy, [], WHITE) == s.px;
      }
    } else if !OnScreen(g, s) {
      LostBelow(g, s, max);
    } else if s.cx + max - 1 > g.Columns() {
      var keys := FallsOutOfStep(g, s, max);
    } else if SpanBlack(g, s.px, s.cx, s.cy, max - 1) {
      forall keys | NEWLINE !in keys
        ensures InStep(g, s, keys, max)
      {
        InStepWhenBlack(g, s, keys, max);
      }
    } else if forall keys :: NEWLINE !in keys ==> InStep(g, s, keys, max) {
      BackInStep(g, s, max);
    }
  }

  /** From every state reached after a black clear the fit of the longest line on its row decides. */
  lemma ReachedInStepIff(g: Geometry, s: Console, max: nat)
    requires g.Valid() && (g.stride == g.width || g.height <= 1) && Reached(g, s) && max >= 1
    ensures (forall keys :: NEWLINE !in keys ==> InStep(g, s, keys, max)) <==>
      max == 1 || (OnScreen(g, s) && s.cx + max - 1 <= g.Columns())
  {
    ReachedSpanBlack(g, s, max - 1);
    InStepIff(g, s, max);
  }

  lemma ReachedEcho(g: Geometry, s: Console, keys: seq<byte>, max: nat)
    requires g.Valid() && Reached(g, s)
    ensures Reached(g, Echo(g, s, keys, max))
  {
    EchoIsRun(g, s, keys, max);
    ReachedRun(g, s, EchoOps(keys, max));
  }
}
