/** From raw scancodes to the line in the buffer. */
module Typing {
  import opened Bytes
  import opened Keyboard
  import opened LineEditor
  import opened Trails

  /** What decides the characters: scancodes, and the layouts installed between them. */
  datatype Input = Code(code: byte) | Layouted(layout: Layout)

  predicate Pressed(input: Input) { input.Code? && ShiftPress(input.code) }

  predicate Released(input: Input) { input.Code? && ShiftRelease(input.code) }

  /** The last shift event was a press. */
  ghost predicate ShiftHeld(inputs: seq<Input>) {
    exists i :: 0 <= i < |inputs| && Pressed(inputs[i]) && forall j :: i < j < |inputs| ==> !Released(inputs[j])
  }

  /** The layout installed last. */
  function InForce(l: Layout, inputs: seq<Input>): Layout
    decreases |inputs|
  {
    if inputs == [] then l
    else
      var last := inputs[|inputs| - 1];
      if last.Layouted? then last.layout else InForce(l, inputs[..|inputs| - 1])
  }

  /** The character each storing code stands for, with layout and shift keys as they were when it arrived. */
  ghost function Typed(l: Layout, inputs: seq<Input>): seq<byte>
    decreases |inputs|
  {
    if inputs == [] then []
    else
      var before, last := inputs[..|inputs| - 1], inputs[|inputs| - 1];
      Typed(l, before) +
      if last.Code? && StoresChar(last.code) then [InForce(l, before).Char(last.code, ShiftHeld(before))] else []
  }

  /** The inputs of a schedule; reading and clearing are none. */
  function Inputs(steps: seq<Step>): seq<Input>
    decreases |steps|
  {
    if steps == [] then []
    else
      var before, step := steps[..|steps| - 1], steps[|steps| - 1];
      match step
      case Interrupt(code) => Inputs(before) + [Code(code)]
      case Install(layout) => Inputs(before) + [Layouted(layout)]
      case Read => Inputs(before)
      case Clear => Inputs(before)
  }

  lemma ShiftHeldSnoc(inputs: seq<Input>, input: Input)
    ensures ShiftHeld(inputs + [input]) <==> Pressed(input) || (ShiftHeld(inputs) && !Released(input))
  {
    var all := inputs + [input];
    if Pressed(input) {
      assert Pressed(all[|inputs|]);
    } else if ShiftHeld(inputs) && !Released(input) {
      var i :| 0 <= i < |inputs| && Pressed(inputs[i]) && forall j :: i < j < |inputs| ==> !Released(inputs[j]);
      assert Pressed(all[i]);
    }
    if ShiftHeld(all) && !Pressed(input) {
      var i :| 0 <= i < |all| && Pressed(all[i]) && forall j :: i < j < |all| ==> !Released(all[j]);
      assert !Released(all[|inputs|]);
      assert Pressed(inputs[i]);
      assert forall j :: i < j < |inputs| ==> inputs[j] == all[j];
    }
  }

  lemma InputSnoc(l: Layout, inputs: seq<Input>, input: Input)
    ensures Typed(l, inputs + [input]) == Typed(l, inputs) +
      if input.Code? && StoresChar(input.code) then [InForce(l, inputs).Char(input.code, ShiftHeld(inputs))] else []
    ensures InForce(l, inputs + [input]) == if input.Layouted? then input.layout else InForce(l, inputs)
  {
    assert (inputs + [input])[..|inputs|] == inputs;
  }

  /** Stored characters, shift state and layout are those of the inputs. */
  ghost predicate Stored(l: Layout, m: Machine, inputs: seq<Input>) {
    m.stored == Typed(l, inputs) && (m.port.shift <==> ShiftHeld(inputs)) && m.layout == InForce(l, inputs)
  }

  lemma NextOnCode(m: Machine, code: byte)
    ensures var n := Next(m, Interrupt(code));
            && n.stored == (if StoresChar(code) then m.stored + [m.layout.Char(code, m.port.shift)] else m.stored)
            && (n.port.shift <==> ShiftPress(code) || (m.port.shift && !ShiftRelease(code)))
            && n.layout == m.layout
  {
  }

  lemma CodeStored(l: Layout, m: Machine, inputs: seq<Input>, code: byte)
    requires Stored(l, m, inputs)
    ensures Stored(l, Next(m, Interrupt(code)), inputs + [Code(code)])
  {
    NextOnCode(m, code);
    InputSnoc(l, inputs, Code(code));
    ShiftHeldSnoc(inputs, Code(code));
  }

  lemma LayoutStored(l: Layout, m: Machine, inputs: seq<Input>, layout: Layout)
    requires Stored(l, m, inputs) && Enabled(m, Install(layout))
    ensures Stored(l, Next(m, Install(layout)), inputs + [Layouted(layout)])
  {
    InputSnoc(l, inputs, Layouted(layout));
    ShiftHeldSnoc(inputs, Layouted(layout));
  }

  /** The driver stores exactly the typed characters, whatever the consumer does meanwhile. */
  lemma {:induction false} StoresTyped(l: Layout, steps: seq<Step>)
    requires Runs(l, steps)
    ensures Stored(l, After(l, steps), Inputs(steps))
    decreases |steps|
  {
    if steps != [] {
      var before, step := steps[..|steps| - 1], steps[|steps| - 1];
      StoresTyped(l, before);
      match step
      case Interrupt(code) => CodeStored(l, After(l, before), Inputs(before), code);
      case Install(layout) => LayoutStored(l, After(l, before), Inputs(before), layout);
      case Read =>
      case Clear =>
    }
  }

  // ---- What keys mean ----------------------------------------------------------------

  /** The shift keys: 2A and 36 when pressed, AA and B6 when released. */
  lemma ShiftKeys(inputs: seq<Input>, code: byte)
    ensures ShiftHeld(inputs + [Code(code)]) <==>
      code == 0x2A || code == 0x36 || (ShiftHeld(inputs) && code != 0xAA && code != 0xB6)
  {
    ShiftHeldSnoc(inputs, Code(code));
  }

  function Codes(codes: seq<byte>): (inputs: seq<Input>)
    ensures |inputs| == |codes|
  {
    seq(|codes|, k requires 0 <= k < |codes| => Code(codes[k]))
  }

  /** A key below 0x80 that is no shift key types its character, shifted while a shift key is held. */
  lemma KeyTypes(l: Layout, before: seq<Input>, code: byte)
    requires code < 0x80 && code != 0x2A && code != 0x36
    ensures var held, layout := ShiftHeld(before), InForce(l, before);
            var c := if held then layout.Shift(layout.table[code]) else layout.table[code];
            var after := before + [Code(code)];
            Typed(l, after) == Typed(l, before) + [c] && ShiftHeld(after) == held && InForce(l, after) == layout
  {
    InputSnoc(l, before, Code(code));
    ShiftKeys(before, code);
  }

  /** What the inputs have come to: the text, whether shift is held, and the layout. */
  ghost predicate SoFar(l: Layout, inputs: seq<Input>, text: seq<byte>, held: bool, layout: Layout) {
    Typed(l, inputs) == text && ShiftHeld(inputs) == held && InForce(l, inputs) == layout
  }

  lemma CodesSnoc(before: seq<Input>, codes: seq<byte>)
    requires codes != []
    ensures before + Codes(codes) == before + Codes(codes[..|codes| - 1]) + [Code(codes[|codes| - 1])]
  {
  }

  lemma TextSnoc(text: seq<byte>, chars: seq<byte>)
    requires chars != []
    ensures text + chars == text + chars[..|chars| - 1] + [chars[|chars| - 1]]
  {
  }

  /** Any number of such keys type the text of their characters. */
  lemma {:induction false} KeysType(l: Layout, before: seq<Input>, codes: seq<byte>, text: seq<byte>, held: bool,
                                    layout: Layout, chars: seq<byte>)
    requires SoFar(l, before, text, held, layout) && |chars| == |codes|
    requires forall k :: 0 <= k < |codes| ==> codes[k] < 0x80 && codes[k] != 0x2A && codes[k] != 0x36
    requires forall k :: 0 <= k < |codes| ==> chars[k] == layout.Char(codes[k], held)
    ensures SoFar(l, before + Codes(codes), text + chars, held, layout)
    decreases |codes|
  {
    if codes == [] {
      assert before + Codes(codes) == before && text + chars == text;
    } else {
      var n := |codes| - 1;
      var most := before + Codes(codes[..n]);
      KeysType(l, before, codes[..n], text, held, layout, chars[..n]);
      KeyTypes(l, most, codes[n]);
      CodesSnoc(before, codes);
      TextSnoc(text, chars);
    }
  }

  /** A shift key types nothing. */
  lemma ShiftTypes(l: Layout, before: seq<Input>, code: byte, text: seq<byte>, held: bool, layout: Layout)
    requires SoFar(l, before, text, held, layout)
    requires code == 0x2A || code == 0x36 || code == 0xAA || code == 0xB6
    ensures SoFar(l, before + [Code(code)], text, code == 0x2A || code == 0x36, layout)
  {
    InputSnoc(l, before, Code(code));
    ShiftKeys(before, code);
    assert text + [] == text;
  }

  /** Between a press and a release of a shift key, keys type their shifted characters. */
  lemma ShiftedKeysType(l: Layout, before: seq<Input>, codes: seq<byte>, text: seq<byte>, layout: Layout,
                        chars: seq<byte>)
    requires SoFar(l, before, text, false, layout) && |chars| == |codes|
    requires forall k :: 0 <= k < |codes| ==> codes[k] < 0x80 && codes[k] != 0x2A && codes[k] != 0x36
    requires forall k :: 0 <= k < |codes| ==> chars[k] == layout.Char(codes[k], true)
    ensures SoFar(l, before + [Code(0x2A)] + Codes(codes) + [Code(0xAA)], text + chars, false, layout)
  {
    ShiftTypes(l, before, 0x2A, text, false, layout);
    KeysType(l, before + [Code(0x2A)], codes, text, true, layout, chars);
    ShiftTypes(l, before + [Code(0x2A)] + Codes(codes), 0xAA, text + chars, true, layout);
  }

  lemma {:induction false} FirstNewlineAt(a: seq<byte>, b: seq<byte>)
    requires NEWLINE !in a
    ensures NEWLINE in a + [NEWLINE] + b && FirstNewline(a + [NEWLINE] + b) == |a|
    decreases |a|
  {
    var keys := a + [NEWLINE] + b;
    assert keys[|a|] == NEWLINE;
    if a != [] {
      assert a[0] in a;
      assert keys[1..] == a[1..] + [NEWLINE] + b;
      FirstNewlineAt(a[1..], b);
    }
  }

  lemma NonNulAround(a: seq<byte>, b: seq<byte>)
    ensures NonNul(a + [NEWLINE] + b) == NonNul(a) + [NEWLINE] + NonNul(b)
  {
    NonNulConcat(a + [NEWLINE], b);
    NonNulSnoc(a, NEWLINE);
  }

  /** NULs come and go without a change to what stands before the first newline. */
  lemma LineNonNul(keys: seq<byte>)
    requires NEWLINE in keys
    ensures NEWLINE in NonNul(keys)
    ensures NonNul(keys)[..FirstNewline(NonNul(keys))] == NonNul(keys[..FirstNewline(keys)])
  {
    var n := FirstNewline(keys);
    var a, b := keys[..n], keys[n + 1..];
    assert keys == a + [NEWLINE] + b;
    NonNulAround(a, b);
    NonNulHas(a, NEWLINE);
    FirstNewlineAt(NonNul(a), NonNul(b));
    assert (NonNul(a) + [NEWLINE] + NonNul(b))[..|NonNul(a)|] == NonNul(a);
  }

  lemma {:induction false} FirstNewlineMore(keys: seq<byte>, more: seq<byte>)
    requires NEWLINE in keys
    ensures NEWLINE in keys + more && FirstNewline(keys + more) == FirstNewline(keys)
    decreases |keys|
  {
    if keys[0] != NEWLINE {
      assert keys == [keys[0]] + keys[1..];
      assert (keys + more)[1..] == keys[1..] + more;
      FirstNewlineMore(keys[1..], more);
    }
  }

  /** More keys behind the first newline make no difference to the first line. */
  lemma LineMore(keys: seq<byte>, more: seq<byte>)
    requires NEWLINE in keys
    ensures NEWLINE in keys + more
    ensures (keys + more)[..FirstNewline(keys + more)] == keys[..FirstNewline(keys)]
  {
    FirstNewlineMore(keys, more);
  }

  /** Only the keys before the first newline matter, and NULs among them do not. */
  lemma LineOfNonNul(keys: seq<byte>, more: seq<byte>, max: nat)
    requires NEWLINE in keys
    ensures NEWLINE in NonNul(keys) + more && LineOf(NonNul(keys) + more, max) == LineOf(keys, max)
  {
    LineNonNul(keys);
    LineMore(NonNul(keys), more);
    EditNonNul(keys[..FirstNewline(keys)], max);
  }

  /**
   * Under a schedule that destroys no character, the line readline builds from its polls
   * is the one the raw scancodes spell.
   */
  lemma ScancodesToLine(l: Layout, steps: seq<Step>, max: nat)
    requires Runs(l, steps)
    requires Losses(l, steps) == 0
    requires NEWLINE in After(l, steps).returned
    ensures var typed := Typed(l, Inputs(steps));
            NEWLINE in typed && LineOf(After(l, steps).returned, max) == LineOf(typed, max)
  {
    var m := After(l, steps);
    var typed := Typed(l, Inputs(steps));
    StoresTyped(l, steps);
    LosslessIff(l, steps);
    LineOfNonNul(m.returned, InFlight(m), max);
    assert NEWLINE in NonNul(typed);
    NonNulHas(typed, NEWLINE);
    LineOfNonNul(typed, [], max);
    assert NonNul(typed) + [] == NonNul(typed);
  }

  // ---- Line after line -----------------------------------------------------------

  /** The keys before the first newline. */
  function FirstLine(keys: seq<byte>): seq<byte>
    requires NEWLINE in keys
  {
    keys[..FirstNewline(keys)]
  }

  /** The keys of one line, without its newline. */
  datatype KeyLine = KeyLine(keys: seq<byte>)

  /** The lines that keys enter; keys behind the last newline enter none. */
  function Streams(keys: seq<byte>): seq<KeyLine>
    decreases |keys|
  {
    if NEWLINE in keys then [KeyLine(FirstLine(keys))] + Streams(keys[FirstNewline(keys) + 1..]) else []
  }

  /** The keys behind the last newline. */
  function Pending(keys: seq<byte>): seq<byte>
    decreases |keys|
  {
    if NEWLINE in keys then Pending(keys[FirstNewline(keys) + 1..]) else keys
  }

  function Squeezed(streams: seq<KeyLine>): (r: seq<KeyLine>)
    ensures |r| == |streams|
  {
    seq(|streams|, k requires 0 <= k < |streams| => KeyLine(NonNul(streams[k].keys)))
  }

  lemma StreamsLine(a: seq<byte>, b: seq<byte>)
    requires NEWLINE !in a
    ensures Streams(a + [NEWLINE] + b) == [KeyLine(a)] + Streams(b)
    ensures Pending(a + [NEWLINE] + b) == Pending(b)
  {
    var keys := a + [NEWLINE] + b;
    FirstNewlineAt(a, b);
    assert keys[..|a|] == a && keys[|a| + 1..] == b;
  }

  lemma SqueezedMore(first: KeyLine, streams: seq<KeyLine>)
    ensures Squeezed([first] + streams) == [KeyLine(NonNul(first.keys))] + Squeezed(streams)
  {
  }

  lemma StreamsNonNulLine(a: seq<byte>, b: seq<byte>)
    requires NEWLINE !in a && Streams(NonNul(b)) == Squeezed(Streams(b))
    ensures Streams(NonNul(a + [NEWLINE] + b)) == Squeezed(Streams(a + [NEWLINE] + b))
  {
    NonNulAround(a, b);
    NonNulHas(a, NEWLINE);
    StreamsLine(a, b);
    StreamsLine(NonNul(a), NonNul(b));
    SqueezedMore(KeyLine(a), Streams(b));
  }

  /** Polls that find no key leave no trace in any line. */
  lemma {:induction false} StreamsNonNul(keys: seq<byte>)
    ensures Streams(NonNul(keys)) == Squeezed(Streams(keys))
    decreases |keys|
  {
    NonNulHas(keys, NEWLINE);
    if NEWLINE in keys {
      var n := FirstNewline(keys);
      var a, b := keys[..n], keys[n + 1..];
      assert keys == a + [NEWLINE] + b;
      StreamsNonNul(b);
      StreamsNonNulLine(a, b);
    }
  }

  /** More keys complete the pending line first. */
  lemma {:induction false} StreamsMore(keys: seq<byte>, more: seq<byte>)
    ensures Streams(keys + more) == Streams(keys) + Streams(Pending(keys) + more)
    decreases |keys|
  {
    if NEWLINE in keys {
      var n := FirstNewline(keys);
      var a, b := keys[..n], keys[n + 1..];
      assert keys == a + [NEWLINE] + b;
      assert keys + more == a + [NEWLINE] + (b + more);
      StreamsMore(b, more);
      StreamsLine(a, b);
      StreamsLine(a, b + more);
      assert [KeyLine(a)] + (Streams(b) + Streams(Pending(b) + more))
          == [KeyLine(a)] + Streams(b) + Streams(Pending(b) + more);
    }
  }

  lemma {:induction false} PendingHasNone(keys: seq<byte>)
    ensures NEWLINE !in Pending(keys)
    decreases |keys|
  {
    if NEWLINE in keys {
      PendingHasNone(keys[FirstNewline(keys) + 1..]);
    }
  }

  lemma StreamsOne(a: seq<byte>, c: byte)
    requires NEWLINE !in a
    ensures Streams(a + [c]) == if c == NEWLINE then [KeyLine(a)] else []
  {
    if c == NEWLINE {
      StreamsLine(a, []);
      assert a + [NEWLINE] + [] == a + [c];
    } else {
      assert NEWLINE !in a + [c];
    }
  }

  /** One key completes the pending line if it is a newline, and no line otherwise. */
  lemma StreamsKey(keys: seq<byte>, c: byte)
    ensures Streams(keys + [c]) == if c == NEWLINE then Streams(keys) + [KeyLine(Pending(keys))] else Streams(keys)
  {
    PendingHasNone(keys);
    StreamsMore(keys, [c]);
    StreamsOne(Pending(keys), c);
  }

  /** The keys of each line the scancodes spell. */
  ghost function TypedStreams(l: Layout, steps: seq<Step>): seq<KeyLine> {
    Streams(NonNul(Typed(l, Inputs(steps))))
  }

  /**
   * Under a schedule that destroys no character, the lines of all polls are the lines the raw
   * scancodes spell, one after another; only a last newline may still be on its way.
   */
  lemma ScancodesToLines(l: Layout, steps: seq<Step>)
    requires Runs(l, steps) && Losses(l, steps) == 0
    ensures var m := After(l, steps);
            TypedStreams(l, steps) == Squeezed(Streams(m.returned)) +
            if InFlight(m) == [NEWLINE] then [KeyLine(Pending(NonNul(m.returned)))] else []
  {
    var m := After(l, steps);
    StoresTyped(l, steps);
    LosslessIff(l, steps);
    StreamsNonNul(m.returned);
    var done := NonNul(m.returned);
    if InFlight(m) == [] {
      assert done + [] == done;
    } else {
      StreamsKey(done, InFlight(m)[0]);
    }
  }

  // ---- Line by line ------------------------------------------------------------------

  /** All lines that the keys enter have the property. */
  ghost predicate AllLines(ok: seq<byte> -> bool, streams: seq<KeyLine>, max: nat) {
    forall k :: 0 <= k < |streams| ==> ok(Edit(streams[k].keys, max))
  }

  lemma AllLinesFirst(ok: seq<byte> -> bool, rest: seq<byte>, max: nat)
    requires NEWLINE in rest && AllLines(ok, Streams(rest), max)
    ensures ok(LineOf(rest, max)) && AllLines(ok, Streams(rest[FirstNewline(rest) + 1..]), max)
  {
    StreamsParts(rest);
    var streams, more := Streams(rest), Streams(rest[FirstNewline(rest) + 1..]);
    forall k | 0 <= k < |more|
      ensures ok(Edit(more[k].keys, max))
    {
      assert more[k] == streams[1..][k] == streams[k + 1];
    }
  }

  /** The states of a run over lines of keys. */
  ghost function LineTrail<S>(next: (S, KeyLine) -> S, stop: KeyLine -> bool, x: S, streams: seq<KeyLine>):
    (trail: seq<S>)
    ensures trail != [] && trail[0] == x
  {
    Trail(next, stop, x, streams)
  }

  /** The run over the lines of `rest`, having passed through `done`, takes its first line from x to y. */
  lemma LineTrailNext<S>(next: (S, KeyLine) -> S, stop: KeyLine -> bool, done: seq<S>, x: S, y: S,
                         rest: seq<byte>, goesOn: bool)
    requires NEWLINE in rest && y == next(x, KeyLine(FirstLine(rest)))
    requires goesOn <==> !stop(KeyLine(FirstLine(rest)))
    ensures done + LineTrail(next, stop, x, Streams(rest)) ==
            done + [x] + if goesOn then LineTrail(next, stop, y, Streams(rest[FirstNewline(rest) + 1..])) else [y]
  {
    StreamsParts(rest);
    TrailNext(next, stop, done, x, y, Streams(rest), Streams(rest[FirstNewline(rest) + 1..]), goesOn);
  }

  lemma LineTrailSteps<S>(next: (S, KeyLine) -> S, stop: KeyLine -> bool, x: S, streams: seq<KeyLine>)
    ensures var trail := LineTrail(next, stop, x, streams);
            |trail| <= |streams| + 1 && forall k :: 0 < k < |trail| ==> trail[k] == next(trail[k - 1], streams[k - 1])
  {
    var trail := LineTrail(next, stop, x, streams);
    TrailLength(next, stop, x, streams);
    forall k | 0 < k < |trail|
      ensures trail[k] == next(trail[k - 1], streams[k - 1])
    {
      TrailSteps(next, stop, x, streams, k);
    }
  }

  lemma LineTrailSame<S>(next: (S, KeyLine) -> S, stop: KeyLine -> bool, x: S, a: seq<KeyLine>,
                         b: seq<KeyLine>)
    requires |a| == |b|
    requires forall k :: 0 <= k < |a| ==> stop(a[k]) == stop(b[k]) && forall x :: next(x, a[k]) == next(x, b[k])
    ensures LineTrail(next, stop, x, a) == LineTrail(next, stop, x, b)
  {
    TrailSame(next, stop, x, a, b);
  }

  lemma StreamsParts(rest: seq<byte>)
    requires NEWLINE in rest
    ensures Streams(rest) != [] && Streams(rest)[0] == KeyLine(FirstLine(rest))
    ensures Streams(rest)[1..] == Streams(rest[FirstNewline(rest) + 1..])
  {
  }

  /** Polls that find no key make no difference to what is entered. */
  lemma SqueezedAll(ok: seq<byte> -> bool, streams: seq<KeyLine>, max: nat)
    requires AllLines(ok, Squeezed(streams), max)
    ensures AllLines(ok, streams, max)
  {
    forall k | 0 <= k < |streams|
      ensures ok(Edit(streams[k].keys, max))
    {
      assert ok(Edit(Squeezed(streams)[k].keys, max));
      EditNonNul(streams[k].keys, max);
    }
  }
}
