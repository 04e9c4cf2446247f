/**
 * kernel/drivers/keyboard.c: an interrupt-time producer and a polling consumer
 * that share a one-character mailbox.
 */
module Keyboard {
  import opened Bytes

  /**
   * A scancode table and the characters that shift changes besides the letters.
   * Both are parameters here: en_us, fr_ca and any other pair are instances.
   */
  datatype LayoutTable = LayoutTable(table: seq<byte>, shifted: map<byte, byte>) {
    function Shift(c: byte): byte {
      if 97 <= c <= 122 then c - 32 else if c in shifted then shifted[c] else c
    }

    function Char(scancode: byte, shift: bool): byte
      requires |table| == 128 && scancode < 0x80
    {
      if shift then Shift(table[scancode]) else table[scancode]
    }
  }

  type Layout = l: LayoutTable | |l.table| == 128 witness LayoutTable(seq(128, _ => NUL), map[])

  predicate ShiftPress(code: byte) { code == 0x2A || code == 0x36 }

  predicate ShiftRelease(code: byte) { code == 0xAA || code == 0xB6 }

  /** Codes that make the handler store a character. */
  predicate StoresChar(code: byte) { !ShiftPress(code) && code < 0x80 }

  /** shift_active and last_interrupt_char. */
  datatype Port = Port(shift: bool, slot: byte)

  function Handle(l: Layout, p: Port, code: byte): Port {
    if ShiftPress(code) then p.(shift := true)
    else if ShiftRelease(code) then p.(shift := false)
    else if code < 0x80 then p.(slot := l.Char(code, p.shift))
    else p
  }

  class Driver {
    var currentLayout: Layout
    var shiftActive: bool
    var lastInterruptChar: byte

    ghost function State(): Port
      reads this
    {
      Port(shiftActive, lastInterruptChar)
    }

    constructor (layout: Layout)
      ensures State() == Port(false, NUL) && currentLayout == layout
    {
      currentLayout, shiftActive, lastInterruptChar := layout, false, NUL;
    }

    function ApplyLayout(scancode: byte): byte
      requires scancode < 0x80
      reads this
    {
      var c := currentLayout.table[scancode];
      if shiftActive then currentLayout.Shift(c) else c
    }

    method Handler(scancode: byte)
      modifies this
      ensures currentLayout == old(currentLayout)
      ensures State() == Handle(currentLayout, old(State()), scancode)
    {
      if scancode == 0x2A || scancode == 0x36 {
        shiftActive := true;
        return;
      }
      if scancode == 0xAA || scancode == 0xB6 {
        shiftActive := false;
        return;
      }
      if scancode < 0x80 {
        lastInterruptChar := ApplyLayout(scancode);
      }
    }

    /** keyboard_init as far as the driver's own state goes. */
    method Init(layout: Layout)
      modifies this`currentLayout
      ensures currentLayout == layout
    {
      currentLayout := layout;
    }

    /** The two halves of keyboard_get_char with no interrupt between them. */
    method GetChar() returns (c: byte)
      modifies this
      ensures currentLayout == old(currentLayout)
      ensures c == old(lastInterruptChar)
      ensures State() == old(State()).(slot := NUL)
    {
      c := lastInterruptChar;
      lastInterruptChar := NUL;
    }
  }

  // ---- Interleavings -----------------------------------------------------------

  /** One atomic step: an interrupt, one half of keyboard_get_char, or the consumer changing the layout. */
  datatype Step = Interrupt(code: byte) | Read | Clear | Install(layout: Layout)

  /** `held` is the character read and not yet cleared; `stored` and `returned` are the history. */
  datatype Machine = Machine(layout: Layout, port: Port, held: Option<byte>, stored: seq<byte>, returned: seq<byte>)

  function Start(l: Layout): Machine {
    Machine(l, Port(false, NUL), None, [], [])
  }

  /** The consumer alternates reading and clearing; the producer may step at any time. */
  predicate Enabled(m: Machine, step: Step) {
    match step
    case Interrupt(_) => true
    case Read => m.held.None?
    case Clear => m.held.Some?
    case Install(_) => m.held.None?
  }

  function Next(m: Machine, step: Step): Machine
    requires Enabled(m, step)
  {
    match step
    case Interrupt(code) =>
      var p := Handle(m.layout, m.port, code);
      m.(port := p, stored := if StoresChar(code) then m.stored + [p.slot] else m.stored)
    case Read => m.(held := Some(m.port.slot))
    case Clear => m.(port := m.port.(slot := NUL), held := None, returned := m.returned + [m.held.value])
    case Install(layout) => m.(layout := layout)
  }

  /** A schedule the consumer can follow. */
  ghost predicate Runs(l: Layout, steps: seq<Step>)
    decreases |steps|, 0
  {
    steps == [] || (Runs(l, steps[..|steps| - 1]) && Enabled(After(l, steps[..|steps| - 1]), steps[|steps| - 1]))
  }

  ghost function After(l: Layout, steps: seq<Step>): Machine
    requires Runs(l, steps)
    decreases |steps|, 1
  {
    if steps == [] then Start(l) else Next(After(l, steps[..|steps| - 1]), steps[|steps| - 1])
  }

  /** `at` picks out of b, at strictly increasing places, exactly a. */
  ghost predicate Picks(a: seq<byte>, b: seq<byte>, at: seq<nat>) {
    && |at| == |a|
    && (forall k :: 0 <= k < |a| ==> at[k] < |b| && b[at[k]] == a[k])
    && (forall j, k :: 0 <= j < k < |a| ==> at[j] < at[k])
  }

  /** a keeps some of b's elements, in order, each at most once. */
  ghost predicate Subsequence(a: seq<byte>, b: seq<byte>) {
    exists at: seq<nat> :: Picks(a, b, at)
  }

  lemma SubsequenceGrow(a: seq<byte>, b: seq<byte>, c: byte)
    requires Subsequence(a, b)
    ensures Subsequence(a, b + [c]) && Subsequence(a + [c], b + [c])
  {
    var at: seq<nat> :| Picks(a, b, at);
    assert Picks(a, b + [c], at);
    assert Picks(a + [c], b + [c], at + [|b|]);
  }

  lemma SubsequenceDrop(a: seq<byte>, c: byte, b: seq<byte>)
    requires Subsequence(a + [c], b)
    ensures Subsequence(a, b)
  {
    var at: seq<nat> :| Picks(a + [c], b, at);
    assert Picks(a, b, at[..|a|]);
  }

  /** Characters on their way: the one held, else the one in the mailbox. */
  function InFlight(m: Machine): seq<byte> {
    var c := if m.held.Some? then m.held.value else m.port.slot;
    if c == NUL then [] else [c]
  }

  /** An interrupt destroys a character: it overwrites the mailbox, or its store is wiped by the pending clear. */
  predicate Loses(m: Machine, step: Step)
  {
    step.Interrupt? && StoresChar(step.code) &&
    if m.held.None? then m.port.slot != NUL else Handle(m.layout, m.port, step.code).slot != NUL
  }

  ghost function Losses(l: Layout, steps: seq<Step>): nat
    requires Runs(l, steps)
    decreases |steps|
  {
    if steps == [] then 0
    else
      var before := steps[..|steps| - 1];
      Losses(l, before) + if Loses(After(l, before), steps[|steps| - 1]) then 1 else 0
  }

  /** What every step keeps: order, and the count of what was destroyed. */
  ghost predicate Kept(m: Machine, losses: nat) {
    && Subsequence(NonNul(m.returned) + InFlight(m), NonNul(m.stored))
    && |NonNul(m.stored)| == |NonNul(m.returned)| + |InFlight(m)| + losses
  }

  lemma StoreKeeps(m: Machine, code: byte, losses: nat)
    requires Kept(m, losses) && StoresChar(code)
    ensures Kept(Next(m, Interrupt(code)), losses + if Loses(m, Interrupt(code)) then 1 else 0)
  {
    var done, stored, c := NonNul(m.returned), NonNul(m.stored), Handle(m.layout, m.port, code).slot;
    NonNulSnoc(m.stored, c);
    if m.held.Some? {
      if c != NUL {
        SubsequenceGrow(done + InFlight(m), stored, c);
      }
    } else {
      assert done + [] == done;
      if m.port.slot != NUL {
        SubsequenceDrop(done, m.port.slot, stored);
      }
      if c != NUL {
        SubsequenceGrow(done, stored, c);
      }
    }
  }

  lemma ClearKeeps(m: Machine, losses: nat)
    requires Kept(m, losses) && m.held.Some?
    ensures Kept(Next(m, Clear), losses)
  {
    var c, m' := m.held.value, Next(m, Clear);
    NonNulSnoc(m.returned, c);
    assert NonNul(m.returned) + InFlight(m) == NonNul(m'.returned) + InFlight(m');
  }

  lemma StepKeeps(m: Machine, step: Step, losses: nat)
    requires Enabled(m, step) && Kept(m, losses)
    ensures Kept(Next(m, step), losses + if Loses(m, step) then 1 else 0)
  {
    match step
    case Interrupt(code) =>
      if StoresChar(code) {
        StoreKeeps(m, code, losses);
      }
    case Read =>
    case Install(_) =>
    case Clear => ClearKeeps(m, losses);
  }

  lemma {:induction false} RunKeeps(l: Layout, steps: seq<Step>)
    requires Runs(l, steps)
    ensures Kept(After(l, steps), Losses(l, steps))
    decreases |steps|
  {
    if steps == [] {
      assert NonNul([]) + [] == [];
      assert Picks([], [], []);
    } else {
      var before := steps[..|steps| - 1];
      RunKeeps(l, before);
      StepKeeps(After(l, before), steps[|steps| - 1], Losses(l, before));
    }
  }

  /** Mailbox safety: nothing invented, reordered or delivered twice, whatever the interleaving. */
  lemma MailboxSafe(l: Layout, steps: seq<Step>)
    requires Runs(l, steps)
    ensures var m := After(l, steps);
            Subsequence(NonNul(m.returned), NonNul(m.stored))
  {
    RunKeeps(l, steps);
    var m := After(l, steps);
    var c := if m.held.Some? then m.held.value else m.port.slot;
    if c == NUL {
      assert NonNul(m.returned) + [] == NonNul(m.returned);
    } else {
      SubsequenceDrop(NonNul(m.returned), c, NonNul(m.stored));
    }
  }

  /** Increasing places are at least as far along as their rank. */
  lemma {:induction false} PicksRank(a: seq<byte>, b: seq<byte>, at: seq<nat>, k: nat)
    requires Picks(a, b, at) && k < |a|
    ensures k <= at[k] <= |b| - (|a| - k)
    decreases |a| - k
  {
    if k + 1 < |a| {
      PicksRank(a, b, at, k + 1);
    }
    RankBelow(a, b, at, k);
  }

  lemma {:induction false} RankBelow(a: seq<byte>, b: seq<byte>, at: seq<nat>, k: nat)
    requires Picks(a, b, at) && k < |a|
    ensures k <= at[k]
    decreases k
  {
    if k > 0 {
      RankBelow(a, b, at, k - 1);
      assert at[k - 1] < at[k];
    }
  }

  lemma FullSubsequence(a: seq<byte>, b: seq<byte>)
    requires Subsequence(a, b) && |a| == |b|
    ensures a == b
  {
    var at: seq<nat> :| Picks(a, b, at);
    forall k | 0 <= k < |a|
      ensures a[k] == b[k]
    {
      PicksRank(a, b, at, k);
    }
  }

  /** Everything stored is returned or still on its way exactly when no step destroyed a character. */
  lemma LosslessIff(l: Layout, steps: seq<Step>)
    requires Runs(l, steps)
    ensures var m := After(l, steps);
            NonNul(m.returned) + InFlight(m) == NonNul(m.stored) <==> Losses(l, steps) == 0
  {
    RunKeeps(l, steps);
    var m := After(l, steps);
    if Losses(l, steps) == 0 {
      FullSubsequence(NonNul(m.returned) + InFlight(m), NonNul(m.stored));
    }
  }

  /** Every store, stores of NUL included, finds the mailbox empty and the consumer idle. */
  ghost predicate Polite(l: Layout, steps: seq<Step>)
    requires Runs(l, steps)
    decreases |steps|
  {
    steps == [] ||
    (var m, step := After(l, steps[..|steps| - 1]), steps[|steps| - 1];
     Polite(l, steps[..|steps| - 1]) &&
     (step.Interrupt? && StoresChar(step.code) ==> m.held.None? && m.port.slot == NUL))
  }

  lemma {:induction false} PoliteLossless(l: Layout, steps: seq<Step>)
    requires Runs(l, steps) && Polite(l, steps)
    ensures Losses(l, steps) == 0
    decreases |steps|
  {
    if steps != [] {
      PoliteLossless(l, steps[..|steps| - 1]);
    }
  }
}
