/** The interrupt stubs of kernel/arch/x86_64/interrupts.s as an instruction-level machine. */
module Interrupts {
  /** A 64-bit quantity; the stubs move such values and never compute with them. */
  type Quad = int

  datatype Reg = RAX | RBX | RCX | RDX | RSI | RDI | RBP | R8 | R9 | R10 | R11 | R12 | R13 | R14 | R15

  datatype Instr = PushImm(v: Quad) | Push(r: Reg) | Pop(r: Reg) | MovRsp(r: Reg) | AddRsp(n: nat) | Call

  /** General registers, stack pointer, and memory in quadwords by address. */
  datatype Machine = Machine(regs: Reg -> Quad, rsp: int, mem: int -> Quad) {
    function PushWord(v: Quad): Machine {
      var m := mem;
      var top := rsp - 8;
      Machine(regs, top, a => if a == top then v else m(a))
    }

    function Load(r: Reg, v: Quad): Machine {
      var regs' := regs;
      Machine(x => if x == r then v else regs'(x), rsp, mem)
    }
  }

  type Handler = Machine -> Machine

  /**
   * Called in machine m, the handler returns and leaves memory from its return address up to `top` alone.
   * It may clobber every register and write anywhere else.
   */
  ghost predicate Civil(h: Handler, m: Machine, top: int) {
    h(m).rsp == m.rsp && forall a :: m.rsp <= a < top ==> h(m).mem(a) == m.mem(a)
  }

  /** The return address is pushed for the handler and popped when it returns. */
  function Step(h: Handler, m: Machine, i: Instr): Machine {
    match i
    case PushImm(v) => m.PushWord(v)
    case Push(r) => m.PushWord(m.regs(r))
    case Pop(r) => m.Load(r, m.mem(m.rsp)).(rsp := m.rsp + 8)
    case MovRsp(r) => m.Load(r, m.rsp)
    case AddRsp(n) => m.(rsp := m.rsp + n)
    case Call => var back := h(m.PushWord(0)); back.(rsp := back.rsp + 8)
  }

  function Run(h: Handler, m: Machine, p: seq<Instr>): Machine
    decreases |p|
  {
    if p == [] then m else Run(h, Step(h, m, p[0]), p[1..])
  }

  lemma {:induction false} RunConcat(h: Handler, m: Machine, p: seq<Instr>, q: seq<Instr>)
    ensures Run(h, m, p + q) == Run(h, Run(h, m, p), q)
    decreases |p|
  {
    if p == [] {
      assert p + q == q;
    } else {
      assert (p + q)[1..] == p[1..] + q;
      RunConcat(h, Step(h, m, p[0]), p[1..], q);
    }
  }

  function Pushes(rs: seq<Reg>): (p: seq<Instr>)
    ensures |p| == |rs|
  {
    seq(|rs|, k requires 0 <= k < |rs| => Push(rs[k]))
  }

  function Pops(rs: seq<Reg>): (p: seq<Instr>)
    ensures |p| == |rs|
  {
    seq(|rs|, k requires 0 <= k < |rs| => Pop(rs[k]))
  }

  /** Pushing saves each register in its own slot, downwards, and changes nothing else. */
  lemma {:induction false} PushesSave(h: Handler, m: Machine, rs: seq<Reg>)
    ensures var e := Run(h, m, Pushes(rs));
            && e.rsp == m.rsp - 8 * |rs| && e.regs == m.regs
            && (forall k :: 0 <= k < |rs| ==> e.mem(m.rsp - 8 * (k + 1)) == m.regs(rs[k]))
            && (forall a :: a >= m.rsp ==> e.mem(a) == m.mem(a))
    decreases |rs|
  {
    if rs != [] {
      var s := Step(h, m, Push(rs[0]));
      assert Pushes(rs)[1..] == Pushes(rs[1..]);
      PushesSave(h, s, rs[1..]);
      var e := Run(h, s, Pushes(rs[1..]));
      forall k | 0 <= k < |rs|
        ensures e.mem(m.rsp - 8 * (k + 1)) == m.regs(rs[k])
      {
        if k > 0 {
          assert rs[1..][k - 1] == rs[k];
          assert e.mem(s.rsp - 8 * (k - 1 + 1)) == s.regs(rs[1..][k - 1]);
        }
      }
    }
  }

  /** Popping distinct registers reads the slots upwards. */
  lemma {:induction false} PopsRestore(h: Handler, m: Machine, rs: seq<Reg>)
    requires forall j, k :: 0 <= j < k < |rs| ==> rs[j] != rs[k]
    ensures var e := Run(h, m, Pops(rs));
            && e.rsp == m.rsp + 8 * |rs| && e.mem == m.mem
            && (forall k :: 0 <= k < |rs| ==> e.regs(rs[k]) == m.mem(m.rsp + 8 * k))
            && (forall r :: r !in rs ==> e.regs(r) == m.regs(r))
    decreases |rs|
  {
    if rs != [] {
      var s := Step(h, m, Pop(rs[0]));
      assert Pops(rs)[1..] == Pops(rs[1..]);
      PopsRestore(h, s, rs[1..]);
      var e := Run(h, s, Pops(rs[1..]));
      assert rs[0] !in rs[1..];
      forall k | 0 <= k < |rs|
        ensures e.regs(rs[k]) == m.mem(m.rsp + 8 * k)
      {
        if k > 0 {
          assert rs[1..][k - 1] == rs[k];
          assert e.regs(rs[1..][k - 1]) == s.mem(s.rsp + 8 * (k - 1));
        }
      }
    }
  }

  lemma RunTwo(h: Handler, m: Machine, a: Instr, b: Instr)
    ensures Run(h, m, [a, b]) == Step(h, Step(h, m, a), b)
  {
    assert [a, b][1..] == [b] && [b][1..] == [];
    assert Run(h, Step(h, m, a), [b]) == Step(h, Step(h, m, a), b);
  }

  function Reverse(rs: seq<Reg>): (r: seq<Reg>)
    ensures |r| == |rs|
  {
    seq(|rs|, k requires 0 <= k < |rs| => rs[|rs| - 1 - k])
  }

  // ---- The stubs, for any list of registers saved after rbp ----------------------

  function Prologue(rs: seq<Reg>): seq<Instr> {
    [Push(RBP), MovRsp(RBP)] + Pushes(rs) + [MovRsp(RDI)]
  }

  function Epilogue(rs: seq<Reg>): seq<Instr> {
    Pops(rs) + [Pop(RBP), AddRsp(16)]
  }

  /** What precedes isr_common in isr_no_err and isr_err. */
  function Entry(vector: Quad, cpuPushesError: bool): seq<Instr> {
    if cpuPushesError then [PushImm(vector)] else [PushImm(0), PushImm(vector)]
  }

  function Stub(pushed: seq<Reg>, popped: seq<Reg>, vector: Quad, cpuPushesError: bool): seq<Instr> {
    Entry(vector, cpuPushesError) + Prologue(pushed) + [Call] + Epilogue(popped)
  }

  /** Where the hardware frame starts: above the error code if the processor pushed one. */
  function Hardware(m: Machine, cpuPushesError: bool): int {
    if cpuPushesError then m.rsp + 8 else m.rsp
  }

  function ErrorCode(m: Machine, cpuPushesError: bool): Quad {
    if cpuPushesError then m.mem(m.rsp) else 0
  }

  /** rdi points at the registers in `popped` order, then rbp, vector and error code, up to the hardware frame. */
  ghost predicate FrameLaidOut(m: Machine, entry: Machine, popped: seq<Reg>, vector: Quad, error: Quad, hardware: int) {
    var n := |popped|;
    && m.regs(RDI) == m.rsp && m.rsp + 8 * (n + 3) == hardware
    && (forall k :: 0 <= k < n ==> m.mem(m.rsp + 8 * k) == entry.regs(popped[k]))
    && m.mem(m.rsp + 8 * n) == entry.regs(RBP)
    && m.mem(m.rsp + 8 * (n + 1)) == vector
    && m.mem(m.rsp + 8 * (n + 2)) == error
    && (forall a :: a >= hardware ==> m.mem(a) == entry.mem(a))
  }

  lemma EntryPushes(h: Handler, m: Machine, vector: Quad, cpuPushesError: bool)
    ensures var e, top := Run(h, m, Entry(vector, cpuPushesError)), Hardware(m, cpuPushesError);
            && e.regs == m.regs && e.rsp == top - 16
            && e.mem(e.rsp) == vector && e.mem(e.rsp + 8) == ErrorCode(m, cpuPushesError)
            && (forall a :: a >= top ==> e.mem(a) == m.mem(a))
  {
    if cpuPushesError {
      assert [PushImm(vector)][1..] == [];
      assert Run(h, m, [PushImm(vector)]) == Step(h, m, PushImm(vector));
    } else {
      RunTwo(h, m, PushImm(0), PushImm(vector));
    }
  }

  lemma PrologueRuns(h: Handler, m: Machine, rs: seq<Reg>)
    ensures Run(h, m, Prologue(rs))
         == Step(h, Run(h, Step(h, Step(h, m, Push(RBP)), MovRsp(RBP)), Pushes(rs)), MovRsp(RDI))
  {
    var first: seq<Instr> := [Push(RBP), MovRsp(RBP)];
    RunTwo(h, m, Push(RBP), MovRsp(RBP));
    RunConcat(h, m, first, Pushes(rs));
    RunConcat(h, m, first + Pushes(rs), [MovRsp(RDI)]);
    var b := Run(h, m, first + Pushes(rs));
    assert [MovRsp(RDI)][1..] == [];
    assert Run(h, b, [MovRsp(RDI)]) == Step(h, b, MovRsp(RDI));
  }

  /** m before the prologue, a once rbp is saved, b once the rest are, e with rdi set. */
  lemma SlotsBelow(m: Machine, a: Machine, b: Machine, e: Machine, rs: seq<Reg>)
    requires RBP !in rs
    requires a.rsp == m.rsp - 8 && a.mem(a.rsp) == m.regs(RBP)
    requires (forall r :: r != RBP ==> a.regs(r) == m.regs(r)) && (forall p :: p >= m.rsp ==> a.mem(p) == m.mem(p))
    requires b.rsp == a.rsp - 8 * |rs| && forall p :: p >= a.rsp ==> b.mem(p) == a.mem(p)
    requires forall k :: 0 <= k < |rs| ==> b.mem(a.rsp - 8 * (k + 1)) == a.regs(rs[k])
    requires e.rsp == b.rsp && e.mem == b.mem
    ensures e.rsp == m.rsp - 8 * (|rs| + 1)
    ensures forall k :: 0 <= k < |rs| ==> e.mem(e.rsp + 8 * k) == m.regs(Reverse(rs)[k])
    ensures e.mem(e.rsp + 8 * |rs|) == m.regs(RBP)
    ensures forall p :: p >= m.rsp ==> e.mem(p) == m.mem(p)
  {
    var n := |rs|;
    forall k | 0 <= k < n
      ensures b.mem(b.rsp + 8 * k) == m.regs(Reverse(rs)[k])
    {
      assert b.mem(a.rsp - 8 * (n - 1 - k + 1)) == a.regs(rs[n - 1 - k]);
    }
  }

  lemma PrologueSaves(h: Handler, m: Machine, rs: seq<Reg>)
    requires RBP !in rs
    ensures var e, n := Run(h, m, Prologue(rs)), |rs|;
            && e.rsp == m.rsp - 8 * (n + 1) && e.regs(RDI) == e.rsp
            && (forall k :: 0 <= k < n ==> e.mem(e.rsp + 8 * k) == m.regs(Reverse(rs)[k]))
            && e.mem(e.rsp + 8 * n) == m.regs(RBP)
            && (forall p :: p >= m.rsp ==> e.mem(p) == m.mem(p))
  {
    var a := Step(h, Step(h, m, Push(RBP)), MovRsp(RBP));
    var b := Run(h, a, Pushes(rs));
    PrologueRuns(h, m, rs);
    PushesSave(h, a, rs);
    SlotsBelow(m, a, b, Step(h, b, MovRsp(RDI)), rs);
  }

  lemma EpilogueRestores(h: Handler, m: Machine, rs: seq<Reg>)
    requires forall j, k :: 0 <= j < k < |rs| ==> rs[j] != rs[k]
    requires RBP !in rs
    ensures var e, n := Run(h, m, Epilogue(rs)), |rs|;
            && e.rsp == m.rsp + 8 * (n + 3) && e.mem == m.mem
            && (forall k :: 0 <= k < n ==> e.regs(rs[k]) == m.mem(m.rsp + 8 * k))
            && e.regs(RBP) == m.mem(m.rsp + 8 * n)
  {
    PopsRestore(h, m, rs);
    RunConcat(h, m, Pops(rs), [Pop(RBP), AddRsp(16)]);
    RunTwo(h, Run(h, m, Pops(rs)), Pop(RBP), AddRsp(16));
  }

  lemma FrameBuilt(h: Handler, m: Machine, rs: seq<Reg>, vector: Quad, cpuPushesError: bool)
    requires RBP !in rs
    ensures FrameLaidOut(Run(h, m, Entry(vector, cpuPushesError) + Prologue(rs)), m, Reverse(rs), vector,
                         ErrorCode(m, cpuPushesError), Hardware(m, cpuPushesError))
  {
    EntryPushes(h, m, vector, cpuPushesError);
    PrologueSaves(h, Run(h, m, Entry(vector, cpuPushesError)), rs);
    RunConcat(h, m, Entry(vector, cpuPushesError), Prologue(rs));
  }

  lemma StubRuns(h: Handler, m: Machine, pushed: seq<Reg>, popped: seq<Reg>, vector: Quad, cpuPushesError: bool)
    ensures Run(h, m, Stub(pushed, popped, vector, cpuPushesError))
         == Run(h, Step(h, Run(h, m, Entry(vector, cpuPushesError) + Prologue(pushed)), Call), Epilogue(popped))
  {
    var down := Entry(vector, cpuPushesError) + Prologue(pushed);
    var c := Run(h, m, down);
    assert [Call][1..] == [] && Run(h, c, [Call]) == Step(h, c, Call);
    RunConcat(h, m, down, [Call]);
    RunConcat(h, m, down + [Call], Epilogue(popped));
  }

  lemma CallKeeps(h: Handler, m: Machine, top: int)
    requires Civil(h, m.PushWord(0), top)
    ensures Step(h, m, Call).rsp == m.rsp && Step(h, m, Call).mem == h(m.PushWord(0)).mem
    ensures forall a :: m.rsp <= a < top ==> Step(h, m, Call).mem(a) == m.mem(a)
  {
  }

  /** rip, cs, rflags, rsp and ss, which the processor pushed and iretq pops. */
  const HARDWARE_FRAME := 40

  /** e is entry m again, as far as the interrupted code can tell. */
  ghost predicate Resumed(m: Machine, e: Machine, rs: seq<Reg>, hardware: int) {
    && e.regs(RBP) == m.regs(RBP)
    && (forall k :: 0 <= k < |rs| ==> e.regs(rs[k]) == m.regs(rs[k]))
    && e.rsp == hardware
    && (forall a :: hardware <= a < hardware + HARDWARE_FRAME ==> e.mem(a) == m.mem(a))
  }

  /** m at entry, c before the call, d after it, e at iretq. */
  lemma FrameUnwound(m: Machine, c: Machine, d: Machine, e: Machine, rs: seq<Reg>, vector: Quad, error: Quad,
                     hardware: int)
    requires FrameLaidOut(c, m, rs, vector, error, hardware)
    requires d.rsp == c.rsp && forall a :: c.rsp <= a < hardware + HARDWARE_FRAME ==> d.mem(a) == c.mem(a)
    requires e.rsp == d.rsp + 8 * (|rs| + 3) && e.mem == d.mem && e.regs(RBP) == d.mem(d.rsp + 8 * |rs|)
    requires forall k :: 0 <= k < |rs| ==> e.regs(rs[k]) == d.mem(d.rsp + 8 * k)
    ensures Resumed(m, e, rs, hardware)
  {
  }

  /** The machine in which the stub's call starts the handler, the return address pushed. */
  function Called(h: Handler, m: Machine, pushed: seq<Reg>, vector: Quad, cpuPushesError: bool): Machine {
    Run(h, m, Entry(vector, cpuPushesError) + Prologue(pushed)).PushWord(0)
  }

  /** Popping in reverse order after a civil handler gives every saved register back. */
  lemma StubRestores(h: Handler, m: Machine, rs: seq<Reg>, vector: Quad, cpuPushesError: bool)
    requires Civil(h, Called(h, m, rs, vector, cpuPushesError), Hardware(m, cpuPushesError) + HARDWARE_FRAME)
    requires RBP !in rs
    requires forall j, k :: 0 <= j < k < |rs| ==> rs[j] != rs[k]
    ensures var e := Run(h, m, Stub(rs, Reverse(rs), vector, cpuPushesError));
            && Resumed(m, e, Reverse(rs), Hardware(m, cpuPushesError))
            && e.mem == h(Called(h, m, rs, vector, cpuPushesError)).mem
  {
    var c := Run(h, m, Entry(vector, cpuPushesError) + Prologue(rs));
    var d, back := Step(h, c, Call), Reverse(rs);
    FrameBuilt(h, m, rs, vector, cpuPushesError);
    CallKeeps(h, c, Hardware(m, cpuPushesError) + HARDWARE_FRAME);
    EpilogueRestores(h, d, back);
    StubRuns(h, m, rs, back, vector, cpuPushesError);
    FrameUnwound(m, c, d, Run(h, d, Epilogue(back)), back, vector, ErrorCode(m, cpuPushesError),
                 Hardware(m, cpuPushesError));
  }

  // ---- What the way down writes ---------------------------------------------------

  lemma {:induction false} PushesBelow(h: Handler, m: Machine, rs: seq<Reg>)
    ensures var e := Run(h, m, Pushes(rs));
            e.rsp == m.rsp - 8 * |rs| && forall a :: a < e.rsp || a >= m.rsp ==> e.mem(a) == m.mem(a)
    decreases |rs|
  {
    if rs != [] {
      assert Pushes(rs)[1..] == Pushes(rs[1..]);
      PushesBelow(h, Step(h, m, Push(rs[0])), rs[1..]);
    }
  }

  lemma EntryBelow(h: Handler, m: Machine, vector: Quad, cpuPushesError: bool)
    ensures var e := Run(h, m, Entry(vector, cpuPushesError));
            e.rsp <= m.rsp && forall a :: a < e.rsp || a >= m.rsp ==> e.mem(a) == m.mem(a)
  {
    if cpuPushesError {
      assert [PushImm(vector)][1..] == [];
      assert Run(h, m, [PushImm(vector)]) == Step(h, m, PushImm(vector));
    } else {
      RunTwo(h, m, PushImm(0), PushImm(vector));
    }
  }

  /** Between the interrupt and the handler's first instruction only the stub's own slots are written. */
  lemma OnlySlotsWritten(h: Handler, m: Machine, rs: seq<Reg>, vector: Quad, cpuPushesError: bool)
    ensures var c := Called(h, m, rs, vector, cpuPushesError);
            forall a :: a < c.rsp || a >= m.rsp ==> c.mem(a) == m.mem(a)
  {
    var e := Run(h, m, Entry(vector, cpuPushesError));
    var a := Step(h, Step(h, e, Push(RBP)), MovRsp(RBP));
    EntryBelow(h, m, vector, cpuPushesError);
    RunConcat(h, m, Entry(vector, cpuPushesError), Prologue(rs));
    PrologueRuns(h, e, rs);
    PushesBelow(h, a, rs);
  }

  // ---- isr_common and struct interrupt_frame --------------------------------------

  /** In the order isr_common pushes them after rbp, and pops them before it. */
  const PUSHED: seq<Reg> := [RAX, RBX, RCX, RDX, RSI, RDI, R8, R9, R10, R11, R12, R13, R14, R15]
  const POPPED: seq<Reg> := [R15, R14, R13, R12, R11, R10, R9, R8, RDI, RSI, RDX, RCX, RBX, RAX]

  lemma Tables()
    ensures POPPED == Reverse(PUSHED) && |PUSHED| == 14 && RBP !in PUSHED
    ensures forall j, k :: 0 <= j < k < |PUSHED| ==> PUSHED[j] != PUSHED[k]
  {
  }

  lemma AllSaved(r: Reg)
    ensures r == RBP || r in POPPED
  {
    assert POPPED[0] == R15 && POPPED[1] == R14 && POPPED[2] == R13 && POPPED[3] == R12 && POPPED[4] == R11
        && POPPED[5] == R10 && POPPED[6] == R9 && POPPED[7] == R8 && POPPED[8] == RDI && POPPED[9] == RSI
        && POPPED[10] == RDX && POPPED[11] == RCX && POPPED[12] == RBX && POPPED[13] == RAX;
  }

  /**
   * Both stub forms hand the handler a frame laid out as struct interrupt_frame: r15 to rax in
   * POPPED order from offset 0, rbp at 8 * 14, vector at 8 * 15, error_code at 8 * 16, and the
   * hardware's rip at 8 * 17.
   */
  lemma HandlerSeesFrame(h: Handler, m: Machine, vector: Quad, cpuPushesError: bool)
    ensures FrameLaidOut(Run(h, m, Entry(vector, cpuPushesError) + Prologue(PUSHED)), m, POPPED, vector,
                         ErrorCode(m, cpuPushesError), Hardware(m, cpuPushesError))
  {
    Tables();
    FrameBuilt(h, m, PUSHED, vector, cpuPushesError);
  }

  /** Field by field, at the offsets of the structure. */
  lemma FrameFields(h: Handler, m: Machine, vector: Quad, cpuPushesError: bool)
    ensures var c := Run(h, m, Entry(vector, cpuPushesError) + Prologue(PUSHED));
            var f := c.regs(RDI);
            && c.mem(f) == m.regs(R15) && c.mem(f + 8) == m.regs(R14) && c.mem(f + 16) == m.regs(R13)
            && c.mem(f + 24) == m.regs(R12) && c.mem(f + 32) == m.regs(R11) && c.mem(f + 40) == m.regs(R10)
            && c.mem(f + 48) == m.regs(R9) && c.mem(f + 56) == m.regs(R8) && c.mem(f + 64) == m.regs(RDI)
            && c.mem(f + 72) == m.regs(RSI) && c.mem(f + 80) == m.regs(RDX) && c.mem(f + 88) == m.regs(RCX)
            && c.mem(f + 96) == m.regs(RBX) && c.mem(f + 104) == m.regs(RAX) && c.mem(f + 112) == m.regs(RBP)
            && c.mem(f + 120) == vector && c.mem(f + 128) == (if cpuPushesError then m.mem(m.rsp) else 0)
            && f + 136 == if cpuPushesError then m.rsp + 8 else m.rsp
  {
    HandlerSeesFrame(h, m, vector, cpuPushesError);
    var c := Run(h, m, Entry(vector, cpuPushesError) + Prologue(PUSHED));
    forall k | 0 <= k < 14
      ensures c.mem(c.rsp + 8 * k) == m.regs(POPPED[k])
    {
    }
    FrameOrder(m, c.mem, c.rsp);
  }

  lemma FrameOrder(m: Machine, mem: int -> Quad, f: int)
    requires forall k :: 0 <= k < 14 ==> mem(f + 8 * k) == m.regs(POPPED[k])
    ensures mem(f) == m.regs(R15) && mem(f + 8) == m.regs(R14) && mem(f + 16) == m.regs(R13)
    ensures mem(f + 24) == m.regs(R12) && mem(f + 32) == m.regs(R11) && mem(f + 40) == m.regs(R10)
    ensures mem(f + 48) == m.regs(R9) && mem(f + 56) == m.regs(R8) && mem(f + 64) == m.regs(RDI)
    ensures mem(f + 72) == m.regs(RSI) && mem(f + 80) == m.regs(RDX) && mem(f + 88) == m.regs(RCX)
    ensures mem(f + 96) == m.regs(RBX) && mem(f + 104) == m.regs(RAX)
  {
    assert mem(f + 8 * 0) == m.regs(POPPED[0]) && mem(f + 8 * 1) == m.regs(POPPED[1]);
    assert mem(f + 8 * 2) == m.regs(POPPED[2]) && mem(f + 8 * 3) == m.regs(POPPED[3]);
    assert mem(f + 8 * 4) == m.regs(POPPED[4]) && mem(f + 8 * 5) == m.regs(POPPED[5]);
    assert mem(f + 8 * 6) == m.regs(POPPED[6]) && mem(f + 8 * 7) == m.regs(POPPED[7]);
    assert mem(f + 8 * 8) == m.regs(POPPED[8]) && mem(f + 8 * 9) == m.regs(POPPED[9]);
    assert mem(f + 8 * 10) == m.regs(POPPED[10]) && mem(f + 8 * 11) == m.regs(POPPED[11]);
    assert mem(f + 8 * 12) == m.regs(POPPED[12]) && mem(f + 8 * 13) == m.regs(POPPED[13]);
  }

  /**
   * Interrupt transparency: at iretq every register is back, rsp is at the hardware frame, which is
   * intact, and all of memory is as the handler left it.
   */
  lemma Transparent(h: Handler, m: Machine, vector: Quad, cpuPushesError: bool)
    requires Civil(h, Called(h, m, PUSHED, vector, cpuPushesError), Hardware(m, cpuPushesError) + HARDWARE_FRAME)
    ensures var e := Run(h, m, Stub(PUSHED, POPPED, vector, cpuPushesError));
            && (forall r :: e.regs(r) == m.regs(r))
            && e.rsp == Hardware(m, cpuPushesError)
            && (forall a :: e.rsp <= a < e.rsp + HARDWARE_FRAME ==> e.mem(a) == m.mem(a))
            && e.mem == h(Called(h, m, PUSHED, vector, cpuPushesError)).mem
  {
    Tables();
    StubRestores(h, m, PUSHED, vector, cpuPushesError);
    forall r: Reg
      ensures Run(h, m, Stub(PUSHED, POPPED, vector, cpuPushesError)).regs(r) == m.regs(r)
    {
      AllSaved(r);
    }
  }

  /** A handler that changes one variable of the kernel, as timer_handler does. */
  function Updates(at: int, f: Quad -> Quad): Handler {
    (m: Machine) =>
      var mem := m.mem;
      m.(mem := a => if a == at then f(mem(a)) else mem(a))
  }

  /** Where the stub and the hardware keep what the interrupt needs. */
  predicate InUse(m: Machine, at: int, cpuPushesError: bool) {
    var hardware := Hardware(m, cpuPushesError);
    hardware - 8 * (|PUSHED| + 4) <= at < hardware + HARDWARE_FRAME
  }

  /**
   * An interrupt whose handler updates a kernel variable does that and nothing else: registers, rsp and
   * all memory outside the stub's slots are as before, save for that variable.
   */
  lemma OnlyUpdates(at: int, f: Quad -> Quad, m: Machine, vector: Quad, cpuPushesError: bool)
    requires !InUse(m, at, cpuPushesError)
    ensures var e := Run(Updates(at, f), m, Stub(PUSHED, POPPED, vector, cpuPushesError));
            && (forall r :: e.regs(r) == m.regs(r))
            && e.rsp == Hardware(m, cpuPushesError)
            && (forall a :: !InUse(m, a, cpuPushesError) ==> e.mem(a) == if a == at then f(m.mem(a)) else m.mem(a))
  {
    var h := Updates(at, f);
    FrameBuilt(h, m, PUSHED, vector, cpuPushesError);
    Tables();
    OnlySlotsWritten(h, m, PUSHED, vector, cpuPushesError);
    Transparent(h, m, vector, cpuPushesError);
  }

  /** The processor stepping through a stub. */
  class Processor {
    var regs: Reg -> Quad
    var rsp: int
    var mem: int -> Quad

    function State(): Machine
      reads this
    {
      Machine(regs, rsp, mem)
    }

    constructor (m: Machine)
      ensures State() == m
    {
      regs, rsp, mem := m.regs, m.rsp, m.mem;
    }

    method Execute(h: Handler, p: seq<Instr>)
      modifies this
      ensures State() == Run(h, old(State()), p)
    {
      var i := 0;
      assert p[0..] == p;
      while i < |p|
        invariant 0 <= i <= |p|
        invariant Run(h, State(), p[i..]) == Run(h, old(State()), p)
      {
        assert p[i..][0] == p[i] && p[i..][1..] == p[i + 1..];
        var next := Step(h, State(), p[i]);
        regs, rsp, mem := next.regs, next.rsp, next.mem;
        i := i + 1;
      }
    }

    /** An interrupt taken and returned from: rsp at iretq is where the hardware frame starts. */
    method TakeInterrupt(h: Handler, vector: Quad, cpuPushesError: bool)
      requires Civil(h, Called(h, State(), PUSHED, vector, cpuPushesError),
                     Hardware(State(), cpuPushesError) + HARDWARE_FRAME)
      modifies this
      ensures forall r :: regs(r) == old(regs)(r)
      ensures rsp == old(Hardware(State(), cpuPushesError))
      ensures forall a :: rsp <= a < rsp + HARDWARE_FRAME ==> mem(a) == old(mem)(a)
      ensures mem == h(old(Called(h, State(), PUSHED, vector, cpuPushesError))).mem
    {
      Transparent(h, State(), vector, cpuPushesError);
      Execute(h, Stub(PUSHED, POPPED, vector, cpuPushesError));
    }
  }
}
