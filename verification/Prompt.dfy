/** The shell from start-up on, turn after turn: kmain of kernel/kernel.c and kernel_shell of kernel/shell.c. */
module Prompt {
  import opened Ata
  import opened Bytes
  import opened Commands
  import opened Directory
  import opened Fat
  import Keyboard
  import opened LineEditor
  import opened Messages
  import opened Reports
  import opened Screen
  import opened Session
  import opened Shell
  import opened ShellRun
  import opened Tar
  import opened TarHeader
  import opened TarWalk
  import opened TextGrid
  import opened Typing
  import opened Undo

  const MAGENTA: Pixel := 0xFF00FF

  /** What gdt_init, idt_init and kmain report, in this order. */
  function Loaded(gdt: Line, idt: Line, enabled: Line): seq<Report> {
    [Report(gdt, GREEN), Report(idt, GREEN), Report(enabled, GREEN)]
  }

  function MotdReports(motd: Option<seq<byte>>): seq<Report> {
    match motd
    case None => []
    case Some(data) => [Report(NonNul(data), MAGENTA), Report([NEWLINE], WHITE)]
  }

  /** What is printed before the shell starts. */
  function Greeting(motd: Option<seq<byte>>): seq<Report> {
    Loaded(GDT_LOADED, IDT_LOADED, INTERRUPTS) + MotdReports(motd)
  }

  /** The console as the shell is started. */
  ghost function Started(g: Geometry, s: Console, motd: Option<seq<byte>>): Console
    requires g.Valid()
  {
    Show(g, Cleared(g, s, BLACK), Greeting(motd))
  }

  /** The message of the day is what the image has under the name "./motd.txt". */
  ghost predicate IsMotd(img: seq<byte>, motd: Option<seq<byte>>) {
    match motd
    case None => Ends(img) && PassesUpTo(img, MOTD, Length(img))
    case Some(data) =>
      exists k: nat :: Hit(img, MOTD, k) && data == Taken(img, Nth(img, k) + BLOCK, SizeAt(img, Nth(img, k)))
  }

  method PrintMotd(display: Display, img: seq<byte>, p: nat, size: nat)
    requires display.Valid()
    modifies display, display.fb
    ensures display.Valid()
    ensures display.State() == Show(display.geo, old(display.State()), MotdReports(Some(Taken(img, p, size))))
  {
    ghost var g, s := display.geo, display.State();
    TextWhole([NEWLINE]);
    PrintEach(display, Taken(img, p, size), MAGENTA);
    display.Kprint([NEWLINE], WHITE);
    ShowTwo(g, s, Report(NonNul(Taken(img, p, size)), MAGENTA), Report([NEWLINE], WHITE));
  }

  /** From gdt_init to the line that says that interrupts are on. */
  method SetUp(display: Display, reader: Reader, driver: Keyboard.Driver, enUs: Keyboard.Layout,
               gdt: Line, idt: Line, enabled: Line)
    requires display.Valid() && reader.Valid()
    requires reader.bootSector as object != display.fb && reader.drive as object != display
    modifies display, display.fb, reader.drive, reader.bootSector, driver`currentLayout
    ensures display.Valid()
    ensures display.State() == Show(display.geo, old(display.State()), Loaded(gdt, idt, enabled))
    ensures reader.Boot() == reader.drive.disk(0) && driver.currentLayout == enUs
  {
    ghost var s, all := display.State(), Loaded(gdt, idt, enabled);
    TextWhole(gdt);
    TextWhole(idt);
    TextWhole(enabled);
    Say(display, gdt, GREEN, s, all, 0);
    Say(display, idt, GREEN, s, all, 1);
    reader.Init();
    driver.Init(enUs);
    Say(display, enabled, GREEN, s, all, 2);
    assert all[..3] == all;
  }

  /** kmain up to the shell, with a ramdisk on which the look-up of the message returns. */
  method Start(display: Display, reader: Reader, driver: Keyboard.Driver, layouts: Layouts, img: seq<byte>)
    returns (ghost motd: Option<seq<byte>>)
    requires display.Valid() && reader.Valid()
    requires reader.bootSector as object != display.fb && reader.drive as object != display
    requires exists n: nat :: Settles(img, MOTD, n)
    modifies display, display.fb, reader.drive, reader.bootSector, driver`currentLayout
    ensures display.Valid()
    ensures IsMotd(img, motd)
    ensures display.State() == Started(display.geo, old(display.State()), motd)
    ensures reader.Boot() == reader.drive.disk(0) && driver.currentLayout == layouts.enUs
  {
    display.Clear(BLACK);
    ghost var g, s := display.geo, display.State();
    SetUp(display, reader, driver, layouts.enUs, GDT_LOADED, IDT_LOADED, INTERRUPTS);
    motd := FindMotd(display, img);
    ShowConcat(g, s, Loaded(GDT_LOADED, IDT_LOADED, INTERRUPTS), MotdReports(motd));
  }

  /** The message of the day, if there is one. */
  method FindMotd(display: Display, img: seq<byte>) returns (ghost motd: Option<seq<byte>>)
    requires display.Valid()
    requires exists n: nat :: Settles(img, MOTD, n)
    modifies display, display.fb
    ensures display.Valid()
    ensures IsMotd(img, motd)
    ensures display.State() == Show(display.geo, old(display.State()), MotdReports(motd))
  {
    TextWhole(MOTD);
    var data, size := GetFile(img, MOTD);
    motd := None;
    if data.Some? {
      PrintMotd(display, img, data.value, size);
      motd := Some(Taken(img, data.value, size));
    }
  }

  // ---- Every prompt of every session -------------------------------------------------

  /** The screens before the prompts of a session, and after reboot if it ends so: the first is that of start-up. */
  ghost predicate Prompts(g: Geometry, screens: seq<Console>)
    requires g.Valid()
  {
    && Turns(g, screens)
    && exists s: Console, motd: Option<seq<byte>> :: Sound(g, s) && screens[0] == Started(g, s, motd)
  }

  /** The root directory sector of a disk. */
  ghost function RootOf(disk: Disk): Sector {
    disk(RootLba(disk(0)) % LBA28)
  }

  /** kmain and the shell it starts, on one keyboard stream: its screens are those of a session. */
  method Kmain(display: Display, reader: Reader, driver: Keyboard.Driver, layouts: Layouts, img: seq<byte>,
               input: array<byte>, polls: seq<byte>, behind: seq<byte>, clock: nat -> u64)
    returns (ghost motd: Option<seq<byte>>, ghost session: seq<Situation>)
    requires display.Valid() && reader.Valid() && input.Length == LINE_MAX
    requires reader.bootSector as object != display.fb && reader.drive as object != display
    requires input as object != display.fb && input != reader.bootSector
    requires exists n: nat :: Settles(img, MOTD, n)
    requires AllLines(ReadableOn(reader.drive.disk(0), RootOf(reader.drive.disk)), Streams(polls), LINE_MAX)
    modifies display, display.fb, reader.drive, reader.bootSector, driver`currentLayout, input
    ensures display.Valid() && IsMotd(img, motd)
    ensures session ==
            Course(display.geo, layouts,
                   Store(reader.drive.disk, reader.drive.disk(0), RootOf(reader.drive.disk), behind), clock,
                   Situation(0, Started(display.geo, old(display.State()), motd), layouts.enUs), Streams(polls))
    ensures |session| > 0 && session[|session| - 1].screen == display.State()
    ensures Prompts(display.geo, ScreensOf(session))
  {
    ghost var s := display.State();
    motd := Start(display, reader, driver, layouts, img);
    CourseTurns(display.geo, layouts, Store(reader.drive.disk, reader.Boot(), reader.Root(), behind), clock,
                Situation(0, display.State(), driver.currentLayout), Streams(polls));
    session := KernelShell(display, reader, driver, layouts, input, polls, behind, clock);
    assert Sound(display.geo, s) && ScreensOf(session)[0] == Started(display.geo, s, motd);
  }

  /** Without a message of the day, start-up leaves three lines on the cleared screen. */
  lemma StartedText(g: Geometry, s: Console)
    requires g.Valid()
    ensures Started(g, s, None) ==
            Print(g, Cleared(g, s, 0x000000),
                  Ascii("GDT Loaded.\n") + Ascii("IDT Loaded.\n") + Ascii("Interrupts enabled.\n"), 0x00FF00)
  {
    var c, all := Cleared(g, s, BLACK), Greeting(None);
    ShowMore(g, c, all, 0);
    ShowMore(g, c, all, 1);
    ShowMore(g, c, all, 2);
    ShowEnds(g, c, all);
    PrintConcat(g, c, GDT_LOADED, IDT_LOADED, GREEN);
    PrintConcat(g, c, GDT_LOADED + IDT_LOADED, INTERRUPTS, GREEN);
  }

  /** The message of the day comes after that, in magenta and without its NULs, on lines of its own. */
  lemma StartedMotd(g: Geometry, s: Console, data: seq<byte>)
    requires g.Valid()
    ensures Started(g, s, Some(data)) ==
            Print(g, Print(g, Started(g, s, None), NonNul(data), 0xFF00FF), [10], 0xFFFFFF)
  {
    var c, before := Cleared(g, s, BLACK), Greeting(None);
    ShowSnoc(g, c, before, NonNul(data), MAGENTA);
    ShowSnoc(g, c, before + [Report(NonNul(data), MAGENTA)], [NEWLINE], WHITE);
    assert Greeting(Some(data)) == before + [Report(NonNul(data), MAGENTA)] + [Report([NEWLINE], WHITE)];
  }

  lemma StartedReached(g: Geometry, s: Console, motd: Option<seq<byte>>)
    requires Sound(g, s)
    ensures Reached(g, Started(g, s, motd)) && Started(g, s, motd).cx == 0
  {
    ReachedClear(g, s);
    ShowReached(g, Cleared(g, s, BLACK), Greeting(motd));
    GreetingEndsLine(motd);
    EndsLineColumn(g, Cleared(g, s, BLACK), Greeting(motd));
  }

  lemma GreetingEndsLine(motd: Option<seq<byte>>)
    ensures EndsLine(Greeting(motd))
  {
  }

  lemma AnsweredReached(g: Geometry, s: Console, keys: seq<byte>)
    requires g.Valid() && Reached(g, s)
    ensures Reached(g, Answered(g, s, keys)) && Answered(g, s, keys).cx == 0
  {
    var p := Print(g, s, PROMPT, WHITE);
    ReachedPrint(g, s, PROMPT, WHITE);
    ReachedEcho(g, p, keys, LINE_MAX);
    var e := Echo(g, p, keys, LINE_MAX);
    ReachedRun(g, e, [Char(NEWLINE, WHITE)]);
    RunOne(g, e, Char(NEWLINE, WHITE));
  }

  lemma RunOne(g: Geometry, s: Console, op: Op)
    requires g.Valid()
    ensures Run(g, s, [op]) == Do(g, s, op)
  {
    assert [op][1..] == [];
  }

  lemma ReachedSound(g: Geometry, s: Console)
    requires g.Valid() && Reached(g, s)
    ensures Sound(g, s)
  {
    var s0, ops :| Sound(g, s0) && BlackWipes(ops) && s == Run(g, s0, [Wipe(BLACK)] + ops);
    RunSound(g, s0, [Wipe(BLACK)] + ops);
  }

  /** A turn leads from a reached prompt to a reached prompt, with the cursor at the start of a row. */
  lemma TurnedReached(g: Geometry, s: Console, t: Console)
    requires g.Valid() && Reached(g, s) && Turned(g, s, t)
    ensures Reached(g, t) && t.cx == 0
  {
    var keys, facts :| t == Outcome(g, Answered(g, s, keys), Edit(keys, LINE_MAX), facts);
    var line := Edit(keys, LINE_MAX);
    var a := Answered(g, s, keys);
    AnsweredReached(g, s, keys);
    ReachedSound(g, a);
    if line != [] {
      match CommandOf(line)
      case None =>
        ShowReached(g, a, Complaint(Word(line)));
        EndsLineColumn(g, a, Complaint(Word(line)));
      case Some(n) =>
        RanReached(g, a, n, Arguments(line), facts);
    }
  }

  lemma {:induction false} PromptReached(g: Geometry, screens: seq<Console>, k: nat)
    requires g.Valid() && Prompts(g, screens) && k < |screens|
    ensures Reached(g, screens[k]) && screens[k].cx == 0
    decreases k
  {
    if k == 0 {
      var s, motd :| Sound(g, s) && screens[0] == Started(g, s, motd);
      StartedReached(g, s, motd);
    } else {
      PromptReached(g, screens, k - 1);
      TurnedReached(g, screens[k - 1], screens[k]);
    }
  }

  lemma PromptFits(g: Geometry, s: Console)
    requires Sound(g, s) && s.cx == 0
    ensures var p := Print(g, s, PROMPT, WHITE);
            OnScreen(g, p) && p.cx + LINE_MAX - 1 <= g.Columns() <==> OnScreen(g, s) && g.Columns() >= 129
  {
    if !OnScreen(g, s) {
      PrintNowhere(g, s, PROMPT, WHITE);
    } else if g.Columns() >= 2 {
      PrintFits(g, s, PROMPT, WHITE);
    } else {
      PrintSound(g, s, PROMPT, WHITE);
      assert 0 <= Print(g, s, PROMPT, WHITE).cx;
    }
  }

  /**
   * At every prompt of every session, buffer and screen agree for all keys exactly when the prompt
   * is still on the screen and the screen is at least 129 characters wide.
   */
  lemma PromptInStepIff(g: Geometry, screens: seq<Console>, k: nat)
    requires g.Valid() && (g.stride == g.width || g.height <= 1)
    requires Prompts(g, screens) && k < |screens|
    ensures (forall keys :: NEWLINE !in keys ==> InStep(g, Print(g, screens[k], PROMPT, WHITE), keys, LINE_MAX))
       <==> OnScreen(g, screens[k]) && g.Columns() >= 129
  {
    PromptReached(g, screens, k);
    ReachedSound(g, screens[k]);
    ReachedPrint(g, screens[k], PROMPT, WHITE);
    ReachedInStepIff(g, Print(g, screens[k], PROMPT, WHITE), LINE_MAX);
    PromptFits(g, screens[k]);
  }

  /**
   * What a line read at such a prompt leaves: "> " and the edited line stand on its row in white,
   * every other pixel is as it was, and the cursor is at the start of the next row.
   */
  lemma LineShown(g: Geometry, s: Console, keys: seq<byte>)
    requires g.Valid() && (g.stride == g.width || g.height <= 1)
    requires Reached(g, s) && s.cx == 0 && OnScreen(g, s) && g.Columns() >= 129
    requires NEWLINE !in keys
    ensures s.cy >= 0
    ensures Answered(g, s, keys) ==
            Console(0, s.cy + 16, DrawSpan(g, s.px, 0, s.cy, Ascii("> ") + Edit(keys, 128), 0xFFFFFF))
  {
    var p, line := Print(g, s, PROMPT, WHITE), Edit(keys, LINE_MAX);
    ReachedSound(g, s);
    PrintFits(g, s, PROMPT, WHITE);
    ReachedPrint(g, s, PROMPT, WHITE);
    ReachedSpanBlack(g, p, LINE_MAX - 1);
    InStepWhenBlack(g, p, keys, LINE_MAX);
    DrawSpanConcat(g, s.px, 0, s.cy, PROMPT, line, WHITE);
    assert PROMPT == Ascii("> ");
  }

  /** So it is at every prompt of every session on such a screen, for as long as the prompt's row is visible. */
  lemma PromptLineShown(g: Geometry, screens: seq<Console>, k: nat, keys: seq<byte>)
    requires g.Valid() && (g.stride == g.width || g.height <= 1)
    requires Prompts(g, screens) && k < |screens|
    requires OnScreen(g, screens[k]) && g.Columns() >= 129 && NEWLINE !in keys
    ensures screens[k].cy >= 0
    ensures Answered(g, screens[k], keys) ==
            Console(0, screens[k].cy + 16,
                    DrawSpan(g, screens[k].px, 0, screens[k].cy, Ascii("> ") + Edit(keys, 128), 0xFFFFFF))
  {
    PromptReached(g, screens, k);
    LineShown(g, screens[k], keys);
  }
}
