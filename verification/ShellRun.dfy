/** The loop of kernel_shell: one keyboard stream, turn after turn. */
module ShellRun {
  import opened Ata
  import opened Bytes
  import opened Commands
  import opened Directory
  import opened Fat
  import Keyboard
  import opened LineEditor
  import opened Messages
  import opened Screen
  import opened Session
  import opened Shell
  import opened Typing

  /** What cat and ls read, and what lies behind cat's buffer. */
  datatype Store = Store(disk: Disk, boot: Sector, root: Sector, behind: seq<byte>)

  /** What a turn changes; `turn` counts the turns. */
  datatype Situation = Situation(turn: nat, screen: Console, layout: Keyboard.Layout)

  /** The screen after the keys of one line at the prompt of screen s. */
  ghost function NextScreen(g: Geometry, s: Console, keys: seq<byte>, store: Store, ticks: u64): Console
    requires g.Valid()
  {
    var line := Edit(keys, LINE_MAX);
    Outcome(g, Answered(g, s, keys), line,
            FactsOf(store.disk, store.boot, store.root, Arguments(line), store.behind, ticks))
  }

  /** A turn, on the keys of one line; `clock` says how many ticks there have been at each turn. */
  ghost function Next(g: Geometry, layouts: Layouts, store: Store, clock: nat -> u64):
    (Situation, KeyLine) -> Situation
    requires g.Valid()
  {
    (x: Situation, line: KeyLine) =>
      Situation(x.turn + 1, NextScreen(g, x.screen, line.keys, store, clock(x.turn)),
                LayoutAfter(layouts, x.layout, Edit(line.keys, LINE_MAX)))
  }

  /** The line asks for reboot, which does not return. */
  function Reboots(): KeyLine -> bool {
    (line: KeyLine) => CommandOf(Edit(line.keys, LINE_MAX)) == Some(REBOOT)
  }

  /** A run from situation x on these lines: at each prompt, and after reboot. */
  ghost function Course(g: Geometry, layouts: Layouts, store: Store, clock: nat -> u64, x: Situation,
                        streams: seq<KeyLine>): (session: seq<Situation>)
    requires g.Valid()
    ensures session != [] && session[0] == x
  {
    LineTrail(Next(g, layouts, store, clock), Reboots(), x, streams)
  }

  function ScreensOf(session: seq<Situation>): (screens: seq<Console>)
    ensures |screens| == |session|
  {
    seq(|session|, k requires 0 <= k < |session| => session[k].screen)
  }

  /** Polls that find no key change neither the line nor the screen. */
  lemma NextScreenNonNul(g: Geometry, s: Console, keys: seq<byte>, store: Store, ticks: u64)
    requires g.Valid()
    ensures NextScreen(g, s, NonNul(keys), store, ticks) == NextScreen(g, s, keys, store, ticks)
  {
    EditNonNul(keys, LINE_MAX);
    EchoNonNul(g, Print(g, s, PROMPT, WHITE), keys, LINE_MAX);
  }

  lemma NextTurned(g: Geometry, s: Console, keys: seq<byte>, store: Store, ticks: u64)
    requires g.Valid()
    ensures Turned(g, s, NextScreen(g, s, keys, store, ticks))
  {
    var line := Edit(keys, LINE_MAX);
    var facts := FactsOf(store.disk, store.boot, store.root, Arguments(line), store.behind, ticks);
    assert NextScreen(g, s, keys, store, ticks) == Outcome(g, Answered(g, s, keys), line, facts);
  }

  /** A run goes from prompt to prompt. */
  lemma CourseTurns(g: Geometry, layouts: Layouts, store: Store, clock: nat -> u64, x: Situation,
                    streams: seq<KeyLine>)
    requires g.Valid()
    ensures Turns(g, ScreensOf(Course(g, layouts, store, clock, x, streams)))
  {
    var session := Course(g, layouts, store, clock, x, streams);
    LineTrailSteps(Next(g, layouts, store, clock), Reboots(), x, streams);
    forall k | 0 < k < |session|
      ensures Turned(g, ScreensOf(session)[k - 1], ScreensOf(session)[k])
    {
      NextTurned(g, session[k - 1].screen, streams[k - 1].keys, store, clock(session[k - 1].turn));
    }
  }

  /** A file that the line asks cat for can be located. */
  ghost function ReadableOn(boot: Sector, root: Sector): seq<byte> -> bool {
    (line: seq<byte>) => Readable(boot, root, line)
  }

  /** A turn on the keys left. */
  method NextTurn(display: Display, reader: Reader, driver: Keyboard.Driver, layouts: Layouts, input: array<byte>,
                  rest: seq<byte>, behind: seq<byte>, clock: nat -> u64, turn: nat)
    returns (command: Option<nat>, used: nat)
    requires display.Valid() && reader.Valid() && input.Length == LINE_MAX
    requires reader.bootSector as object != display.fb && reader.drive as object != display
    requires input as object != display.fb && input != reader.bootSector
    requires NEWLINE in rest && ReadableOn(reader.Boot(), reader.Root())(LineOf(rest, LINE_MAX))
    modifies display, display.fb, reader.drive, driver`currentLayout, input
    ensures display.Valid() && used == FirstNewline(rest) + 1
    ensures reader.Boot() == old(reader.Boot()) && reader.Root() == old(reader.Root())
    ensures command == Some(REBOOT) <==> Reboots()(KeyLine(FirstLine(rest)))
    ensures Situation(turn + 1, display.State(), driver.currentLayout) ==
            Next(display.geo, layouts, Store(reader.drive.disk, old(reader.Boot()), old(reader.Root()), behind), clock)
              (Situation(turn, old(display.State()), old(driver.currentLayout)), KeyLine(FirstLine(rest)))
  {
    command, used := Turn(display, reader, driver, layouts, input, rest, behind, clock(turn));
  }

  /** A turn of a run that has passed through `done` and is `all` in the end; false after reboot. */
  method RunTurn(display: Display, reader: Reader, driver: Keyboard.Driver, layouts: Layouts, input: array<byte>,
                 rest: seq<byte>, behind: seq<byte>, clock: nat -> u64, turn: nat, ghost done: seq<Situation>,
                 ghost all: seq<Situation>)
    returns (goesOn: bool, used: nat)
    requires display.Valid() && reader.Valid() && input.Length == LINE_MAX
    requires reader.bootSector as object != display.fb && reader.drive as object != display
    requires input as object != display.fb && input != reader.bootSector
    requires NEWLINE in rest
    requires AllLines(ReadableOn(reader.Boot(), reader.Root()), Streams(rest), LINE_MAX)
    requires all == done + LineTrail(
               Next(display.geo, layouts, Store(reader.drive.disk, reader.Boot(), reader.Root(), behind), clock),
               Reboots(), Situation(turn, display.State(), driver.currentLayout), Streams(rest))
    modifies display, display.fb, reader.drive, driver`currentLayout, input
    ensures display.Valid() && 0 < used <= |rest|
    ensures reader.Boot() == old(reader.Boot()) && reader.Root() == old(reader.Root())
    ensures AllLines(ReadableOn(reader.Boot(), reader.Root()), Streams(rest[used..]), LINE_MAX)
    ensures var before := done + [Situation(turn, old(display.State()), old(driver.currentLayout))];
            var x := Situation(turn + 1, display.State(), driver.currentLayout);
            var store := Store(reader.drive.disk, reader.Boot(), reader.Root(), behind);
            var next := Next(display.geo, layouts, store, clock);
            all == before + if goesOn then LineTrail(next, Reboots(), x, Streams(rest[used..])) else [x]
  {
    ghost var x, boot, root := Situation(turn, display.State(), driver.currentLayout), reader.Boot(), reader.Root();
    AllLinesFirst(ReadableOn(boot, root), rest, LINE_MAX);
    var command;
    command, used := NextTurn(display, reader, driver, layouts, input, rest, behind, clock, turn);
    goesOn := command != Some(REBOOT);
    LineTrailNext(Next(display.geo, layouts, Store(reader.drive.disk, boot, root, behind), clock), Reboots(), done, x,
                  Situation(turn + 1, display.State(), driver.currentLayout), rest, goesOn);
  }

  /** For as long as there are keys for another line, and until reboot. */
  method KernelShell(display: Display, reader: Reader, driver: Keyboard.Driver, layouts: Layouts, input: array<byte>,
                     polls: seq<byte>, behind: seq<byte>, clock: nat -> u64)
    returns (ghost session: seq<Situation>)
    requires display.Valid() && reader.Valid() && input.Length == LINE_MAX
    requires reader.bootSector as object != display.fb && reader.drive as object != display
    requires input as object != display.fb && input != reader.bootSector
    requires AllLines(ReadableOn(reader.Boot(), reader.Root()), Streams(polls), LINE_MAX)
    modifies display, display.fb, reader.drive, driver`currentLayout, input
    ensures display.Valid()
    ensures session ==
            Course(display.geo, layouts, Store(reader.drive.disk, old(reader.Boot()), old(reader.Root()), behind),
                   clock, Situation(0, old(display.State()), old(driver.currentLayout)), Streams(polls))
    ensures |session| > 0 && session[|session| - 1].screen == display.State()
    ensures session[|session| - 1].layout == driver.currentLayout
  {
    ghost var store := Store(reader.drive.disk, reader.Boot(), reader.Root(), behind);
    ghost var next := Next(display.geo, layouts, store, clock);
    ghost var x := Situation(0, display.State(), driver.currentLayout);
    ghost var all := LineTrail(next, Reboots(), x, Streams(polls));
    var rest, turn := polls, 0;
    session := [];
    while NEWLINE in rest
      invariant display.Valid() && reader.Boot() == store.boot && reader.Root() == store.root
      invariant AllLines(ReadableOn(store.boot, store.root), Streams(rest), LINE_MAX)
      invariant x == Situation(turn, display.State(), driver.currentLayout)
      invariant all == session + LineTrail(next, Reboots(), x, Streams(rest))
      decreases |rest|
    {
      var goesOn, used := RunTurn(display, reader, driver, layouts, input, rest, behind, clock, turn, session, all);
      turn := turn + 1;
      session := session + [x];
      x := Situation(turn, display.State(), driver.currentLayout);
      if !goesOn {
        session := session + [x];
        return;
      }
      rest := rest[used..];
    }
    session := session + [x];
  }

  /** Polls that find no key leave no trace in a run. */
  lemma CourseNonNul(g: Geometry, layouts: Layouts, store: Store, clock: nat -> u64, x: Situation,
                     streams: seq<KeyLine>)
    requires g.Valid()
    ensures Course(g, layouts, store, clock, x, Squeezed(streams)) == Course(g, layouts, store, clock, x, streams)
  {
    var next := Next(g, layouts, store, clock);
    forall k | 0 <= k < |streams|
      ensures Reboots()(Squeezed(streams)[k]) == Reboots()(streams[k])
      ensures forall x :: next(x, Squeezed(streams)[k]) == next(x, streams[k])
    {
      KeysNonNul(g, layouts, store, clock, streams[k].keys);
    }
    LineTrailSame(next, Reboots(), x, Squeezed(streams), streams);
  }

  lemma KeysNonNul(g: Geometry, layouts: Layouts, store: Store, clock: nat -> u64, keys: seq<byte>)
    requires g.Valid()
    ensures Reboots()(KeyLine(NonNul(keys))) == Reboots()(KeyLine(keys))
    ensures forall x :: Next(g, layouts, store, clock)(x, KeyLine(NonNul(keys)))
                     == Next(g, layouts, store, clock)(x, KeyLine(keys))
  {
    EditNonNul(keys, LINE_MAX);
    forall x: Situation
      ensures Next(g, layouts, store, clock)(x, KeyLine(NonNul(keys))) ==
              Next(g, layouts, store, clock)(x, KeyLine(keys))
    {
      NextScreenNonNul(g, x.screen, keys, store, clock(x.turn));
    }
  }

  /** The lines the scancodes of a run spell, but for one whose newline is still on its way. */
  ghost function Entered(layout: Keyboard.Layout, steps: seq<Keyboard.Step>): seq<KeyLine>
    requires Keyboard.Runs(layout, steps)
  {
    var typed := TypedStreams(layout, steps);
    if Keyboard.InFlight(Keyboard.After(layout, steps)) == [NEWLINE] && typed != [] then typed[..|typed| - 1] else typed
  }

  lemma EnteredIsRead(layout: Keyboard.Layout, steps: seq<Keyboard.Step>)
    requires Keyboard.Runs(layout, steps) && Keyboard.Losses(layout, steps) == 0
    ensures Entered(layout, steps) == Squeezed(Streams(Keyboard.After(layout, steps).returned))
  {
    ScancodesToLines(layout, steps);
  }

  /**
   * A whole session from one stream of scancodes, delivered without loss, whatever the interleaving:
   * the lines that the scancodes spell decide every screen and the layout, with no trace of the polls.
   */
  method TypeSession(display: Display, reader: Reader, driver: Keyboard.Driver, layouts: Layouts, input: array<byte>,
                     polls: seq<byte>, behind: seq<byte>, clock: nat -> u64,
                     ghost layout: Keyboard.Layout, ghost steps: seq<Keyboard.Step>)
    returns (ghost session: seq<Situation>)
    requires display.Valid() && reader.Valid() && input.Length == LINE_MAX
    requires reader.bootSector as object != display.fb && reader.drive as object != display
    requires input as object != display.fb && input != reader.bootSector
    requires Keyboard.Runs(layout, steps) && Keyboard.Losses(layout, steps) == 0
    requires polls == Keyboard.After(layout, steps).returned
    requires AllLines(ReadableOn(reader.Boot(), reader.Root()), Entered(layout, steps), LINE_MAX)
    modifies display, display.fb, reader.drive, driver`currentLayout, input
    ensures display.Valid()
    ensures session ==
            Course(display.geo, layouts, Store(reader.drive.disk, old(reader.Boot()), old(reader.Root()), behind),
                   clock, Situation(0, old(display.State()), old(driver.currentLayout)), Entered(layout, steps))
    ensures |session| > 0 && session[|session| - 1].screen == display.State()
    ensures session[|session| - 1].layout == driver.currentLayout
  {
    ghost var streams := Streams(polls);
    EnteredIsRead(layout, steps);
    SqueezedAll(ReadableOn(reader.Boot(), reader.Root()), streams, LINE_MAX);
    CourseNonNul(display.geo, layouts, Store(reader.drive.disk, reader.Boot(), reader.Root(), behind), clock,
                 Situation(0, display.State(), driver.currentLayout), streams);
    session := KernelShell(display, reader, driver, layouts, input, polls, behind, clock);
  }
}
