/** The commands of kernel/shell.c: what each of them prints. */
module Commands {
  import opened Ata
  import opened Bytes
  import CString
  import opened Directory
  import opened Fat
  import opened FatImage
  import Keyboard
  import opened Messages
  import opened Numerals
  import opened Reports
  import opened Screen
  import opened Shell
  import opened Undo

  const CLEAR := 0
  const HELP := 1
  const LS := 2
  const CD := 4
  const LAYOUT := 5
  const UPTIME := 6
  const ECHO := 7
  const REBOOT := 8

  /** What the commands learn from the rest of the kernel: the file asked for, the printed names, the tick count. */
  datatype Facts = Facts(contents: Option<seq<byte>>, names: seq<seq<byte>>, ticks: u64)

  function HelpLines(): (lines: seq<Line>)
    ensures |lines| == 8
  {
    [HELP_CLEAR, HELP_LS, HELP_CAT, HELP_CD, HELP_LAYOUT, HELP_UPTIME, HELP_ECHO, HELP_REBOOT]
  }

  function White(texts: seq<Text>): (reports: seq<Report>)
    ensures |reports| == |texts|
  {
    seq(|texts|, k requires 0 <= k < |texts| => Report(texts[k], WHITE))
  }

  function CatReports(text: seq<byte>, contents: Option<seq<byte>>): seq<Report> {
    if text == [] then [Report(USAGE, WHITE)]
    else match contents
      case Some(data) => [Report(NonNul(data), GREEN), Report([NEWLINE], WHITE)]
      case None => [Report(NOT_FOUND, RED)]
  }

  function NameReports(texts: seq<seq<byte>>): seq<Report>
    decreases |texts|
  {
    if texts == [] then []
    else NameReports(texts[..|texts| - 1]) + [Report(texts[|texts| - 1], GREEN), Report([NEWLINE], WHITE)]
  }

  function LayoutAnswer(text: seq<byte>): (lines: seq<Line>)
    ensures lines != []
  {
    if text == FR_CA then [FR_CA_SET]
    else if text == EN_US then [EN_US_SET]
    else [LAYOUTS, RULE, LAYOUT_US, LAYOUT_CA]
  }

  function UptimeReports(ticks: u64, uptime: Text, seconds: Text, end: Line): seq<Report> {
    [Report(uptime, WHITE), Report(Decimal(ticks / 100), GREEN), Report(seconds, WHITE),
     Report(Decimal(ticks), CYAN), Report(end, WHITE)]
  }

  function LsReports(texts: seq<seq<byte>>): seq<Report> {
    [Report(DRIVE_A, CYAN)] + NameReports(texts)
  }

  function CdReports(text: seq<byte>): seq<Report> {
    [if text == [] then Report(DRIVE_A, WHITE) else Report(NO_DIRECTORY, RED)]
  }

  function EchoReports(text: seq<byte>): seq<Report> {
    [Report(text, WHITE), Report([NEWLINE], WHITE)]
  }

  /** What command n prints; only clear is no matter of printing. */
  function Output(n: nat, text: seq<byte>, facts: Facts): seq<Report>
    requires n < |COMMANDS| && n != CLEAR
  {
    if n == HELP then White(HelpLines())
    else if n == LS then LsReports(facts.names)
    else if n == CAT then CatReports(text, facts.contents)
    else if n == CD then CdReports(text)
    else if n == LAYOUT then White(LayoutAnswer(text))
    else if n == UPTIME then UptimeReports(facts.ticks, UPTIME_IS, SECONDS, TICKS)
    else if n == ECHO then EchoReports(text)
    else White([REBOOTING])
  }

  /** The console after command n. */
  ghost function Ran(g: Geometry, s: Console, n: nat, text: seq<byte>, facts: Facts): Console
    requires g.Valid() && n < |COMMANDS|
  {
    if n == CLEAR then Cleared(g, s, BLACK) else Show(g, s, Output(n, text, facts))
  }

  lemma WhiteEndsLine(lines: seq<Line>)
    requires lines != []
    ensures EndsLine(White(lines))
  {
  }

  lemma NamesEndLine(texts: seq<seq<byte>>)
    ensures EndsLine(LsReports(texts))
  {
    if texts != [] {
      var reports := NameReports(texts);
      assert reports[|reports| - 1] == Report([NEWLINE], WHITE);
    }
  }

  /** Every command that prints ends its last line. */
  lemma OutputEndsLine(n: nat, text: seq<byte>, facts: Facts)
    requires n < |COMMANDS| && n != CLEAR
    ensures EndsLine(Output(n, text, facts))
  {
    if n == HELP {
      WhiteEndsLine(HelpLines());
    } else if n == LS {
      NamesEndLine(facts.names);
    } else if n == LAYOUT {
      WhiteEndsLine(LayoutAnswer(text));
    } else if n > ECHO {
      WhiteEndsLine([REBOOTING]);
    }
  }

  // ---- The commands ---------------------------------------------------------------

  method CmdHelp(display: Display)
    requires display.Valid()
    modifies display, display.fb
    ensures display.Valid()
    ensures display.State() == Show(display.geo, old(display.State()), White(HelpLines()))
  {
    SayLines(display, HelpLines());
  }

  /** White lines, one kprint each. */
  method SayLines(display: Display, lines: seq<Text>)
    requires display.Valid()
    modifies display, display.fb
    ensures display.Valid()
    ensures display.State() == Show(display.geo, old(display.State()), White(lines))
  {
    ghost var s := display.State();
    for k := 0 to |lines|
      invariant display.Valid()
      invariant display.State() == Show(display.geo, s, White(lines)[..k])
    {
      TextWhole(lines[k]);
      Say(display, lines[k], WHITE, s, White(lines), k);
    }
    assert White(lines)[..|lines|] == White(lines);
  }

  method CmdLs(display: Display, reader: Reader)
    requires display.Valid() && reader.Valid()
    requires reader.bootSector as object != display.fb && reader.drive as object != display
    modifies display, display.fb, reader.drive
    ensures display.Valid()
    ensures display.State() ==
            Show(display.geo, old(display.State()), LsReports(Texts(ListedNames(old(reader.Root()), SLOTS))))
  {
    ghost var s, names := display.State(), ListedNames(reader.Root(), SLOTS);
    TextWhole(DRIVE_A);
    display.Kprint(DRIVE_A, CYAN);
    reader.ListFiles(display);
    ShowOne(display.geo, s, DRIVE_A, CYAN);
    NamesShown(display.geo, s, [Report(DRIVE_A, CYAN)], names);
  }

  /** The names as the listing prints them. */
  function Texts(names: seq<seq<byte>>): (texts: seq<seq<byte>>)
    requires forall k :: 0 <= k < |names| ==> |names[k]| == 11
    ensures |texts| == |names|
  {
    seq(|names|, k requires 0 <= k < |names| => EntryText(names[k]))
  }

  lemma {:induction false} NamesShown(g: Geometry, s: Console, said: seq<Report>, names: seq<seq<byte>>)
    requires g.Valid() && forall k :: 0 <= k < |names| ==> |names[k]| == 11
    ensures ShowNames(g, Show(g, s, said), names) == Show(g, s, said + NameReports(Texts(names)))
    decreases |names|
  {
    if names == [] {
      assert said + NameReports(Texts(names)) == said;
    } else {
      var n := |names| - 1;
      var before, text := said + NameReports(Texts(names[..n])), EntryText(names[n]);
      NamesShown(g, s, said, names[..n]);
      assert Texts(names)[..n] == Texts(names[..n]);
      ShowSnoc(g, s, before, text, GREEN);
      ShowSnoc(g, s, before + [Report(text, GREEN)], [NEWLINE], WHITE);
      assert said + NameReports(Texts(names)) == before + [Report(text, GREEN)] + [Report([NEWLINE], WHITE)];
    }
  }

  method CmdCd(display: Display, args: seq<byte>)
    requires display.Valid()
    modifies display, display.fb
    ensures display.Valid()
    ensures display.State() == Show(display.geo, old(display.State()), CdReports(CStr(args, 0)))
  {
    ghost var g, s := display.geo, display.State();
    var len := CString.Strlen(args, 0);
    if len == 0 {
      TextWhole(DRIVE_A);
      display.Kprint(DRIVE_A, WHITE);
      ShowOne(g, s, DRIVE_A, WHITE);
    } else {
      TextWhole(NO_DIRECTORY);
      display.Kprint(NO_DIRECTORY, RED);
      ShowOne(g, s, NO_DIRECTORY, RED);
    }
  }

  /** The two layouts of the kernel. */
  datatype Layouts = Layouts(enUs: Keyboard.Layout, frCa: Keyboard.Layout)

  /** The layout in use after command n. */
  function Chosen(layouts: Layouts, current: Keyboard.Layout, n: nat, text: seq<byte>): Keyboard.Layout {
    if n == LAYOUT && text == FR_CA then layouts.frCa
    else if n == LAYOUT && text == EN_US then layouts.enUs
    else current
  }

  method CmdLayout(display: Display, driver: Keyboard.Driver, layouts: Layouts, args: seq<byte>)
    requires display.Valid()
    modifies display, display.fb, driver`currentLayout
    ensures display.Valid()
    ensures display.State() == Show(display.geo, old(display.State()), White(LayoutAnswer(CStr(args, 0))))
    ensures driver.currentLayout == Chosen(layouts, old(driver.currentLayout), LAYOUT, CStr(args, 0))
  {
    var lines := ChooseLayout(driver, layouts, args);
    SayLines(display, lines);
  }

  method ChooseLayout(driver: Keyboard.Driver, layouts: Layouts, args: seq<byte>) returns (lines: seq<Line>)
    modifies driver`currentLayout
    ensures lines == LayoutAnswer(CStr(args, 0))
    ensures driver.currentLayout == Chosen(layouts, old(driver.currentLayout), LAYOUT, CStr(args, 0))
  {
    TextWhole(FR_CA);
    TextWhole(EN_US);
    var order := CString.Strcmp(args, 0, FR_CA, 0);
    if order == 0 {
      driver.Init(layouts.frCa);
      return [FR_CA_SET];
    }
    order := CString.Strcmp(args, 0, EN_US, 0);
    if order == 0 {
      driver.Init(layouts.enUs);
      return [EN_US_SET];
    }
    return [LAYOUTS, RULE, LAYOUT_US, LAYOUT_CA];
  }

  method SayNumber(display: Display, n: u64, color: Pixel, ghost s: Console, ghost all: seq<Report>, ghost k: nat)
    requires display.Valid() && k < |all| && all[k] == Report(Decimal(n), color)
    requires display.State() == Show(display.geo, s, all[..k])
    modifies display, display.fb
    ensures display.Valid()
    ensures display.State() == Show(display.geo, s, all[..k + 1])
  {
    var buffer := new byte[32];
    var p := UintToString(buffer, n);
    CStrShift(buffer[..], p);
    assert buffer[..][p..] == buffer[p..];
    Say(display, buffer[p..], color, s, all, k);
  }

  method CmdUptime(display: Display, ticks: u64)
    requires display.Valid()
    modifies display, display.fb
    ensures display.Valid()
    ensures display.State() ==
            Show(display.geo, old(display.State()), UptimeReports(ticks, UPTIME_IS, SECONDS, TICKS))
  {
    SayUptime(display, ticks, UPTIME_IS, SECONDS, TICKS);
  }

  method SayUptime(display: Display, ticks: u64, uptime: Text, seconds: Text, end: Line)
    requires display.Valid()
    modifies display, display.fb
    ensures display.Valid()
    ensures display.State() == Show(display.geo, old(display.State()), UptimeReports(ticks, uptime, seconds, end))
  {
    ghost var s, all := display.State(), UptimeReports(ticks, uptime, seconds, end);
    TextWhole(uptime);
    TextWhole(seconds);
    TextWhole(end);
    Say(display, uptime, WHITE, s, all, 0);
    SayNumber(display, ticks / 100, GREEN, s, all, 1);
    Say(display, seconds, WHITE, s, all, 2);
    SayNumber(display, ticks, CYAN, s, all, 3);
    Say(display, end, WHITE, s, all, 4);
    assert all[..5] == all;
  }

  method CmdEcho(display: Display, args: seq<byte>)
    requires display.Valid()
    modifies display, display.fb
    ensures display.Valid()
    ensures display.State() == Show(display.geo, old(display.State()), EchoReports(CStr(args, 0)))
  {
    ghost var g, s := display.geo, display.State();
    TextWhole([NEWLINE]);
    display.Kprint(args, WHITE);
    display.Kprint([NEWLINE], WHITE);
    ShowTwo(g, s, Report(CStr(args, 0), WHITE), Report([NEWLINE], WHITE));
  }

  lemma CatIsShown(g: Geometry, s: Console, text: seq<byte>, contents: Option<seq<byte>>)
    requires g.Valid()
    ensures AfterCat(g, s, text, contents) == Show(g, s, CatReports(text, contents))
  {
    ShowOne(g, s, USAGE, WHITE);
    ShowOne(g, s, NOT_FOUND, RED);
    if contents.Some? {
      ShowTwo(g, s, Report(NonNul(contents.value), GREEN), Report([NEWLINE], WHITE));
    }
  }

  /** Clearing and printing keep a state reached, and leave the cursor at the start of a row. */
  lemma RanReached(g: Geometry, s: Console, n: nat, text: seq<byte>, facts: Facts)
    requires g.Valid() && Reached(g, s) && Sound(g, s) && n < |COMMANDS|
    ensures Reached(g, Ran(g, s, n, text, facts)) && Ran(g, s, n, text, facts).cx == 0
  {
    if n == CLEAR {
      ReachedClear(g, s);
    } else {
      ShowReached(g, s, Output(n, text, facts));
      OutputEndsLine(n, text, facts);
      EndsLineColumn(g, s, Output(n, text, facts));
    }
  }

  /** What the commands would learn on this volume. */
  ghost function FactsOf(disk: Disk, boot: Sector, root: Sector, text: seq<byte>,
                         behind: seq<byte>, ticks: u64): Facts {
    Facts(Contents(disk, boot, root, Formatted(text), behind), Texts(ListedNames(root, SLOTS)), ticks)
  }

  /** commands[n].func(args); reboot does not return. */
  method Perform(display: Display, reader: Reader, driver: Keyboard.Driver, layouts: Layouts,
                 n: nat, args: seq<byte>, behind: seq<byte>, ticks: u64)
    requires display.Valid() && reader.Valid() && n < |COMMANDS|
    requires reader.bootSector as object != display.fb && reader.drive as object != display
    requires n == CAT && CStr(args, 0) != [] ==> Sized(reader.Boot(), reader.Root(), Formatted(CStr(args, 0)))
    modifies display, display.fb, reader.drive, driver`currentLayout
    ensures display.Valid()
    ensures display.State() ==
            Ran(display.geo, old(display.State()), n, CStr(args, 0),
                FactsOf(reader.drive.disk, old(reader.Boot()), old(reader.Root()), CStr(args, 0), behind, ticks))
    ensures driver.currentLayout == Chosen(layouts, old(driver.currentLayout), n, CStr(args, 0))
  {
    if n == CLEAR {
      display.Clear(BLACK);
    } else if n == HELP {
      CmdHelp(display);
    } else if n == LS {
      CmdLs(display, reader);
    } else if n == CAT {
      RunCat(display, reader, args, behind);
    } else if n == CD {
      CmdCd(display, args);
    } else if n == LAYOUT {
      CmdLayout(display, driver, layouts, args);
    } else if n == UPTIME {
      CmdUptime(display, ticks);
    } else if n == ECHO {
      CmdEcho(display, args);
    } else {
      SayLines(display, [REBOOTING]);
    }
  }

  method RunCat(display: Display, reader: Reader, args: seq<byte>, behind: seq<byte>)
    requires display.Valid() && reader.Valid()
    requires reader.bootSector as object != display.fb && reader.drive as object != display
    requires CStr(args, 0) != [] ==> Sized(reader.Boot(), reader.Root(), Formatted(CStr(args, 0)))
    modifies display, display.fb, reader.drive
    ensures display.Valid()
    ensures display.State() == Show(display.geo, old(display.State()),
              CatReports(CStr(args, 0), Contents(reader.drive.disk, old(reader.Boot()), old(reader.Root()),
                                                 Formatted(CStr(args, 0)), behind)))
  {
    CatIsShown(display.geo, display.State(), CStr(args, 0),
               Contents(reader.drive.disk, reader.Boot(), reader.Root(), Formatted(CStr(args, 0)), behind));
    CmdCat(display, reader, args, behind);
  }
}
