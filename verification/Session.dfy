/** One turn of kernel_shell, from keys to the screen. */
module Session {
  import opened Ata
  import opened Bytes
  import opened Commands
  import CString
  import opened Directory
  import opened Fat
  import opened FatImage
  import opened FatRegions
  import Keyboard
  import opened LineEditor
  import opened Messages
  import opened Reports
  import opened Screen
  import opened Shell
  import opened Typing

  const LINE_MAX := 128

  /** The console once the prompt has been answered with these keys and a newline. */
  ghost function Answered(g: Geometry, s: Console, keys: seq<byte>): Console
    requires g.Valid()
  {
    Put(g, Echo(g, Print(g, s, PROMPT, WHITE), keys, LINE_MAX), NEWLINE, WHITE)
  }

  method ReadCommand(display: Display, input: array<byte>, polls: seq<byte>) returns (used: nat)
    requires display.Valid() && input as object != display.fb
    requires input.Length == LINE_MAX && NEWLINE in polls
    modifies display, display.fb, input
    ensures display.Valid() && display.State() == Answered(display.geo, old(display.State()), FirstLine(polls))
    ensures NUL in input[..] && CStr(input[..], 0) == LineOf(polls, LINE_MAX)
    ensures used == FirstNewline(polls) + 1
  {
    TextWhole(PROMPT);
    display.Kprint(PROMPT, WHITE);
    used := Readline(display, input, LINE_MAX, polls);
    ghost var line := LineOf(polls, LINE_MAX);
    EditFits(polls[..FirstNewline(polls)], LINE_MAX);
    assert input[..][|line|] == NUL;
    CStrSlice(input[..], 0, line);
  }

  /** Split the line and look its word up; `args` is the argument string. */
  method Parse(input: array<byte>) returns (command: Option<nat>, args: seq<byte>)
    requires NUL in input[..]
    modifies input
    ensures var line := CStr(old(input[..]), 0);
            && CStr(input[..], 0) == Word(line)
            && CStr(args, 0) == Arguments(line)
            && command == Lookup(Word(line), 0)
  {
    var at := Split(input);
    match at {
      case None =>
        args := [];
      case Some(p) =>
        ghost var rest := CStr(input[..], p);
        args := if p <= input.Length then input[p..] else [];
        if p <= input.Length {
          CStrShift(input[..], p);
          assert input[..][p..] == input[p..];
        }
    }
    command := Dispatch(input[..]);
  }

  /** What an unknown word gets. */
  function Complaint(word: seq<byte>): seq<Report> {
    Quoted(UNKNOWN, word, UNKNOWN_END)
  }

  function Quoted(before: Text, word: seq<byte>, after: Line): seq<Report> {
    [Report(before, RED), Report(word, RED), Report(after, RED)]
  }

  method Complain(display: Display, word: seq<byte>, before: Text, after: Line)
    requires display.Valid()
    modifies display, display.fb
    ensures display.Valid()
    ensures display.State() == Show(display.geo, old(display.State()), Quoted(before, CStr(word, 0), after))
  {
    ghost var s, all := display.State(), Quoted(before, CStr(word, 0), after);
    TextWhole(before);
    TextWhole(after);
    Say(display, before, RED, s, all, 0);
    Say(display, word, RED, s, all, 1);
    Say(display, after, RED, s, all, 2);
    assert all[..3] == all;
  }

  /** The command a line asks for. */
  function CommandOf(line: seq<byte>): Option<nat> {
    if line == [] then None else Lookup(Word(line), 0)
  }

  /** What a turn leaves on the screen. */
  ghost function Outcome(g: Geometry, answered: Console, line: seq<byte>, facts: Facts): Console
    requires g.Valid()
  {
    if line == [] then answered
    else match CommandOf(line)
      case None => Show(g, answered, Complaint(Word(line)))
      case Some(n) => Ran(g, answered, n, Arguments(line), facts)
  }

  /** The layout in use after a turn. */
  function LayoutAfter(layouts: Layouts, current: Keyboard.Layout, line: seq<byte>): Keyboard.Layout {
    match CommandOf(line)
    case Some(n) => Chosen(layouts, current, n, Arguments(line))
    case None => current
  }

  /** The shell can get from one prompt to the next: some keys, some facts. */
  ghost predicate Turned(g: Geometry, s: Console, t: Console)
    requires g.Valid()
  {
    exists keys: seq<byte>, facts: Facts :: t == Outcome(g, Answered(g, s, keys), Edit(keys, LINE_MAX), facts)
  }

  /** Screens at successive prompts. */
  ghost predicate Turns(g: Geometry, screens: seq<Console>)
    requires g.Valid()
  {
    screens != [] && forall k :: 0 < k < |screens| ==> Turned(g, screens[k - 1], screens[k])
  }

  /** Split the line, look its word up, and run the command or complain. */
  method Obey(display: Display, reader: Reader, driver: Keyboard.Driver, layouts: Layouts, input: array<byte>,
              behind: seq<byte>, ticks: u64)
    returns (command: Option<nat>)
    requires display.Valid() && reader.Valid() && NUL in input[..]
    requires reader.bootSector as object != display.fb && reader.drive as object != display
    requires input as object != display.fb && input != reader.bootSector
    requires Readable(reader.Boot(), reader.Root(), CStr(input[..], 0))
    modifies display, display.fb, reader.drive, driver`currentLayout, input
    ensures display.Valid() && command == CommandOf(CStr(old(input[..]), 0))
    ensures var line := CStr(old(input[..]), 0);
            && display.State() ==
               Outcome(display.geo, old(display.State()), line,
                       FactsOf(reader.drive.disk, old(reader.Boot()), old(reader.Root()),
                               Arguments(line), behind, ticks))
            && driver.currentLayout == LayoutAfter(layouts, old(driver.currentLayout), line)
  {
    ghost var line := CStr(input[..], 0);
    var len := CString.Strlen(input[..], 0);
    if len == 0 {
      return None;
    }
    var args;
    command, args := Parse(input);
    assert command == CommandOf(line);
    match command
    case None =>
      Complain(display, input[..], UNKNOWN, UNKNOWN_END);
    case Some(n) =>
      Perform(display, reader, driver, layouts, n, args, behind, ticks);
  }

  /** Read a line and obey it. */
  method Turn(display: Display, reader: Reader, driver: Keyboard.Driver, layouts: Layouts, input: array<byte>,
              polls: seq<byte>, behind: seq<byte>, ticks: u64)
    returns (command: Option<nat>, used: nat)
    requires display.Valid() && reader.Valid() && input.Length == LINE_MAX
    requires reader.bootSector as object != display.fb && reader.drive as object != display
    requires input as object != display.fb && input != reader.bootSector
    requires NEWLINE in polls && Readable(reader.Boot(), reader.Root(), LineOf(polls, LINE_MAX))
    modifies display, display.fb, reader.drive, driver`currentLayout, input
    ensures display.Valid() && used == FirstNewline(polls) + 1
    ensures command == CommandOf(LineOf(polls, LINE_MAX))
    ensures display.State() ==
            Outcome(display.geo, Answered(display.geo, old(display.State()), FirstLine(polls)), LineOf(polls, LINE_MAX),
                    FactsOf(reader.drive.disk, old(reader.Boot()), old(reader.Root()),
                            Arguments(LineOf(polls, LINE_MAX)), behind, ticks))
    ensures driver.currentLayout == LayoutAfter(layouts, old(driver.currentLayout), LineOf(polls, LINE_MAX))
  {
    used := ReadCommand(display, input, polls);
    command := Obey(display, reader, driver, layouts, input, behind, ticks);
  }

  /** If the line asks cat for a file, the file can be located. */
  ghost predicate Readable(boot: Sector, root: Sector, line: seq<byte>) {
    Word(line) == COMMANDS[CAT] && Arguments(line) != [] ==> Sized(boot, root, Formatted(Arguments(line)))
  }

  /** The line `cat name`. */
  function CatLine(name: seq<byte>): seq<byte> {
    Ascii("cat ") + name
  }

  lemma CatLineSplits(name: seq<byte>)
    ensures Word(CatLine(name)) == Ascii("cat") && Arguments(CatLine(name)) == name
  {
    var line := CatLine(name);
    assert line == Ascii("cat") + [SPACE] + name;
    WordThenText(Ascii("cat"), name);
  }

  lemma WordThenText(word: seq<byte>, text: seq<byte>)
    requires SPACE !in word
    ensures var line := word + [SPACE] + text;
            FirstSpace(line) == |word| && Word(line) == word && Arguments(line) == text
  {
    FirstSpaceAt(word + [SPACE] + text, |word|);
  }

  lemma {:induction false} WordAlone(word: seq<byte>)
    requires SPACE !in word
    ensures FirstSpace(word) == |word| && Word(word) == word && Arguments(word) == []
    decreases |word|
  {
    assert forall k :: 0 <= k < |word| ==> word[k] in word;
  }

  lemma {:induction false} FirstSpaceAt(line: seq<byte>, n: nat)
    requires n < |line| && line[n] == SPACE && forall k :: 0 <= k < n ==> line[k] != SPACE
    ensures FirstSpace(line) == n
    decreases n
  {
    if n > 0 {
      FirstSpaceAt(line[1..], n - 1);
    }
  }

  /**
   * From the keyboard to the screen: scancodes that spell `cat name`, delivered without loss,
   * put the bytes of exactly the file with that name on the screen, or report that there is none.
   */
  method TypeCat(display: Display, reader: Reader, driver: Keyboard.Driver, layouts: Layouts, input: array<byte>,
                 polls: seq<byte>, name: seq<byte>, behind: seq<byte>, ticks: u64,
                 ghost layout: Keyboard.Layout, ghost steps: seq<Keyboard.Step>, ghost v: Volume)
    returns (ghost contents: Option<seq<byte>>)
    requires display.Valid() && reader.Valid() && input.Length == LINE_MAX
    requires reader.bootSector as object != display.fb && reader.drive as object != display
    requires input as object != display.fb && input != reader.bootSector
    requires Stores(reader.drive.disk, v) && reader.Boot() == v.Boot() && NUL !in name
    requires Keyboard.Runs(layout, steps) && Keyboard.Losses(layout, steps) == 0
    requires polls == Keyboard.After(layout, steps).returned && NEWLINE in polls
    requires var typed := Typed(layout, Inputs(steps));
             NEWLINE in typed && LineOf(typed, LINE_MAX) == CatLine(name)
    modifies display, display.fb, reader.drive, driver`currentLayout, input
    ensures display.Valid()
    ensures FromVolume(v, Formatted(name), contents)
    ensures display.State() ==
            Show(display.geo, Answered(display.geo, old(display.State()), FirstLine(polls)), CatReports(name, contents))
  {
    ScancodesToLine(layout, steps, LINE_MAX);
    CatLineSplits(name);
    CatFound(name);
    StoredRoot(reader.drive.disk, v);
    ContentsOfVolume(reader.drive.disk, v, name, behind);
    VolumeSized(v, Formatted(name));
    contents := Contents(reader.drive.disk, v.Boot(), v.Root(), Formatted(name), behind);
    var command, used := Turn(display, reader, driver, layouts, input, polls, behind, ticks);
  }

  lemma CatFound(name: seq<byte>)
    ensures CommandOf(CatLine(name)) == Some(CAT)
  {
    CatLineSplits(name);
    LookupName(CAT);
  }
}
