/** The layouts that the lines of a session ask for, and the `Install` steps of the keyboard machine. */
module LayoutChanges {
  import opened Bytes
  import opened CommandLines
  import opened Commands
  import opened Keyboard
  import opened LineEditor
  import opened Messages
  import opened Screen
  import opened Session
  import opened ShellRun
  import opened Shell
  import opened Trails
  import opened Typing

  /** What a line asks for, if anything. */
  function Request(layouts: Layouts, line: seq<byte>): (layout: seq<Layout>)
    ensures |layout| <= 1
  {
    if Asks(line, Ascii("layout"), FR_CA) then [layouts.frCa]
    else if Asks(line, Ascii("layout"), EN_US) then [layouts.enUs]
    else []
  }

  /** What lines of keys ask for, in order. */
  function Requests(layouts: Layouts, streams: seq<KeyLine>): seq<Layout>
    decreases |streams|
  {
    if streams == [] then []
    else
      var n := |streams| - 1;
      Requests(layouts, streams[..n]) + Request(layouts, Edit(streams[n].keys, LINE_MAX))
  }

  /** The layouts installed, in order. */
  function Installed(steps: seq<Step>): seq<Layout>
    decreases |steps|
  {
    if steps == [] then []
    else
      var n := |steps| - 1;
      Installed(steps[..n]) + if steps[n].Install? then [steps[n].layout] else []
  }

  /** The last of these layouts, or l if there are none. */
  function LastOf(l: Layout, installed: seq<Layout>): Layout {
    if installed == [] then l else installed[|installed| - 1]
  }

  /** No line but the last asks for reboot, and not that one either if the run goes on. */
  ghost predicate Lasts(streams: seq<KeyLine>, goesOn: bool) {
    forall k :: 0 <= k < |streams| - (if goesOn then 0 else 1) ==> !Reboots()(streams[k])
  }

  /**
   * The consumer is the shell: it installs the next layout that the lines read so far ask for, and
   * reads on when it has installed them all, unless the last line asked for reboot.
   */
  ghost predicate Obeys(layouts: Layouts, l: Layout, steps: seq<Step>)
    requires Runs(l, steps)
    decreases |steps|
  {
    steps == [] ||
    (var before, step := steps[..|steps| - 1], steps[|steps| - 1];
     var streams := Streams(After(l, before).returned);
     Obeys(layouts, l, before) &&
     match step
     case Interrupt(_) => true
     case Clear => true
     case Read => |Installed(before)| == |Requests(layouts, streams)| && Lasts(streams, true)
     case Install(layout) => Installed(before) + [layout] <= Requests(layouts, streams))
  }

  /** What holds between the lines read and the layouts installed; `busy` while a character is being read. */
  ghost predicate Paired(asked: seq<Layout>, installed: seq<Layout>, busy: bool) {
    installed <= asked && |asked| <= |installed| + if busy then 0 else 1
  }

  lemma ClearPairs(layouts: Layouts, returned: seq<byte>, c: byte, installed: seq<Layout>)
    requires Paired(Requests(layouts, Streams(returned)), installed, true) && Lasts(Streams(returned), true)
    ensures Paired(Requests(layouts, Streams(returned + [c])), installed, false)
    ensures Lasts(Streams(returned + [c]), false)
  {
    StreamsKey(returned, c);
    var streams := Streams(returned);
    if c == NEWLINE {
      assert (streams + [KeyLine(Pending(returned))])[..|streams|] == streams;
    }
  }

  /** The layouts installed are those the lines read ask for, in order; at most the last is still to come. */
  lemma {:induction false} InstallsAsked(layouts: Layouts, l: Layout, steps: seq<Step>)
    requires Runs(l, steps) && Obeys(layouts, l, steps)
    ensures var m := After(l, steps);
            && Paired(Requests(layouts, Streams(m.returned)), Installed(steps), m.held.Some?)
            && Lasts(Streams(m.returned), m.held.Some?)
    decreases |steps|
  {
    if steps != [] {
      var before, step := steps[..|steps| - 1], steps[|steps| - 1];
      var m := After(l, before);
      InstallsAsked(layouts, l, before);
      if step == Clear {
        ClearPairs(layouts, m.returned, m.held.value, Installed(before));
      }
    }
  }

  /** The layout in force is the one installed last. */
  lemma {:induction false} InstalledInForce(l: Layout, steps: seq<Step>)
    requires Runs(l, steps)
    ensures After(l, steps).layout == LastOf(l, Installed(steps))
    decreases |steps|
  {
    if steps != [] {
      InstalledInForce(l, steps[..|steps| - 1]);
    }
  }

  lemma NotAsked(line: seq<byte>, text: seq<byte>)
    requires !Asks(line, COMMANDS[LAYOUT], text)
    ensures !(CommandOf(line) == Some(LAYOUT) && Arguments(line) == text)
  {
    WordAndText(line);
    LookupFinds(Word(line), 0);
  }

  lemma RequestChosen(layouts: Layouts, current: Layout, line: seq<byte>)
    ensures LayoutAfter(layouts, current, line) == LastOf(current, Request(layouts, line))
  {
    assert COMMANDS[LAYOUT] == Ascii("layout");
    if Asks(line, Ascii("layout"), FR_CA) {
      LayoutInstalled(line, FR_CA, layouts, current);
    } else if Asks(line, Ascii("layout"), EN_US) {
      LayoutInstalled(line, EN_US, layouts, current);
    } else {
      NotAsked(line, FR_CA);
      NotAsked(line, EN_US);
    }
  }

  lemma CourseStep(g: Geometry, layouts: Layouts, store: Store, clock: nat -> u64, x: Situation, streams: seq<KeyLine>,
                   k: nat)
    requires g.Valid() && 0 < k < |Course(g, layouts, store, clock, x, streams)|
    ensures k <= |streams|
    ensures var session := Course(g, layouts, store, clock, x, streams);
            session[k].layout == LayoutAfter(layouts, session[k - 1].layout, Edit(streams[k - 1].keys, LINE_MAX))
  {
    LineTrailSteps(ShellRun.Next(g, layouts, store, clock), Reboots(), x, streams);
  }

  lemma RequestsUpTo(layouts: Layouts, streams: seq<KeyLine>, k: nat)
    requires 0 < k <= |streams|
    ensures Requests(layouts, streams[..k]) ==
            Requests(layouts, streams[..k - 1]) + Request(layouts, Edit(streams[k - 1].keys, LINE_MAX))
  {
    assert streams[..k][..k - 1] == streams[..k - 1];
  }

  /** Each layout is what the line before it leaves. */
  ghost predicate Follow(layouts: Layouts, at: seq<Layout>, streams: seq<KeyLine>) {
    && 0 < |at| <= |streams| + 1
    && forall k :: 0 < k < |at| ==> at[k] == LayoutAfter(layouts, at[k - 1], Edit(streams[k - 1].keys, LINE_MAX))
  }

  lemma {:induction false} FollowRequests(layouts: Layouts, at: seq<Layout>, streams: seq<KeyLine>, k: nat)
    requires Follow(layouts, at, streams) && k < |at|
    ensures at[k] == LastOf(at[0], Requests(layouts, streams[..k]))
    decreases k
  {
    if k > 0 {
      FollowRequests(layouts, at, streams, k - 1);
      RequestsUpTo(layouts, streams, k);
      RequestChosen(layouts, at[k - 1], Edit(streams[k - 1].keys, LINE_MAX));
    }
  }

  /** At the k-th prompt of a session the layout is the last one that the lines before it ask for. */
  lemma CourseLayout(g: Geometry, layouts: Layouts, store: Store, clock: nat -> u64, x: Situation,
                     streams: seq<KeyLine>, k: nat)
    requires g.Valid() && k < |Course(g, layouts, store, clock, x, streams)|
    ensures k <= |streams|
    ensures Course(g, layouts, store, clock, x, streams)[k].layout == LastOf(x.layout, Requests(layouts, streams[..k]))
  {
    var session := Course(g, layouts, store, clock, x, streams);
    LineTrailSteps(ShellRun.Next(g, layouts, store, clock), Reboots(), x, streams);
    var at := seq(|session|, i requires 0 <= i < |session| => session[i].layout);
    forall i | 0 < i < |at|
      ensures at[i] == LayoutAfter(layouts, at[i - 1], Edit(streams[i - 1].keys, LINE_MAX))
    {
      CourseStep(g, layouts, store, clock, x, streams, i);
    }
    FollowRequests(layouts, at, streams, k);
  }

  lemma CourseEnd(g: Geometry, layouts: Layouts, store: Store, clock: nat -> u64, x: Situation, streams: seq<KeyLine>)
    requires g.Valid() && Lasts(streams, false)
    ensures var session := Course(g, layouts, store, clock, x, streams);
            |session| == |streams| + 1 && session[|streams|].layout == LastOf(x.layout, Requests(layouts, streams))
  {
    TrailWhole(ShellRun.Next(g, layouts, store, clock), Reboots(), x, streams);
    CourseLayout(g, layouts, store, clock, x, streams, |streams|);
    assert streams[..|streams|] == streams;
  }

  /**
   * Driver and session agree: once what the lines ask for is installed, the layout that maps the next
   * scancode is the one the session is left with.
   */
  lemma LayoutsAgree(g: Geometry, layouts: Layouts, store: Store, clock: nat -> u64, x: Situation, steps: seq<Step>)
    requires g.Valid() && Runs(x.layout, steps) && Obeys(layouts, x.layout, steps)
    requires var m := After(x.layout, steps); |Installed(steps)| == |Requests(layouts, Streams(m.returned))|
    ensures var m := After(x.layout, steps);
            var session := Course(g, layouts, store, clock, x, Streams(m.returned));
            Installed(steps) == Requests(layouts, Streams(m.returned)) && session[|session| - 1].layout == m.layout
  {
    var streams := Streams(After(x.layout, steps).returned);
    InstallsAsked(layouts, x.layout, steps);
    InstalledInForce(x.layout, steps);
    CourseEnd(g, layouts, store, clock, x, streams);
  }
}
