/** What each line typed at the prompt of kernel/shell.c does, in the words and colours of the source. */
module CommandLines {
  import opened Bytes
  import opened Commands
  import opened Directory
  import Keyboard
  import opened LineEditor
  import opened Messages
  import opened Numerals
  import opened Reports
  import opened Screen
  import opened Session
  import opened Shell
  import opened ShellRun
  import opened Typing

  /** The line is this word alone, or the word, a space and this text. */
  predicate Asks(line: seq<byte>, word: seq<byte>, text: seq<byte>) {
    (line == word && text == []) || line == word + [SPACE] + text
  }

  lemma NamesSolid(n: nat)
    requires n < |COMMANDS|
    ensures SPACE !in COMMANDS[n] && COMMANDS[n] != []
  {
  }

  lemma AsksParts(line: seq<byte>, word: seq<byte>, text: seq<byte>)
    requires Asks(line, word, text) && SPACE !in word && word != []
    ensures line != [] && Word(line) == word && Arguments(line) == text
  {
    if line == word {
      WordAlone(word);
    }
    if line == word + [SPACE] + text {
      WordThenText(word, text);
    }
  }

  lemma AsksRuns(g: Geometry, a: Console, line: seq<byte>, n: nat, text: seq<byte>, facts: Facts)
    requires g.Valid() && n < |COMMANDS| && Asks(line, COMMANDS[n], text)
    ensures CommandOf(line) == Some(n) && Outcome(g, a, line, facts) == Ran(g, a, n, text, facts)
  {
    NamesSolid(n);
    AsksParts(line, COMMANDS[n], text);
    LookupName(n);
  }

  /** clear: every pixel the fill reaches becomes black, and the cursor goes home. */
  lemma ClearLine(g: Geometry, a: Console, line: seq<byte>, text: seq<byte>, facts: Facts)
    requires g.Valid() && Asks(line, Ascii("clear"), text)
    ensures Outcome(g, a, line, facts) == Cleared(g, a, 0x000000)
  {
    AsksRuns(g, a, line, 0, text, facts);
  }

  /** These texts, one behind another. */
  function Together(texts: seq<seq<byte>>): seq<byte>
    decreases |texts|
  {
    if texts == [] then [] else Together(texts[..|texts| - 1]) + texts[|texts| - 1]
  }

  lemma {:induction false} WhiteShown(g: Geometry, a: Console, texts: seq<Text>, k: nat)
    requires g.Valid() && k <= |texts|
    ensures Show(g, a, White(texts)[..k]) == Print(g, a, Together(texts[..k]), WHITE)
    decreases k
  {
    if k > 0 {
      WhiteShown(g, a, texts, k - 1);
      ShowMore(g, a, White(texts), k - 1);
      assert texts[..k][..k - 1] == texts[..k - 1];
      PrintConcat(g, a, Together(texts[..k - 1]), texts[k - 1], WHITE);
    }
  }

  lemma WhiteTogether(g: Geometry, a: Console, texts: seq<Text>)
    requires g.Valid()
    ensures Show(g, a, White(texts)) == Print(g, a, Together(texts), WHITE)
  {
    WhiteShown(g, a, texts, |texts|);
    assert White(texts)[..|texts|] == White(texts) && texts[..|texts|] == texts;
  }

  lemma HelpLine(g: Geometry, a: Console, line: seq<byte>, text: seq<byte>, facts: Facts)
    requires g.Valid() && Asks(line, Ascii("help"), text)
    ensures Outcome(g, a, line, facts) == Print(g, a, Together(
      [HELP_CLEAR, HELP_LS, HELP_CAT, HELP_CD, HELP_LAYOUT, HELP_UPTIME, HELP_ECHO, HELP_REBOOT]), 0xFFFFFF)
  {
    AsksRuns(g, a, line, 1, text, facts);
    WhiteTogether(g, a, HelpLines());
  }

  /** Texts in green, each on a line of its own. */
  ghost function Listing(g: Geometry, s: Console, texts: seq<seq<byte>>): Console
    requires g.Valid()
    decreases |texts|
  {
    if texts == [] then s
    else
      var n := |texts| - 1;
      Print(g, Print(g, Listing(g, s, texts[..n]), texts[n], 0x00FF00), [10], 0xFFFFFF)
  }

  lemma {:induction false} ListingShown(g: Geometry, s: Console, said: seq<Report>, texts: seq<seq<byte>>)
    requires g.Valid()
    ensures Show(g, s, said + NameReports(texts)) == Listing(g, Show(g, s, said), texts)
    decreases |texts|
  {
    if texts == [] {
      assert said + NameReports(texts) == said;
    } else {
      var n := |texts| - 1;
      var before := said + NameReports(texts[..n]);
      ListingShown(g, s, said, texts[..n]);
      ShowSnoc(g, s, before, texts[n], GREEN);
      ShowSnoc(g, s, before + [Report(texts[n], GREEN)], [NEWLINE], WHITE);
      assert said + NameReports(texts) == before + [Report(texts[n], GREEN)] + [Report([NEWLINE], WHITE)];
    }
  }

  lemma LsLine(g: Geometry, a: Console, line: seq<byte>, text: seq<byte>, facts: Facts)
    requires g.Valid() && Asks(line, Ascii("ls"), text)
    ensures Outcome(g, a, line, facts) == Listing(g, Print(g, a, DRIVE_A, 0x00FFFF), facts.names)
  {
    AsksRuns(g, a, line, 2, text, facts);
    ShowOne(g, a, DRIVE_A, CYAN);
    ListingShown(g, a, [Report(DRIVE_A, CYAN)], facts.names);
  }

  lemma CatLineShows(g: Geometry, a: Console, line: seq<byte>, text: seq<byte>, facts: Facts)
    requires g.Valid() && Asks(line, Ascii("cat"), text)
    ensures Outcome(g, a, line, facts) ==
      if text == [] then Print(g, a, USAGE, 0xFFFFFF)
      else match facts.contents
        case Some(data) => Print(g, Print(g, a, NonNul(data), 0x00FF00), [10], 0xFFFFFF)
        case None => Print(g, a, NOT_FOUND, 0xFF0000)
  {
    AsksRuns(g, a, line, 3, text, facts);
    CatIsShown(g, a, text, facts.contents);
  }

  lemma CdLine(g: Geometry, a: Console, line: seq<byte>, text: seq<byte>, facts: Facts)
    requires g.Valid() && Asks(line, Ascii("cd"), text)
    ensures Outcome(g, a, line, facts) ==
      if text == [] then Print(g, a, DRIVE_A, 0xFFFFFF) else Print(g, a, NO_DIRECTORY, 0xFF0000)
  {
    AsksRuns(g, a, line, 4, text, facts);
    ShowOne(g, a, DRIVE_A, WHITE);
    ShowOne(g, a, NO_DIRECTORY, RED);
  }

  lemma LayoutLine(g: Geometry, a: Console, line: seq<byte>, text: seq<byte>, facts: Facts)
    requires g.Valid() && Asks(line, Ascii("layout"), text)
    ensures Outcome(g, a, line, facts) ==
      Print(g, a, if text == FR_CA then FR_CA_SET
                  else if text == EN_US then EN_US_SET
                  else Together([LAYOUTS, RULE, LAYOUT_US, LAYOUT_CA]), 0xFFFFFF)
  {
    AsksRuns(g, a, line, 5, text, facts);
    WhiteLine(g, a, FR_CA_SET);
    WhiteLine(g, a, EN_US_SET);
    WhiteTogether(g, a, [LAYOUTS, RULE, LAYOUT_US, LAYOUT_CA]);
  }

  lemma WhiteLine(g: Geometry, a: Console, text: Text)
    requires g.Valid()
    ensures Show(g, a, White([text])) == Print(g, a, text, WHITE)
  {
    ShowOne(g, a, text, WHITE);
    assert White([text]) == [Report(text, WHITE)];
  }

  lemma LayoutInstalled(line: seq<byte>, text: seq<byte>, layouts: Layouts, current: Keyboard.Layout)
    requires Asks(line, Ascii("layout"), text)
    ensures LayoutAfter(layouts, current, line) ==
      if text == FR_CA then layouts.frCa else if text == EN_US then layouts.enUs else current
  {
    assert COMMANDS[5] == Ascii("layout");
    NamesSolid(5);
    AsksParts(line, COMMANDS[5], text);
    LookupName(5);
  }

  /** Read back, the seconds are the whole hundreds of the ticks. */
  lemma UptimeLine(g: Geometry, a: Console, line: seq<byte>, text: seq<byte>, facts: Facts)
    returns (seconds: seq<byte>, ticks: seq<byte>)
    requires g.Valid() && Asks(line, Ascii("uptime"), text)
    ensures IsDecimal(seconds) && IsDecimal(ticks) && Value(ticks, 10) == facts.ticks
    ensures 100 * Value(seconds, 10) <= facts.ticks < 100 * Value(seconds, 10) + 100
    ensures Outcome(g, a, line, facts) ==
      Print(g, Print(g, Print(g, Print(g, Print(g, a, UPTIME_IS, 0xFFFFFF), seconds, 0x00FF00),
                                 SECONDS, 0xFFFFFF), ticks, 0x00FFFF), TICKS, 0xFFFFFF)
  {
    AsksRuns(g, a, line, 6, text, facts);
    seconds, ticks := Decimal(facts.ticks / 100), Decimal(facts.ticks);
    DecimalReads(facts.ticks / 100);
    DecimalReads(facts.ticks);
    UptimeShown(g, a, facts.ticks, UPTIME_IS, SECONDS, TICKS);
  }

  lemma UptimeShown(g: Geometry, a: Console, ticks: u64, uptime: Text, seconds: Text, end: Line)
    requires g.Valid()
    ensures Show(g, a, UptimeReports(ticks, uptime, seconds, end)) ==
      Print(g, Print(g, Print(g, Print(g, Print(g, a, uptime, WHITE), Decimal(ticks / 100), GREEN),
                                 seconds, WHITE), Decimal(ticks), CYAN), end, WHITE)
  {
    var r := UptimeReports(ticks, uptime, seconds, end);
    ShowMore(g, a, r, 0);
    ShowMore(g, a, r, 1);
    ShowMore(g, a, r, 2);
    ShowMore(g, a, r, 3);
    ShowMore(g, a, r, 4);
    ShowEnds(g, a, r);
  }

  lemma EchoLine(g: Geometry, a: Console, line: seq<byte>, text: seq<byte>, facts: Facts)
    requires g.Valid() && Asks(line, Ascii("echo"), text)
    ensures Outcome(g, a, line, facts) == Print(g, Print(g, a, text, 0xFFFFFF), [10], 0xFFFFFF)
  {
    AsksRuns(g, a, line, 7, text, facts);
    ShowTwo(g, a, Report(text, WHITE), Report([NEWLINE], WHITE));
  }

  lemma RebootLine(g: Geometry, a: Console, line: seq<byte>, text: seq<byte>, facts: Facts)
    requires g.Valid() && Asks(line, Ascii("reboot"), text)
    ensures Outcome(g, a, line, facts) == Print(g, a, REBOOTING, 0xFFFFFF)
  {
    AsksRuns(g, a, line, 8, text, facts);
    WhiteLine(g, a, REBOOTING);
  }

  lemma WordAndText(line: seq<byte>)
    ensures Asks(line, Word(line), Arguments(line))
  {
    if FirstSpace(line) < |line| {
      assert line == Word(line) + [SPACE] + Arguments(line);
    }
  }

  /** A run ends with the line that asks for reboot, and with no other. */
  lemma EndsRunIff(keys: seq<byte>)
    ensures Reboots()(KeyLine(keys)) <==> exists text :: Asks(Edit(keys, 128), Ascii("reboot"), text)
  {
    var line := Edit(keys, 128);
    assert COMMANDS[8] == Ascii("reboot");
    NamesSolid(8);
    LookupName(8);
    if Reboots()(KeyLine(keys)) {
      LookupFinds(Word(line), 0);
      WordAndText(line);
    }
    if text :| Asks(line, COMMANDS[8], text) {
      AsksParts(line, COMMANDS[8], text);
      assert CommandOf(Edit(keys, LINE_MAX)) == Some(REBOOT);
    }
  }

  /** Any other word is quoted in a complaint, all in red. */
  lemma UnknownLine(g: Geometry, a: Console, line: seq<byte>, facts: Facts)
    requires g.Valid() && line != []
    requires forall word, text :: word in COMMANDS ==> !Asks(line, word, text)
    ensures Outcome(g, a, line, facts) ==
      Print(g, a, UNKNOWN + Word(line) + UNKNOWN_END, 0xFF0000)
  {
    LookupFinds(Word(line), 0);
    WordAndText(line);
    ComplaintShown(g, a, UNKNOWN, Word(line), UNKNOWN_END);
  }

  lemma ComplaintShown(g: Geometry, a: Console, before: Text, word: seq<byte>, after: Line)
    requires g.Valid()
    ensures Show(g, a, Quoted(before, word, after)) == Print(g, a, before + word + after, RED)
  {
    var r := Quoted(before, word, after);
    ShowTwo(g, a, r[0], r[1]);
    ShowSnoc(g, a, [r[0], r[1]], after, RED);
    assert r == [r[0], r[1]] + [r[2]];
    PrintConcat(g, a, before, word, RED);
    PrintConcat(g, a, before + word, after, RED);
  }
}
