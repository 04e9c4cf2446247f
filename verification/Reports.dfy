/** Output as a list of coloured texts, printed one after another. */
module Reports {
  import opened Bytes
  import opened Screen
  import opened TextGrid
  import opened Undo

  datatype Report = Report(text: seq<byte>, color: Pixel)

  ghost function Show(g: Geometry, s: Console, reports: seq<Report>): Console
    requires g.Valid()
    decreases |reports|
  {
    if reports == [] then s
    else
      var n := |reports| - 1;
      Print(g, Show(g, s, reports[..n]), reports[n].text, reports[n].color)
  }

  /** kprint of the k-th of several texts. */
  method Say(display: Display, text: seq<byte>, color: Pixel,
             ghost start: Console, ghost all: seq<Report>, ghost k: nat)
    requires display.Valid() && k < |all| && all[k] == Report(CStr(text, 0), color)
    requires display.State() == Show(display.geo, start, all[..k])
    modifies display, display.fb
    ensures display.Valid()
    ensures display.State() == Show(display.geo, start, all[..k + 1])
  {
    display.Kprint(text, color);
    assert all[..k + 1] == all[..k] + [all[k]];
    ShowSnoc(display.geo, start, all[..k], CStr(text, 0), color);
  }

  lemma ShowSnoc(g: Geometry, s: Console, said: seq<Report>, text: seq<byte>, color: Pixel)
    requires g.Valid()
    ensures Show(g, s, said + [Report(text, color)]) == Print(g, Show(g, s, said), text, color)
  {
    assert (said + [Report(text, color)])[..|said|] == said;
  }

  lemma ShowMore(g: Geometry, s: Console, reports: seq<Report>, k: nat)
    requires g.Valid() && k < |reports|
    ensures Show(g, s, reports[..k + 1]) == Print(g, Show(g, s, reports[..k]), reports[k].text, reports[k].color)
  {
    assert reports[..k + 1][..k] == reports[..k];
  }

  lemma ShowEnds(g: Geometry, s: Console, reports: seq<Report>)
    requires g.Valid()
    ensures Show(g, s, reports[..0]) == s && Show(g, s, reports[..|reports|]) == Show(g, s, reports)
  {
    assert reports[..|reports|] == reports;
  }

  lemma ShowOne(g: Geometry, s: Console, text: seq<byte>, color: Pixel)
    requires g.Valid()
    ensures Show(g, s, [Report(text, color)]) == Print(g, s, text, color)
  {
    ShowSnoc(g, s, [], text, color);
    assert [] + [Report(text, color)] == [Report(text, color)];
  }

  lemma ShowTwo(g: Geometry, s: Console, a: Report, b: Report)
    requires g.Valid()
    ensures Show(g, s, [a, b]) == Print(g, Print(g, s, a.text, a.color), b.text, b.color)
  {
    ShowOne(g, s, a.text, a.color);
    ShowSnoc(g, s, [a], b.text, b.color);
    assert [a] + [b] == [a, b];
  }

  lemma {:induction false} ShowConcat(g: Geometry, s: Console, a: seq<Report>, b: seq<Report>)
    requires g.Valid()
    ensures Show(g, s, a + b) == Show(g, Show(g, s, a), b)
    decreases |b|
  {
    if b == [] {
      assert a + b == a;
    } else {
      var n := |b| - 1;
      ShowConcat(g, s, a, b[..n]);
      ShowSnoc(g, s, a + b[..n], b[n].text, b[n].color);
      assert a + b[..n] + [b[n]] == a + b;
    }
  }

  lemma {:induction false} ShowReached(g: Geometry, s: Console, reports: seq<Report>)
    requires g.Valid() && Reached(g, s)
    ensures Reached(g, Show(g, s, reports))
    decreases |reports|
  {
    if reports != [] {
      var n := |reports| - 1;
      ShowReached(g, s, reports[..n]);
      ReachedPrint(g, Show(g, s, reports[..n]), reports[n].text, reports[n].color);
    }
  }

  /** The last text ends its line. */
  predicate EndsLine(reports: seq<Report>) {
    && reports != []
    && var text := reports[|reports| - 1].text; text != [] && text[|text| - 1] == NEWLINE
  }

  lemma EndsLineColumn(g: Geometry, s: Console, reports: seq<Report>)
    requires g.Valid() && EndsLine(reports)
    ensures Show(g, s, reports).cx == 0
  {
  }
}
