/** tar_get_file and tar_list_files of kernel/drivers/tar.c. */
module Tar {
  import opened Bytes
  import CString
  import opened Screen
  import opened TarHeader
  import opened TarWalk

  const DOT_SLASH: seq<byte> := [DOT, SLASH]

  /** What counts as the same file name. */
  predicate Matches(name: seq<byte>, key: seq<byte>) {
    name == key || name == DOT_SLASH + key
  }

  /** The names of the headers visited, in order. */
  ghost function Names(img: seq<byte>): (names: seq<seq<byte>>)
    requires Ends(img)
    ensures |names| == Length(img)
  {
    seq(Length(img), k requires 0 <= k < Length(img) => CStr(img, Nth(img, k)))
  }

  /** None of the first n headers of the walk is an end or a match. */
  ghost predicate PassesUpTo(img: seq<byte>, key: seq<byte>, n: nat) {
    LiveUpTo(img, n) && forall k: nat :: k < n ==> !Matches(CStr(img, Nth(img, k)), key)
  }

  /** The n-th header is the first that matches. */
  ghost predicate Hit(img: seq<byte>, key: seq<byte>, n: nat) {
    PassesUpTo(img, key, n) && !Over(img, Nth(img, n)) && Matches(CStr(img, Nth(img, n)), key)
  }

  /** The lookup comes to a match or to the end of the walk: exactly then it returns. */
  ghost predicate Settles(img: seq<byte>, key: seq<byte>, n: nat) {
    PassesUpTo(img, key, n) && (Over(img, Nth(img, n)) || Matches(CStr(img, Nth(img, n)), key))
  }

  lemma DotSlash(img: seq<byte>, o: nat, key: seq<byte>)
    ensures Matches(CStr(img, o), key) <==>
      CStr(img, o) == key || (At(img, o) == DOT && At(img, o + 1) == SLASH && CStr(img, o + 2) == key)
  {
    var s := CStr(img, o);
    CStrIs(img, o);
    assert (DOT_SLASH + key)[0] == DOT && (DOT_SLASH + key)[1] == SLASH && (DOT_SLASH + key)[2..] == key;
    if At(img, o) == DOT && At(img, o + 1) == SLASH {
      assert s == [DOT] + ([SLASH] + CStr(img, o + 2));
      assert s == DOT_SLASH + CStr(img, o + 2);
    }
  }

  /** The name test of tar_get_file. */
  method NameMatches(img: seq<byte>, header: nat, filename: seq<byte>) returns (hit: bool)
    ensures hit <==> Matches(CStr(img, header), CStr(filename, 0))
  {
    DotSlash(img, header, CStr(filename, 0));
    var same := CString.Strcmp(img, header, filename, 0);
    if same == 0 {
      return true;
    }
    if At(img, header) == DOT && At(img, header + 1) == SLASH {
      same := CString.Strcmp(img, header + 2, filename, 0);
      return same == 0;
    }
    return false;
  }

  method ReadSize(img: seq<byte>, header: nat) returns (size: u64)
    ensures size == SizeAt(img, header)
  {
    size := OctalToInt(img, header + SIZE_FIELD);
  }

  /** The pointer step both walks take. */
  method NextHeader(img: seq<byte>, header: nat, size: u64) returns (next: nat)
    requires size == SizeAt(img, header)
    ensures next == NextAt(img, header)
  {
    var alignedSize := Wrap(size + 511) / 512 * 512;
    next := Wrap(header + BLOCK + alignedSize);
  }

  /** On a walk that ends every lookup settles. */
  lemma EndsSettles(img: seq<byte>, key: seq<byte>)
    requires Ends(img)
    ensures exists n: nat :: Settles(img, key, n)
  {
    var n := FirstStop(img, key, Length(img));
  }

  lemma {:induction false} FirstStop(img: seq<byte>, key: seq<byte>, n: nat) returns (m: nat)
    requires LiveUpTo(img, n) && (Over(img, Nth(img, n)) || Matches(CStr(img, Nth(img, n)), key))
    ensures m <= n && Settles(img, key, m)
    decreases n
  {
    if k: nat :| k < n && Matches(CStr(img, Nth(img, k)), key) {
      m := FirstStop(img, key, k);
    } else {
      m := n;
    }
  }

  lemma HitIsVisited(img: seq<byte>, key: seq<byte>, k: nat)
    requires Ends(img) && Hit(img, key, k)
    ensures k < Length(img)
  {
    assert Over(img, Nth(img, Length(img)));
  }

  /** On a walk that ends, a hit is a name the listing shows, plain or after "./". */
  lemma HitIsListed(img: seq<byte>, key: seq<byte>, k: nat)
    requires Hit(img, key, k)
    ensures Ends(img) ==> key in Names(img) || DOT_SLASH + key in Names(img)
  {
    if Ends(img) {
      HitIsVisited(img, key, k);
      assert Names(img)[k] == CStr(img, Nth(img, k));
    }
  }

  /** Without a hit the listing shows neither. */
  lemma MissIsUnlisted(img: seq<byte>, key: seq<byte>, k: nat)
    requires PassesUpTo(img, key, k) && Over(img, Nth(img, k))
    ensures Ends(img) && PassesUpTo(img, key, Length(img))
    ensures key !in Names(img) && DOT_SLASH + key !in Names(img)
  {
    EndsAtUnique(img, k, Length(img));
    assert forall j :: 0 <= j < Length(img) ==> !Matches(Names(img)[j], key);
  }

  lemma PassesNext(img: seq<byte>, key: seq<byte>, k: nat, n: nat)
    requires PassesUpTo(img, key, k) && k <= n && Settles(img, key, n)
    requires !Over(img, Nth(img, k)) && !Matches(CStr(img, Nth(img, k)), key)
    ensures k < n && PassesUpTo(img, key, k + 1)
  {
  }

  /**
   * Where the data of the file starts, or None; `size` is set with it. On a walk that ends, a file
   * is found exactly when the listing shows its name, plain or after "./".
   */
  method GetFile(img: seq<byte>, filename: seq<byte>) returns (data: Option<nat>, size: u64)
    requires exists n: nat :: Settles(img, CStr(filename, 0), n)
    ensures match data
            case None => Ends(img) && PassesUpTo(img, CStr(filename, 0), Length(img))
            case Some(p) =>
              exists k: nat :: Hit(img, CStr(filename, 0), k)
                               && p == Nth(img, k) + BLOCK && size == SizeAt(img, Nth(img, k))
    ensures Ends(img) ==>
      (data.Some? <==> CStr(filename, 0) in Names(img) || DOT_SLASH + CStr(filename, 0) in Names(img))
  {
    ghost var key := CStr(filename, 0);
    ghost var n: nat :| Settles(img, key, n);
    ghost var k: nat := 0;
    var header: nat := 0;
    size := 0;
    while At(img, header) != NUL
      invariant header == Nth(img, k) && header <= LIMIT
      invariant k <= n && PassesUpTo(img, key, k)
      decreases n - k
    {
      size := ReadSize(img, header);
      var hit := NameMatches(img, header, filename);
      if hit {
        HitIsListed(img, key, k);
        return Some(header + BLOCK), size;
      }
      PassesNext(img, key, k, n);
      header := NextHeader(img, header, size);
      k := k + 1;
      if header > LIMIT {
        break;
      }
    }
    MissIsUnlisted(img, key, k);
    data := None;
  }

  /** Each name on a line of its own. */
  ghost function PrintNames(g: Geometry, s: Console, names: seq<seq<byte>>): Console
    requires g.Valid()
    decreases |names|
  {
    if names == [] then s
    else
      var n := |names| - 1;
      Print(g, Print(g, PrintNames(g, s, names[..n]), names[n], YELLOW), [NEWLINE], WHITE)
  }

  lemma PrintNamesNext(g: Geometry, s: Console, names: seq<seq<byte>>, k: nat)
    requires g.Valid() && k < |names|
    ensures PrintNames(g, s, names[..k + 1])
         == Print(g, Print(g, PrintNames(g, s, names[..k]), names[k], YELLOW), [NEWLINE], WHITE)
  {
    assert names[..k + 1][..k] == names[..k];
  }

  method PrintName(display: Display, img: seq<byte>, header: nat)
    requires display.Valid() && header <= |img|
    modifies display, display.fb
    ensures display.Valid()
    ensures var g := display.geo;
            display.State() == Print(g, Print(g, old(display.State()), CStr(img, header), YELLOW), [NEWLINE], WHITE)
  {
    CStrShift(img, header);
    display.Kprint(img[header..], YELLOW);
    display.Kprint([NEWLINE], WHITE);
    assert CStr([NEWLINE], 0) == [NEWLINE];
  }

  lemma NextLive(img: seq<byte>, k: nat)
    requires Ends(img) && k <= Length(img) && !Over(img, Nth(img, k))
    ensures k < Length(img) && Names(img)[k] == CStr(img, Nth(img, k))
    ensures Nth(img, k + 1) == NextAt(img, Nth(img, k))
  {
  }

  lemma EndReached(img: seq<byte>, k: nat)
    requires Ends(img) && k <= Length(img) && Over(img, Nth(img, k))
    ensures Names(img)[..k] == Names(img)
  {
  }

  method ListFiles(display: Display, img: seq<byte>)
    requires display.Valid() && Ends(img)
    modifies display, display.fb
    ensures display.Valid()
    ensures display.State() == PrintNames(display.geo, old(display.State()), Names(img))
  {
    ghost var names := Names(img);
    ghost var k: nat := 0;
    var header: nat := 0;
    while At(img, header) != NUL
      invariant header == Nth(img, k) && header <= LIMIT && k <= |names|
      invariant display.Valid()
      invariant display.State() == PrintNames(display.geo, old(display.State()), names[..k])
      decreases |names| - k
    {
      NextLive(img, k);
      PrintNamesNext(display.geo, old(display.State()), names, k);
      PrintName(display, img, header);
      var size := ReadSize(img, header);
      header := NextHeader(img, header, size);
      k := k + 1;
      if header > LIMIT {
        break;
      }
    }
    EndReached(img, k);
  }
}
