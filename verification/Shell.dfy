/** cmd_cat and the line splitting and dispatch of kernel/shell.c. */
module Shell {
  import opened Ata
  import opened Bytes
  import CString
  import opened Directory
  import opened Fat
  import opened FatImage
  import opened FatRegions
  import opened Messages
  import opened Screen

  /** File contents and the line feed after them. */
  ghost function ShowFile(g: Geometry, s: Console, data: seq<byte>): Console
    requires g.Valid()
  {
    Print(g, Print(g, s, NonNul(data), GREEN), [NEWLINE], WHITE)
  }

  /** If the first entry with the name has a cluster, the boot sector gives a sector size to divide by. */
  ghost predicate Sized(boot: Sector, root: Sector, key: seq<byte>)
    requires |key| == 11
  {
    forall i: nat :: FirstBearing(root, i, key) && FirstCluster(root, i) != 0 ==> BytesPerSector(boot) > 0
  }

  /** Slot i is the first with the name, has a cluster, and the cluster's address can be computed. */
  ghost predicate Located(boot: Sector, root: Sector, key: seq<byte>, i: nat)
    requires |key| == 11
  {
    FirstBearing(root, i, key) && FirstCluster(root, i) != 0 && BytesPerSector(boot) > 0
  }

  /** As many bytes as the entry claims, from a buffer of one sector and the memory behind it. */
  function Claimed(sector: Sector, behind: seq<byte>, size: u32): (data: seq<byte>)
    ensures size <= SECTOR ==> data == sector[..size]
  {
    Taken(sector + behind, 0, size)
  }

  /** The bytes of the first entry with the name, unless there is none or it has no cluster. */
  ghost function Contents(disk: Disk, boot: Sector, root: Sector, key: seq<byte>, behind: seq<byte>): Option<seq<byte>>
    requires |key| == 11
  {
    if exists i: nat :: Located(boot, root, key, i) then
      var i: nat :| Located(boot, root, key, i);
      Some(Claimed(disk(ClusterLba(boot, FirstCluster(root, i)) % LBA28), behind, Size(root, i)))
    else None
  }

  lemma ContentsOf(disk: Disk, boot: Sector, root: Sector, key: seq<byte>, behind: seq<byte>, i: nat)
    requires |key| == 11 && Located(boot, root, key, i)
    ensures Contents(disk, boot, root, key, behind)
         == Some(Claimed(disk(ClusterLba(boot, FirstCluster(root, i)) % LBA28), behind, Size(root, i)))
  {
    forall j: nat | FirstBearing(root, j, key)
      ensures j == i
    {
      FirstBearingUnique(root, i, j, key);
    }
  }

  lemma ContentsNone(disk: Disk, boot: Sector, root: Sector, key: seq<byte>, behind: seq<byte>, size: Option<u32>)
    requires |key| == 11 && Answers(root, key, 0, size)
    ensures Contents(disk, boot, root, key, behind) == None
  {
    if i: nat :| FirstBearing(root, i, key) {
      var j: nat :| FirstBearing(root, j, key) && FirstCluster(root, j) == 0;
      forall k: nat | FirstBearing(root, k, key)
        ensures k == j
      {
        FirstBearingUnique(root, j, k, key);
      }
    }
  }

  /** What cat shows is settled by the disk exactly when the entry claims no more than the sector that is read. */
  lemma ContentsSettledIff(disk: Disk, boot: Sector, root: Sector, key: seq<byte>)
    requires |key| == 11
    ensures (forall a: seq<byte>, b: seq<byte> ::
               Contents(disk, boot, root, key, a) == Contents(disk, boot, root, key, b))
       <==> forall i: nat :: Located(boot, root, key, i) ==> Size(root, i) <= SECTOR
  {
    if i: nat :| Located(boot, root, key, i) {
      var sector, size := disk(ClusterLba(boot, FirstCluster(root, i)) % LBA28), Size(root, i);
      forall a: seq<byte>
        ensures Contents(disk, boot, root, key, a) == Some(Claimed(sector, a, size))
      {
        ContentsOf(disk, boot, root, key, a, i);
      }
      if size > SECTOR {
        assert Claimed(sector, [], size)[SECTOR] == NUL;
        assert Claimed(sector, [SPACE], size)[SECTOR] == SPACE;
      }
      forall j: nat | FirstBearing(root, j, key)
        ensures j == i
      {
        FirstBearingUnique(root, i, j, key);
      }
    }
  }

  /** The console after cat has been asked for `text`. */
  ghost function AfterCat(g: Geometry, s: Console, text: seq<byte>, contents: Option<seq<byte>>): Console
    requires g.Valid()
  {
    if text == [] then Print(g, s, USAGE, WHITE)
    else match contents
      case Some(data) => ShowFile(g, s, data)
      case None => Print(g, s, NOT_FOUND, RED)
  }

  /** The branch of cat that has found a file. */
  method PrintFile(display: Display, reader: Reader, cluster: nat, size: u32, behind: seq<byte>)
    requires display.Valid() && reader.Valid()
    requires cluster < 0x1_0000 && BytesPerSector(reader.Boot()) > 0
    requires reader.bootSector as object != display.fb && reader.drive as object != display
    modifies display, display.fb, reader.drive
    ensures display.Valid()
    ensures display.State() == ShowFile(display.geo, old(display.State()),
              Claimed(reader.drive.disk(ClusterLba(old(reader.Boot()), cluster) % LBA28), behind, size))
  {
    var buf := new byte[SECTOR];
    reader.ReadFile(cluster, buf);
    PrintEach(display, Claimed(buf[..], behind, size), GREEN);
    display.Kprint([NEWLINE], WHITE);
    assert CStr([NEWLINE], 0) == [NEWLINE];
  }

  method FindNamed(reader: Reader, args: seq<byte>) returns (cluster: nat, size: Option<u32>)
    requires reader.Valid()
    modifies reader.drive
    ensures cluster < 0x1_0000
    ensures Answers(reader.Root(), Formatted(CStr(args, 0)), cluster, size)
  {
    var fatName := new byte[11];
    FormatName(args, fatName);
    cluster, size := reader.FindFile(fatName[..]);
  }

  method CmdCat(display: Display, reader: Reader, args: seq<byte>, behind: seq<byte>)
    requires display.Valid() && reader.Valid()
    requires reader.bootSector as object != display.fb && reader.drive as object != display
    requires CStr(args, 0) != [] ==> Sized(reader.Boot(), reader.Root(), Formatted(CStr(args, 0)))
    modifies display, display.fb, reader.drive
    ensures display.Valid()
    ensures display.State() ==
            AfterCat(display.geo, old(display.State()), CStr(args, 0),
                     Contents(reader.drive.disk, old(reader.Boot()), old(reader.Root()),
                              Formatted(CStr(args, 0)), behind))
  {
    ghost var key, disk, boot, root := Formatted(CStr(args, 0)), reader.drive.disk, reader.Boot(), reader.Root();
    TextWhole(USAGE);
    TextWhole(NOT_FOUND);
    var len := CString.Strlen(args, 0);
    if len == 0 {
      display.Kprint(USAGE, WHITE);
      return;
    }
    var cluster, size := FindNamed(reader, args);
    if cluster != 0 {
      ghost var i: nat :| FirstBearing(root, i, key) && cluster == FirstCluster(root, i) && size.value == Size(root, i);
      ContentsOf(disk, boot, root, key, behind, i);
      PrintFile(display, reader, cluster, size.value, behind);
    } else {
      ContentsNone(disk, boot, root, key, behind, size);
      display.Kprint(NOT_FOUND, RED);
    }
  }

  // ---- On a volume that holds a list of files ------------------------------------

  /** A file of the volume is found under its name, with exactly its bytes. */
  lemma FilePresent(disk: Disk, v: Volume, text: seq<byte>, behind: seq<byte>, k: nat)
    requires Stores(disk, v) && NUL !in text
    requires FirstNamed(v.entries, k, Formatted(text)) && v.entries[k].data != []
    ensures Contents(disk, v.Boot(), v.Root(), Formatted(text), behind) == Some(v.entries[k].data)
  {
    FieldsRead(v.boot);
    SearchFinds(v, text, k);
    SlotReads(v.entries, k);
    StoredFile(disk, v, k);
    ContentsOf(disk, v.Boot(), v.Root(), Formatted(text), behind, k);
  }

  /** A name the volume does not have, or has for an empty file or a label, is not found. */
  lemma FileAbsent(disk: Disk, v: Volume, text: seq<byte>, behind: seq<byte>)
    requires Stores(disk, v) && NUL !in text
    requires forall k: nat :: FirstNamed(v.entries, k, Formatted(text)) ==> v.entries[k].data == []
    ensures Contents(disk, v.Boot(), v.Root(), Formatted(text), behind) == None
  {
    forall i: nat
      ensures !Located(v.Boot(), v.Root(), Formatted(text), i)
    {
      SearchFinds(v, text, i);
      if FirstNamed(v.entries, i, Formatted(text)) {
        SlotReads(v.entries, i);
      }
    }
  }

  /**
   * The contents are those of the first entry with the seven-bit name; None exactly when there is
   * no such entry or it holds no data.
   */
  ghost predicate FromVolume(v: Volume, key: seq<byte>, contents: Option<seq<byte>>) {
    && (forall k: nat :: FirstNamed(v.entries, k, key) && v.entries[k].data != [] ==>
          contents == Some(v.entries[k].data))
    && ((forall k: nat :: FirstNamed(v.entries, k, key) ==> v.entries[k].data == []) ==> contents == None)
  }

  lemma ContentsOfVolume(disk: Disk, v: Volume, text: seq<byte>, behind: seq<byte>)
    requires Stores(disk, v) && NUL !in text
    ensures FromVolume(v, Formatted(text), Contents(disk, v.Boot(), v.Root(), Formatted(text), behind))
  {
    var key := Formatted(text);
    if k: nat :| FirstNamed(v.entries, k, key) && v.entries[k].data != [] {
      FilePresent(disk, v, text, behind, k);
    } else {
      FileAbsent(disk, v, text, behind);
    }
  }

  lemma VolumeSized(v: Volume, key: seq<byte>)
    requires v.Valid() && |key| == 11
    ensures Sized(v.Boot(), v.Root(), key)
  {
    FieldsRead(v.boot);
  }

  /** fat_init and then cat: the on-disk round trip. */
  method CatVolume(display: Display, reader: Reader, args: seq<byte>, behind: seq<byte>, ghost v: Volume)
    returns (ghost contents: Option<seq<byte>>)
    requires display.Valid() && reader.Valid()
    requires reader.bootSector as object != display.fb && reader.drive as object != display
    requires Stores(reader.drive.disk, v)
    modifies display, display.fb, reader.drive, reader.bootSector
    ensures display.Valid()
    ensures FromVolume(v, Formatted(CStr(args, 0)), contents)
    ensures display.State() == AfterCat(display.geo, old(display.State()), CStr(args, 0), contents)
  {
    reader.Init();
    ghost var text := CStr(args, 0);
    CStrIs(args, 0);
    StoredRoot(reader.drive.disk, v);
    contents := Contents(reader.drive.disk, v.Boot(), v.Root(), Formatted(text), behind);
    ContentsOfVolume(reader.drive.disk, v, text, behind);
    VolumeSized(v, Formatted(text));
    CmdCat(display, reader, args, behind);
  }

  /** The same for a name as it is typed: base, dot, extension. */
  method CatTyped(display: Display, reader: Reader, base: seq<byte>, ext: seq<byte>, behind: seq<byte>,
                  ghost v: Volume)
    returns (ghost contents: Option<seq<byte>>)
    requires display.Valid() && reader.Valid()
    requires reader.bootSector as object != display.fb && reader.drive as object != display
    requires Stores(reader.drive.disk, v)
    requires NUL !in base && DOT !in base && NUL !in ext
    modifies display, display.fb, reader.drive, reader.bootSector
    ensures display.Valid()
    ensures FromVolume(v, Pad(Shout(base), 8) + Pad(Shout(ext), 3), contents)
    ensures display.State() == AfterCat(display.geo, old(display.State()), base + [DOT] + ext, contents)
  {
    var args := base + [DOT] + ext;
    CStrUnique(args, 0, args);
    FormattedTyped(base, ext);
    contents := CatVolume(display, reader, args, behind, v);
  }

  // ---- Splitting and dispatch ----------------------------------------------------

  const COMMANDS: seq<seq<byte>> := [
    Ascii("clear"), Ascii("help"), Ascii("ls"), Ascii("cat"), Ascii("cd"),
    Ascii("layout"), Ascii("uptime"), Ascii("echo"), Ascii("reboot")
  ]
  const CAT := 3

  /** The command word and, behind the first space, its arguments. */
  function FirstSpace(line: seq<byte>): (n: nat)
    ensures n <= |line| && (n < |line| ==> line[n] == SPACE)
    ensures forall k :: 0 <= k < n ==> line[k] != SPACE
  {
    if line == [] || line[0] == SPACE then 0 else 1 + FirstSpace(line[1..])
  }

  function Word(line: seq<byte>): seq<byte> {
    line[..FirstSpace(line)]
  }

  function Arguments(line: seq<byte>): seq<byte> {
    if FirstSpace(line) < |line| then line[FirstSpace(line) + 1..] else []
  }

  /** Cut the line in place at its first space; `args` is where the arguments start, None for the empty string. */
  method Split(input: array<byte>) returns (args: Option<nat>)
    requires NUL in input[..]
    modifies input
    ensures var line := CStr(old(input[..]), 0);
            && CStr(input[..], 0) == Word(line)
            && (match args case Some(p) => CStr(input[..], p) case None => []) == Arguments(line)
            && (args.Some? ==> Word(line) + [SPACE] + Arguments(line) == line)
  {
    ghost var was := input[..];
    ghost var line := CStr(was, 0);
    CStrReads(was);
    LineInside(was);
    args := None;
    var i := 0;
    while input[i] != NUL
      invariant 0 <= i <= |line| && i <= FirstSpace(line) && input[..] == was && args == None
      decreases |line| - i
    {
      assert At(was, i) == line[i];
      if input[i] == SPACE {
        input[i] := NUL;
        args := Some(i + 1);
        CutLine(was, input[..], i);
        return;
      }
      i := i + 1;
    }
    assert At(was, i) == NUL;
  }

  lemma LineInside(mem: seq<byte>)
    requires NUL in mem
    ensures |CStr(mem, 0)| < |mem|
  {
    CStrIs(mem, 0);
    var k :| 0 <= k < |mem| && mem[k] == NUL;
    assert At(mem, k) == NUL;
  }

  lemma CutLine(was: seq<byte>, now: seq<byte>, i: nat)
    requires i < |was| && now == was[i := NUL]
    requires var line := CStr(was, 0); i < |line| && i == FirstSpace(line)
    ensures var line := CStr(was, 0);
            && CStr(now, 0) == Word(line) && CStr(now, i + 1) == Arguments(line)
            && Word(line) + [SPACE] + Arguments(line) == line
  {
    CutWord(was, now, i);
    CutArguments(was, now, i);
  }

  lemma CutWord(was: seq<byte>, now: seq<byte>, i: nat)
    requires i < |was| && now == was[i := NUL]
    requires var line := CStr(was, 0); i < |line| && i == FirstSpace(line)
    ensures CStr(now, 0) == Word(CStr(was, 0))
  {
    var line := CStr(was, 0);
    CStrReads(was);
    forall k | 0 <= k < i
      ensures Word(line)[k] == At(now, 0 + k)
    {
      assert At(was, k) == line[k];
    }
    CStrUnique(now, 0, Word(line));
  }

  lemma CutArguments(was: seq<byte>, now: seq<byte>, i: nat)
    requires i < |was| && now == was[i := NUL]
    requires var line := CStr(was, 0); i < |line| && i == FirstSpace(line)
    ensures CStr(now, i + 1) == Arguments(CStr(was, 0))
  {
    var line := CStr(was, 0);
    CStrReads(was);
    var rest := Arguments(line);
    forall k | 0 <= k < |rest|
      ensures rest[k] == At(now, i + 1 + k)
    {
      assert line[i + 1 + k] == At(was, i + 1 + k);
    }
    assert At(was, |line|) == NUL;
    CStrUnique(now, i + 1, rest);
  }

  /** The first command from the i-th on with that name. */
  function Lookup(word: seq<byte>, i: nat): (command: Option<nat>)
    ensures command.Some? ==> command.value < |COMMANDS|
    decreases |COMMANDS| - i
  {
    if i >= |COMMANDS| then None else if COMMANDS[i] == word then Some(i) else Lookup(word, i + 1)
  }

  lemma {:induction false} LookupFinds(word: seq<byte>, i: nat)
    ensures match Lookup(word, i)
            case Some(n) => i <= n && COMMANDS[n] == word
            case None => forall k :: i <= k < |COMMANDS| ==> COMMANDS[k] != word
    decreases |COMMANDS| - i
  {
    if i < |COMMANDS| && COMMANDS[i] != word {
      LookupFinds(word, i + 1);
    }
  }

  lemma NamesApart(i: nat, j: nat)
    requires i < j < |COMMANDS|
    ensures COMMANDS[i] != COMMANDS[j]
  {
    assert |COMMANDS[0]| == 5 && |COMMANDS[1]| == 4 && |COMMANDS[2]| == 2 && |COMMANDS[3]| == 3 && |COMMANDS[4]| == 2;
    assert |COMMANDS[5]| == 6 && |COMMANDS[6]| == 6 && |COMMANDS[7]| == 4 && |COMMANDS[8]| == 6;
    assert COMMANDS[1][0] == 104 && COMMANDS[7][0] == 101 && COMMANDS[2][0] == 108 && COMMANDS[4][0] == 99;
    assert COMMANDS[5][0] == 108 && COMMANDS[6][0] == 117 && COMMANDS[8][0] == 114;
  }

  /** Every name in the table finds its own command. */
  lemma LookupName(n: nat)
    requires n < |COMMANDS|
    ensures Lookup(COMMANDS[n], 0) == Some(n)
  {
    LookupFinds(COMMANDS[n], 0);
    var found := Lookup(COMMANDS[n], 0);
    if found.Some? && found.value < n {
      NamesApart(found.value, n);
    } else if found.Some? && n < found.value {
      NamesApart(n, found.value);
    }
  }

  /** The table search: the index of the command with that name, or None for an unknown word. */
  method Dispatch(input: seq<byte>) returns (command: Option<nat>)
    ensures command == Lookup(CStr(input, 0), 0)
    ensures match command
            case Some(n) => n < |COMMANDS| && COMMANDS[n] == CStr(input, 0)
            case None => CStr(input, 0) !in COMMANDS
  {
    NamesWhole();
    LookupFinds(CStr(input, 0), 0);
    var i := 0;
    while i < |COMMANDS|
      invariant 0 <= i <= |COMMANDS| && Lookup(CStr(input, 0), i) == Lookup(CStr(input, 0), 0)
    {
      var order := CString.Strcmp(input, 0, COMMANDS[i], 0);
      if order == 0 {
        return Some(i);
      }
      i := i + 1;
    }
    return None;
  }

  lemma NamesWhole()
    ensures forall k :: 0 <= k < |COMMANDS| ==> CStr(COMMANDS[k], 0) == COMMANDS[k]
  {
    forall k | 0 <= k < |COMMANDS|
      ensures CStr(COMMANDS[k], 0) == COMMANDS[k]
    {
      CStrUnique(COMMANDS[k], 0, COMMANDS[k]);
    }
  }
}
