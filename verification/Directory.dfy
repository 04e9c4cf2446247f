/** Root directory search and listing of kernel/drivers/fat.c. */
module Directory {
  import opened Ata
  import opened Bytes
  import opened Fat
  import opened Screen

  const SLOTS := 16

  // ---- Directory entries, 32 packed bytes each -------------------------------

  function Name(s: Sector, i: nat): (name: seq<byte>)
    requires i < SLOTS
    ensures |name| == 11
  {
    s[32 * i..32 * i + 11]
  }

  function Attr(s: Sector, i: nat): byte
    requires i < SLOTS
  {
    s[32 * i + 11]
  }

  function FirstCluster(s: Sector, i: nat): (c: nat)
    requires i < SLOTS
    ensures c < 0x1_0000
  {
    U16(s, 32 * i + 26)
  }

  function Size(s: Sector, i: nat): u32
    requires i < SLOTS
  {
    U32(s, 32 * i + 28)
  }

  /** Attribute bit 0x08. */
  predicate IsVolumeLabel(attr: byte) {
    attr / 8 % 2 == 1
  }

  /** An unsigned name byte against a signed key byte: bytes of 0x80 and above never agree. */
  method NameMatch(name: seq<byte>, key: seq<byte>) returns (same: bool)
    requires |name| == 11 && |key| == 11
    ensures same <==> name == key && SevenBit(key)
  {
    var i := 0;
    while i < 11
      invariant 0 <= i <= 11
      invariant forall k :: 0 <= k < i ==> name[k] == key[k] && key[k] < 0x80
    {
      if name[i] != Signed(key[i]) {
        return false;
      }
      i := i + 1;
    }
    return true;
  }

  predicate SevenBit(name: seq<byte>) {
    forall k :: 0 <= k < |name| ==> name[k] < 0x80
  }

  /** Slot i bears the key: same bytes, all of them seven-bit. */
  ghost predicate Bears(s: Sector, i: nat, key: seq<byte>)
    requires i < SLOTS && |key| == 11
  {
    Name(s, i) == key && SevenBit(key)
  }

  /** The slot fat_find_file settles on. */
  ghost predicate FirstBearing(s: Sector, i: nat, key: seq<byte>)
    requires |key| == 11
  {
    i < SLOTS && Bears(s, i, key) && forall j :: 0 <= j < i ==> !Bears(s, j, key)
  }

  /** Cluster 0 and no size when no slot bears the key, else those of the first that does. */
  ghost predicate Answers(s: Sector, key: seq<byte>, cluster: nat, size: Option<u32>)
    requires |key| == 11
  {
    match size
    case None => cluster == 0 && forall i :: 0 <= i < SLOTS ==> !Bears(s, i, key)
    case Some(n) => exists i: nat :: FirstBearing(s, i, key) && cluster == FirstCluster(s, i) && n == Size(s, i)
  }

  /** No slot before i, nor i itself, starts with the end mark 0x00. */
  ghost predicate BeforeEnd(s: Sector, i: nat)
    requires i < SLOTS
  {
    forall j :: 0 <= j <= i ==> Name(s, j)[0] != 0x00
  }

  /** The slots fat_list_files prints. */
  ghost predicate Listed(s: Sector, i: nat)
    requires i < SLOTS
  {
    BeforeEnd(s, i) && Name(s, i)[0] != 0xE5 && !IsVolumeLabel(Attr(s, i))
  }

  /**
   * Although the search tests neither mark, it never settles on a free or deleted slot: what it finds
   * is listed exactly when no end mark stands before it and it is no volume label.
   */
  lemma SearchSkipsFree(s: Sector, i: nat, text: seq<byte>)
    requires i < SLOTS && NUL !in text && Bears(s, i, Formatted(text))
    ensures Name(s, i)[0] != 0x00 && Name(s, i)[0] != 0xE5
    ensures Listed(s, i) <==> BeforeEnd(s, i) && !IsVolumeLabel(Attr(s, i))
  {
    assert Name(s, i)[0] == Formatted(text)[0] == BaseAt(text, 0);
  }

  /**
   * The text the listing prints for a slot finds that slot exactly when the name is canonical and
   * seven-bit and no earlier slot shares it.
   */
  lemma PrintedFindsIff(s: Sector, i: nat)
    requires i < SLOTS
    ensures FirstBearing(s, i, Formatted(EntryText(Name(s, i)))) <==>
      && Canonical(Name(s, i))
      && SevenBit(Name(s, i))
      && (forall j :: 0 <= j < i ==> Name(s, j) != Name(s, i))
  {
    var key := Formatted(EntryText(Name(s, i)));
    PrintedRoundTripIff(Name(s, i));
    if FirstBearing(s, i, key) {
      forall j | 0 <= j < i
        ensures Name(s, j) != Name(s, i)
      {
        assert !Bears(s, j, key);
      }
    }
  }

  lemma FirstBearingUnique(s: Sector, i: nat, j: nat, key: seq<byte>)
    requires |key| == 11 && FirstBearing(s, i, key) && FirstBearing(s, j, key)
    ensures i == j
  {
  }

  const LABEL: seq<byte> := [76, 65, 66, 69, 76, 32, 32, 32, 32, 32, 32]

  /** Two ways in which search finds what the listing does not show: a volume label, and a slot behind the end mark. */
  lemma SearchSeesMore() returns (labelled: Sector, stale: Sector)
    ensures FirstBearing(labelled, 0, Formatted(LABEL[..5])) && !Listed(labelled, 0)
    ensures FirstBearing(stale, 1, Formatted(LABEL[..5])) && !Listed(stale, 1) && !IsVolumeLabel(Attr(stale, 1))
  {
    labelled := seq(SECTOR, k requires 0 <= k < SECTOR => if k < 11 then LABEL[k] else if k == 11 then 0x08 else 0);
    stale := seq(SECTOR, k requires 0 <= k < SECTOR => if 32 <= k < 43 then LABEL[k - 32] else 0);
    var text := LABEL[..5];
    NoDot(text);
    assert Formatted(text) == LABEL;
    assert Name(labelled, 0) == LABEL && Name(stale, 1) == LABEL;
    assert Name(stale, 0)[0] == 0;
  }

  // ---- Reading the disk ---------------------------------------------------------

  class Reader {
    const drive: Drive
    const bootSector: array<byte>

    ghost predicate Valid() {
      bootSector.Length == SECTOR
    }

    /** The boot sector as last read. */
    ghost function Boot(): Sector
      requires Valid()
      reads bootSector
    {
      bootSector[..]
    }

    /** The first sector of the root directory. */
    ghost function Root(): Sector
      requires Valid()
      reads bootSector
    {
      drive.disk(RootLba(Boot()) % LBA28)
    }

    constructor (drive: Drive)
      ensures this.drive == drive
      ensures Valid() && fresh(bootSector)
    {
      this.drive := drive;
      bootSector := new byte[SECTOR];
    }

    method Init()
      requires Valid()
      modifies drive, bootSector
      ensures Boot() == drive.disk(0)
    {
      drive.ReadSector(0, bootSector);
      RootSmall(bootSector[..]);
      var rootBuf := new byte[SECTOR];
      drive.ReadSector(RootLba(bootSector[..]), rootBuf);
    }

    method FindFile(key: seq<byte>) returns (cluster: nat, size: Option<u32>)
      requires Valid() && |key| == 11
      modifies drive
      ensures cluster < 0x1_0000
      ensures Answers(Root(), key, cluster, size)
    {
      RootSmall(Boot());
      var buf := new byte[SECTOR];
      drive.ReadSector(RootLba(bootSector[..]), buf);
      cluster, size := Search(buf[..], key);
    }

    /** Names of the listed files, one a line. */
    method ListFiles(display: Display)
      requires Valid() && display.Valid() && bootSector as object != display.fb
      modifies drive, display, display.fb
      ensures display.Valid()
      ensures display.State() == ShowNames(display.geo, old(display.State()), ListedNames(Root(), SLOTS))
    {
      ghost var root := Root();
      RootSmall(Boot());
      var buf := new byte[SECTOR];
      drive.ReadSector(RootLba(bootSector[..]), buf);
      PrintListing(display, buf[..]);
    }

    /** Only the first sector of the cluster is read. */
    method ReadFile(cluster: nat, target: array<byte>)
      requires Valid() && target.Length == SECTOR && target != bootSector
      requires cluster < 0x1_0000 && BytesPerSector(Boot()) > 0
      modifies drive, target
      ensures target[..] == drive.disk(ClusterLba(Boot(), cluster) % LBA28)
    {
      drive.ReadSector(ClusterLba(bootSector[..], cluster), target);
    }
  }

  method Search(entries: Sector, key: seq<byte>) returns (cluster: nat, size: Option<u32>)
    requires |key| == 11
    ensures cluster < 0x1_0000
    ensures Answers(entries, key, cluster, size)
  {
    var i := 0;
    while i < SLOTS
      invariant 0 <= i <= SLOTS
      invariant forall j :: 0 <= j < i ==> !Bears(entries, j, key)
    {
      var same := NameMatch(Name(entries, i), key);
      if same {
        assert FirstBearing(entries, i, key);
        return FirstCluster(entries, i), Some(Size(entries, i));
      }
      i := i + 1;
    }
    return 0, None;
  }

  /** The loop that prints bytes as strings of one character: a NUL prints nothing. */
  method PrintEach(display: Display, bytes: seq<byte>, color: Pixel)
    requires display.Valid()
    modifies display, display.fb
    ensures display.Valid()
    ensures display.State() == Print(display.geo, old(display.State()), NonNul(bytes), color)
  {
    ghost var g, start := display.geo, display.State();
    var i := 0;
    while i < |bytes|
      invariant 0 <= i <= |bytes| && display.Valid()
      invariant display.State() == Print(g, start, NonNul(bytes[..i]), color)
    {
      display.Kprint([bytes[i], NUL], color);
      OneCharacter(g, start, bytes, i, color);
      i := i + 1;
    }
    assert bytes[..i] == bytes;
  }

  lemma OneCharacter(g: Geometry, s: Console, bytes: seq<byte>, i: nat, color: Pixel)
    requires g.Valid() && i < |bytes|
    ensures Print(g, Print(g, s, NonNul(bytes[..i]), color), CStr([bytes[i], NUL], 0), color)
         == Print(g, s, NonNul(bytes[..i + 1]), color)
  {
    var c := bytes[i];
    assert bytes[..i + 1] == bytes[..i] + [c];
    NonNulSnoc(bytes[..i], c);
    assert CStr([c, NUL], 0) == if c == NUL then [] else [c];
    assert NonNul(bytes[..i]) + [] == NonNul(bytes[..i]);
    PrintConcat(g, s, NonNul(bytes[..i]), CStr([c, NUL], 0), color);
  }

  ghost function ShowName(g: Geometry, s: Console, name: seq<byte>): Console
    requires g.Valid() && |name| == 11
  {
    Print(g, Print(g, s, EntryText(name), GREEN), [NEWLINE], WHITE)
  }

  ghost function ShowNames(g: Geometry, s: Console, names: seq<seq<byte>>): Console
    requires g.Valid() && forall k :: 0 <= k < |names| ==> |names[k]| == 11
    decreases |names|
  {
    if names == [] then s
    else ShowName(g, ShowNames(g, s, names[..|names| - 1]), names[|names| - 1])
  }

  /** Names of the listed ones among the first n slots. */
  ghost function ListedNames(s: Sector, n: nat): (names: seq<seq<byte>>)
    requires n <= SLOTS
    ensures forall k :: 0 <= k < |names| ==> |names[k]| == 11
  {
    if n == 0 then []
    else if Listed(s, n - 1) then ListedNames(s, n - 1) + [Name(s, n - 1)]
    else ListedNames(s, n - 1)
  }

  lemma {:induction false} NothingAfterEnd(s: Sector, i: nat, n: nat)
    requires i < n <= SLOTS && Name(s, i)[0] == 0x00
    ensures ListedNames(s, n) == ListedNames(s, i)
    decreases n
  {
    assert !BeforeEnd(s, n - 1);
    if i < n - 1 {
      NothingAfterEnd(s, i, n - 1);
    }
  }

  lemma ShowNext(g: Geometry, s: Console, entries: Sector, i: nat)
    requires g.Valid() && i < SLOTS
    ensures ShowNames(g, s, ListedNames(entries, i + 1))
         == if Listed(entries, i) then ShowName(g, ShowNames(g, s, ListedNames(entries, i)), Name(entries, i))
            else ShowNames(g, s, ListedNames(entries, i))
  {
    var names := ListedNames(entries, i + 1);
    if Listed(entries, i) {
      assert names[..|names| - 1] == ListedNames(entries, i);
    }
  }

  method PrintEntry(display: Display, name: seq<byte>)
    requires display.Valid() && |name| == 11
    modifies display, display.fb
    ensures display.Valid()
    ensures display.State() == ShowName(display.geo, old(display.State()), name)
  {
    ghost var g, start := display.geo, display.State();
    PrintEach(display, name[..8], GREEN);
    display.Kprint([DOT], GREEN);
    assert CStr([DOT], 0) == [DOT];
    PrintEach(display, name[8..], GREEN);
    PrintConcat(g, start, NonNul(name[..8]), [DOT], GREEN);
    PrintConcat(g, start, NonNul(name[..8]) + [DOT], NonNul(name[8..]), GREEN);
    display.Kprint([NEWLINE], WHITE);
    assert CStr([NEWLINE], 0) == [NEWLINE];
  }

  /** Deleted entries and volume labels are passed over. */
  method PrintSlot(display: Display, entries: Sector, i: nat)
    requires display.Valid() && i < SLOTS && BeforeEnd(entries, i)
    modifies display, display.fb
    ensures display.Valid()
    ensures display.State() == if Listed(entries, i) then ShowName(display.geo, old(display.State()), Name(entries, i))
                               else old(display.State())
  {
    if Name(entries, i)[0] == 0xE5 {
      return;
    }
    if IsVolumeLabel(Attr(entries, i)) {
      return;
    }
    PrintEntry(display, Name(entries, i));
  }

  /** One more slot of the listing. */
  method PrintNext(display: Display, entries: Sector, i: nat, ghost start: Console)
    requires display.Valid() && i < SLOTS && BeforeEnd(entries, i)
    requires display.State() == ShowNames(display.geo, start, ListedNames(entries, i))
    modifies display, display.fb
    ensures display.Valid()
    ensures display.State() == ShowNames(display.geo, start, ListedNames(entries, i + 1))
  {
    PrintSlot(display, entries, i);
    ShowNext(display.geo, start, entries, i);
  }

  method PrintListing(display: Display, entries: Sector)
    requires display.Valid()
    modifies display, display.fb
    ensures display.Valid()
    ensures display.State() == ShowNames(display.geo, old(display.State()), ListedNames(entries, SLOTS))
  {
    ghost var start := display.State();
    var i := 0;
    while i < SLOTS
      invariant 0 <= i <= SLOTS && display.Valid()
      invariant forall j :: 0 <= j < i ==> Name(entries, j)[0] != 0x00
      invariant display.State() == ShowNames(display.geo, start, ListedNames(entries, i))
    {
      if Name(entries, i)[0] == 0x00 {
        NothingAfterEnd(entries, i, SLOTS);
        break;
      }
      PrintNext(display, entries, i, start);
      i := i + 1;
    }
  }

  lemma RootSmall(b: Sector)
    ensures RootLba(b) < LBA28
  {
    ProductBound(FatCount(b), SectorsPerFat(b), 255, 65535);
  }
}
