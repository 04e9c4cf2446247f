/** Volumes as directories of files, laid out on a disk. */
module FatImage {
  import opened Arithmetic
  import opened Ata
  import opened Bytes
  import opened Directory
  import opened Fat
  import opened FatRegions
  import opened Font

  /** The attribute byte, lowest bit first. */
  datatype Attributes = Attributes(readOnly: bool, hidden: bool, system: bool, volumeLabel: bool, directory: bool,
                                   archive: bool, device: bool, unused: bool) {
    function Byte(): byte {
      Weight(readOnly, 1) + Weight(hidden, 2) + Weight(system, 4) + Weight(volumeLabel, 8) + Weight(directory, 16)
      + Weight(archive, 32) + Weight(device, 64) + Weight(unused, 128)
    }
  }

  const PLAIN := Attributes(false, false, false, false, false, false, false, false)

  /** A root directory entry and its one cluster; `stamps` are bytes 12 to 25 of the entry. */
  datatype EntryRecord = EntryRecord(name: seq<byte>, attr: Attributes, stamps: seq<byte>, cluster: nat,
                                     data: seq<byte>) {
    /** Entries whose names are not seven-bit, deleted ones among them, may have anything for cluster and data. */
    predicate Valid() {
      && |name| == 11 && name[0] != 0x00 && |stamps| == 14
      && cluster <= 0xFFFF && |data| <= SECTOR
      && (SevenBit(name) ==> cluster != 1 && (cluster == 0 <==> data == []))
    }

    /** The data stand in the cluster; empty files and labels have none. */
    predicate Holds()
      requires |name| == 11
    {
      SevenBit(name) && data != []
    }
  }

  const SAMPLE := EntryRecord(seq(11, _ => SPACE), PLAIN, seq(14, _ => 0), 2, [SPACE])

  type Entry = e: EntryRecord | e.Valid() witness SAMPLE

  /** Up to sixteen entries; those that hold data share no cluster. */
  datatype Volume = Volume(boot: Boot, entries: seq<Entry>) {
    ghost predicate Valid() {
      && |entries| <= 16
      && (forall j, k :: 0 <= j < k < |entries| && entries[j].Holds() && entries[k].Holds() ==>
            entries[j].cluster != entries[k].cluster)
    }

    function Boot(): Sector { BootSector(boot) }

    ghost function Root(): Sector
      requires Valid()
    {
      RootSector(entries)
    }
  }

  function EntryByte(e: Entry, j: nat): byte
    requires j < 32
  {
    if j < 11 then e.name[j]
    else if j == 11 then e.attr.Byte()
    else if j < 26 then e.stamps[j - 12]
    else if j == 26 then e.cluster % 0x100
    else if j == 27 then e.cluster / 0x100
    else if j == 28 then |e.data| % 0x100
    else if j == 29 then |e.data| / 0x100
    else 0
  }

  ghost function RootSector(entries: seq<Entry>): Sector
    requires |entries| <= 16
  {
    seq(SECTOR, i requires 0 <= i < SECTOR => if i / 32 < |entries| then EntryByte(entries[i / 32], i % 32) else 0)
  }

  function Padded(data: seq<byte>): Sector
    requires |data| <= SECTOR
  {
    data + seq(SECTOR - |data|, _ => 0)
  }

  /** The disk holds the volume: each sector that matters is where its region puts it. */
  ghost predicate Stores(disk: Disk, v: Volume) {
    && v.Valid()
    && disk(0) == v.Boot()
    && disk(RootStart(v.boot)) == v.Root()
    && forall k :: 0 <= k < |v.entries| && v.entries[k].Holds() ==>
         disk(ClusterStart(v.boot, v.entries[k].cluster))[..|v.entries[k].data|] == v.entries[k].data
  }

  // ---- The disk as its sectors, one after another -----------------------------------

  /** What the regions hold besides the boot sector and the first root directory sector. */
  datatype Regions = Regions(reserved: seq<Sector>, fats: seq<seq<Sector>>, root: seq<Sector>,
                             clusters: seq<seq<Sector>>)

  /** The regions have the lengths that the boot record gives, and the clusters hold the files. */
  ghost predicate Fit(v: Volume, r: Regions)
    requires v.Valid()
  {
    && |r.reserved| + 1 == v.boot.reserved
    && |r.fats| == v.boot.fatCount && (forall k :: 0 <= k < |r.fats| ==> |r.fats[k]| == v.boot.sectorsPerFat)
    && |r.root| + 1 == RootLength(v.boot)
    && (forall c :: 0 <= c < |r.clusters| ==> |r.clusters[c]| == v.boot.sectorsPerCluster)
    && forall k :: 0 <= k < |v.entries| && v.entries[k].Holds() ==>
         && v.entries[k].cluster - 2 < |r.clusters|
         && r.clusters[v.entries[k].cluster - 2][0][..|v.entries[k].data|] == v.entries[k].data
  }

  function Concat(parts: seq<seq<Sector>>): seq<Sector> {
    if parts == [] then [] else parts[0] + Concat(parts[1..])
  }

  /** Boot sector, the other reserved sectors, the FAT copies, the root directory, the clusters. */
  ghost function Image(v: Volume, r: Regions): seq<Sector>
    requires v.Valid()
  {
    [v.Boot()] + r.reserved + Concat(r.fats) + [v.Root()] + r.root + Concat(r.clusters)
  }

  /** A disk that starts with the image. */
  ghost predicate Begins(disk: Disk, image: seq<Sector>) {
    forall lba: nat :: lba < |image| ==> disk(lba) == image[lba]
  }

  lemma {:induction false} ConcatAt(parts: seq<seq<Sector>>, n: nat, k: nat)
    requires forall i :: 0 <= i < |parts| ==> |parts[i]| == n
    requires k < |parts| && n > 0
    ensures 0 <= k * n < |Concat(parts)| && Concat(parts)[k * n] == parts[k][0]
    decreases k
  {
    ConcatLength(parts, n);
    TimesMonotone(k + 1, |parts|, n);
    assert (k + 1) * n == k * n + n;
    TimesMonotone(0, k, n);
    if k > 0 {
      ConcatAt(parts[1..], n, k - 1);
      assert k * n == (k - 1) * n + n;
    }
  }

  lemma {:induction false} ConcatLength(parts: seq<seq<Sector>>, n: nat)
    requires forall i :: 0 <= i < |parts| ==> |parts[i]| == n
    ensures |Concat(parts)| == |parts| * n
    decreases |parts|
  {
    if parts != [] {
      ConcatLength(parts[1..], n);
      assert |parts| * n == (|parts| - 1) * n + n;
    }
  }

  /** Where the parts of the image start. */
  lemma ImagePlaces(v: Volume, r: Regions)
    requires v.Valid() && Fit(v, r)
    ensures var image := Image(v, r);
            && |image| == RootStart(v.boot) + RootLength(v.boot) + |Concat(r.clusters)|
            && image[0] == v.Boot() && image[RootStart(v.boot)] == v.Root()
            && image[RootStart(v.boot) + RootLength(v.boot)..] == Concat(r.clusters)
  {
    ConcatLength(r.fats, v.boot.sectorsPerFat);
    FatStartIs(v.boot, v.boot.fatCount);
    var front := [v.Boot()] + r.reserved + Concat(r.fats);
    assert |front| == RootStart(v.boot);
    assert Image(v, r) == front + [v.Root()] + r.root + Concat(r.clusters);
  }

  /** Nothing written overwrites anything else: a disk that starts with the image stores the volume. */
  lemma ImageStores(disk: Disk, v: Volume, r: Regions)
    requires v.Valid() && Fit(v, r) && Begins(disk, Image(v, r))
    ensures Stores(disk, v)
  {
    ImagePlaces(v, r);
    forall k | 0 <= k < |v.entries| && v.entries[k].Holds()
      ensures disk(ClusterStart(v.boot, v.entries[k].cluster))[..|v.entries[k].data|] == v.entries[k].data
    {
      ClusterPlaced(v, r, v.entries[k].cluster);
    }
  }

  /** Each cluster of the image stands where counting clusters puts it. */
  lemma ClusterPlaced(v: Volume, r: Regions, cluster: nat)
    requires v.Valid() && Fit(v, r) && 2 <= cluster < |r.clusters| + 2
    ensures ClusterStart(v.boot, cluster) < |Image(v, r)|
    ensures Image(v, r)[ClusterStart(v.boot, cluster)] == r.clusters[cluster - 2][0]
  {
    var image, data := Image(v, r), RootStart(v.boot) + RootLength(v.boot);
    var offset := (cluster - 2) * v.boot.sectorsPerCluster;
    ImagePlaces(v, r);
    ConcatAt(r.clusters, v.boot.sectorsPerCluster, cluster - 2);
    ClusterStartIs(v.boot, cluster);
    assert image[data + offset] == image[data..][offset];
  }

  /** The entry that owns a cluster, if there is one. */
  ghost function Owner(entries: seq<Entry>, cluster: nat): Option<Entry>
    decreases |entries|
  {
    if entries == [] then None
    else if entries[0].Holds() && entries[0].cluster == cluster then Some(entries[0])
    else Owner(entries[1..], cluster)
  }

  lemma {:induction false} OwnerAt(entries: seq<Entry>, k: nat)
    requires k < |entries| && entries[k].Holds()
    requires forall i, j :: 0 <= i < j < |entries| && entries[i].Holds() && entries[j].Holds() ==>
               entries[i].cluster != entries[j].cluster
    ensures Owner(entries, entries[k].cluster) == Some(entries[k])
    decreases k
  {
    if k > 0 {
      assert entries[1..][k - 1] == entries[k];
      OwnerAt(entries[1..], k - 1);
    }
  }

  ghost function ClusterOf(v: Volume, cluster: nat, fill: Sector): (sectors: seq<Sector>)
    ensures |sectors| == v.boot.sectorsPerCluster
  {
    var first := match Owner(v.entries, cluster) case Some(e) => Padded(e.data) case None => fill;
    [first] + seq(v.boot.sectorsPerCluster - 1, _ => fill)
  }

  /** Regions for a volume, with the same sector wherever anything may stand. */
  ghost function Filled(v: Volume, fill: Sector): Regions
    requires v.Valid()
  {
    RootLengthFound(v.boot);
    Regions(seq(v.boot.reserved - 1, _ => fill),
            seq(v.boot.fatCount, _ => seq(v.boot.sectorsPerFat, _ => fill)),
            seq(RootLength(v.boot) - 1, _ => fill),
            seq(0xFFFE, c requires 0 <= c < 0xFFFE => ClusterOf(v, c + 2, fill)))
  }

  /** Every volume has such an image. */
  lemma FilledFits(v: Volume, fill: Sector)
    requires v.Valid()
    ensures Fit(v, Filled(v, fill))
  {
    RootLengthFound(v.boot);
    forall k | 0 <= k < |v.entries| && v.entries[k].Holds()
      ensures var c := v.entries[k].cluster - 2;
              Filled(v, fill).clusters[c][0][..|v.entries[k].data|] == v.entries[k].data
    {
      OwnerAt(v.entries, k);
      assert Filled(v, fill).clusters[v.entries[k].cluster - 2] == ClusterOf(v, v.entries[k].cluster, fill);
    }
  }

  lemma SlotOf(entries: seq<Entry>, i: nat, j: nat)
    requires |entries| <= 16
    requires i < SLOTS && j < 32
    ensures RootSector(entries)[32 * i + j] == if i < |entries| then EntryByte(entries[i], j) else 0
  {
    assert (32 * i + j) / 32 == i && (32 * i + j) % 32 == j;
  }

  lemma SlotReads(entries: seq<Entry>, i: nat)
    requires |entries| <= 16
    requires i < |entries|
    ensures Name(RootSector(entries), i) == entries[i].name
    ensures Attr(RootSector(entries), i) == entries[i].attr.Byte()
    ensures FirstCluster(RootSector(entries), i) == entries[i].cluster
    ensures Size(RootSector(entries), i) == |entries[i].data|
  {
    SlotName(entries, i);
    SlotAttr(entries, i);
    SlotCluster(entries, i);
    SlotSize(entries, i);
  }

  lemma SlotName(entries: seq<Entry>, i: nat)
    requires i < |entries| <= 16
    ensures Name(RootSector(entries), i) == entries[i].name
  {
    forall j | 0 <= j < 11
      ensures Name(RootSector(entries), i)[j] == entries[i].name[j]
    {
      SlotOf(entries, i, j);
    }
  }

  lemma SlotAttr(entries: seq<Entry>, i: nat)
    requires i < |entries| <= 16
    ensures Attr(RootSector(entries), i) == entries[i].attr.Byte()
  {
    SlotOf(entries, i, 11);
  }

  lemma SlotCluster(entries: seq<Entry>, i: nat)
    requires i < |entries| <= 16
    ensures FirstCluster(RootSector(entries), i) == entries[i].cluster
  {
    SlotOf(entries, i, 26);
    SlotOf(entries, i, 27);
  }

  lemma SlotSize(entries: seq<Entry>, i: nat)
    requires i < |entries| <= 16
    ensures Size(RootSector(entries), i) == |entries[i].data|
  {
    SlotOf(entries, i, 28);
    SlotOf(entries, i, 29);
    SlotOf(entries, i, 30);
    SlotOf(entries, i, 31);
    SmallWord(RootSector(entries), 32 * i + 28, |entries[i].data|);
  }

  lemma SmallWord(s: seq<byte>, p: nat, n: nat)
    requires p + 4 <= |s| && n <= 0xFFFF
    requires s[p] == n % 0x100 && s[p + 1] == n / 0x100 && s[p + 2] == 0 && s[p + 3] == 0
    ensures U32(s, p) == n
  {
  }

  lemma UnusedSlot(entries: seq<Entry>, i: nat)
    requires |entries| <= 16
    requires |entries| <= i < SLOTS
    ensures Name(RootSector(entries), i)[0] == 0x00
  {
    SlotOf(entries, i, 0);
  }

  /** Entry i is the first with this name, which is seven-bit. */
  ghost predicate FirstNamed(entries: seq<Entry>, i: nat, key: seq<byte>) {
    i < |entries| && entries[i].name == key && SevenBit(key) && forall j :: 0 <= j < i ==> entries[j].name != key
  }

  /** Searching the written directory is searching the list: the first entry with that seven-bit name, or none. */
  lemma SearchFinds(v: Volume, text: seq<byte>, i: nat)
    requires v.Valid() && NUL !in text
    ensures FirstBearing(v.Root(), i, Formatted(text)) <==> FirstNamed(v.entries, i, Formatted(text))
  {
    var s, key := v.Root(), Formatted(text);
    forall j | 0 <= j < SLOTS
      ensures Bears(s, j, key) <==> j < |v.entries| && v.entries[j].name == key && SevenBit(key)
    {
      if j < |v.entries| {
        SlotReads(v.entries, j);
      } else {
        UnusedSlot(v.entries, j);
        assert key[0] == BaseAt(text, 0);
      }
    }
  }

  /** The names a listing should show: neither deleted entries nor volume labels. */
  ghost function LiveNames(entries: seq<Entry>): (names: seq<seq<byte>>)
    ensures forall k :: 0 <= k < |names| ==> |names[k]| == 11
    decreases |entries|
  {
    if entries == [] then []
    else
      var n := |entries| - 1;
      var e := entries[n];
      LiveNames(entries[..n]) + if e.name[0] == 0xE5 || e.attr.volumeLabel then [] else [e.name]
  }

  lemma LabelBit(attr: Attributes)
    ensures IsVolumeLabel(attr.Byte()) <==> attr.volumeLabel
  {
    var low := Weight(attr.readOnly, 1) + Weight(attr.hidden, 2) + Weight(attr.system, 4);
    var high := Weight(attr.directory, 1) + Weight(attr.archive, 2) + Weight(attr.device, 4) + Weight(attr.unused, 8);
    MiddleBit(low, Weight(attr.volumeLabel, 1), high);
  }

  lemma MiddleBit(low: nat, bit: nat, high: nat)
    requires low < 8 && bit < 2
    ensures (low + 8 * bit + 16 * high) / 8 % 2 == bit
  {
    var k := bit + 2 * high;
    assert (low + 8 * k) / 8 == k;
  }

  lemma SlotListed(entries: seq<Entry>, i: nat)
    requires i < |entries| <= 16
    ensures Listed(RootSector(entries), i) <==> entries[i].name[0] != 0xE5 && !entries[i].attr.volumeLabel
  {
    var s := RootSector(entries);
    forall j | 0 <= j <= i
      ensures Name(s, j)[0] != 0x00
    {
      SlotReads(entries, j);
    }
    SlotReads(entries, i);
    LabelBit(entries[i].attr);
  }

  lemma {:induction false} ListsFirst(entries: seq<Entry>, n: nat)
    requires n <= |entries| <= 16
    ensures ListedNames(RootSector(entries), n) == LiveNames(entries[..n])
    decreases n
  {
    if n > 0 {
      ListsFirst(entries, n - 1);
      assert entries[..n][..n - 1] == entries[..n - 1];
      SlotListed(entries, n - 1);
      SlotReads(entries, n - 1);
    }
  }

  /** Listing the written directory shows exactly its live entries that are no labels, in order. */
  lemma ListingShows(entries: seq<Entry>)
    requires |entries| <= 16
    ensures ListedNames(RootSector(entries), SLOTS) == LiveNames(entries)
  {
    ListsFirst(entries, |entries|);
    assert entries[..|entries|] == entries;
    if |entries| < SLOTS {
      UnusedSlot(entries, |entries|);
      NothingAfterEnd(RootSector(entries), |entries|, SLOTS);
    }
  }

  /** What the reader fetches for a stored file's cluster starts with the file's data. */
  lemma StoredFile(disk: Disk, v: Volume, k: nat)
    requires Stores(disk, v) && k < |v.entries| && v.entries[k].Holds()
    ensures disk(ClusterLba(v.Boot(), v.entries[k].cluster) % LBA28)[..|v.entries[k].data|] == v.entries[k].data
  {
    FieldsRead(v.boot);
    ClusterFound(v.boot, v.entries[k].cluster);
    ClusterPlace(v.Boot(), v.entries[k].cluster);
    SmallAddress(ClusterLba(v.Boot(), v.entries[k].cluster));
  }

  lemma SmallAddress(lba: nat)
    requires lba < LBA28
    ensures lba % LBA28 == lba
  {
  }

  lemma StoredRoot(disk: Disk, v: Volume)
    requires Stores(disk, v)
    ensures disk(RootLba(v.Boot()) % LBA28) == v.Root()
  {
    RootFound(v.boot);
    RootSmall(v.Boot());
    SmallAddress(RootLba(v.Boot()));
  }
}
