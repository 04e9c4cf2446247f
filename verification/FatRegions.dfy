/** A FAT12/16 disk, region after region, and where the arithmetic of kernel/drivers/fat.c finds them. */
module FatRegions {
  import opened Arithmetic
  import opened Ata
  import opened Bytes
  import opened Fat

  /** fat_bpb_t of kernel/drivers/fat.h, up to its last field that is read; `rest` is what follows in the sector. */
  datatype BootRecord = BootRecord(jmp: seq<byte>, oem: seq<byte>, bytesPerSector: nat, sectorsPerCluster: byte,
                                   reserved: nat, fatCount: byte, rootEntries: nat, totalSectors: seq<byte>,
                                   mediaType: byte, sectorsPerFat: nat, rest: seq<byte>) {
    predicate Valid() {
      && |jmp| == 3 && |oem| == 8 && |totalSectors| == 2 && |rest| == 488
      && 0 < bytesPerSector <= 0xFFFF && 0 < sectorsPerCluster && 0 < reserved <= 0xFFFF
      && 0 < rootEntries <= 0xFFFF && sectorsPerFat <= 0xFFFF
    }
  }

  const FLOPPY := BootRecord([0xEB, 0x3C, 0x90], seq(8, _ => SPACE), 512, 1, 1, 2, 224, [0x40, 0x0B], 0xF0, 9,
                             seq(488, _ => 0))

  type Boot = r: BootRecord | r.Valid() witness FLOPPY

  /** Two bytes, the low one first. */
  function Le16(n: nat): seq<byte>
    requires n <= 0xFFFF
  {
    [n % 0x100, n / 0x100]
  }

  /** The record as it stands on the disk. */
  function BootSector(r: Boot): Sector {
    r.jmp + r.oem + Le16(r.bytesPerSector) + [r.sectorsPerCluster] + Le16(r.reserved) + [r.fatCount]
    + Le16(r.rootEntries) + r.totalSectors + [r.mediaType] + Le16(r.sectorsPerFat) + r.rest
  }

  /** The reader finds every field it uses. */
  lemma FieldsRead(r: Boot)
    ensures var b := BootSector(r);
            && BytesPerSector(b) == r.bytesPerSector && SectorsPerCluster(b) == r.sectorsPerCluster
            && Reserved(b) == r.reserved && FatCount(b) == r.fatCount
            && RootEntries(b) == r.rootEntries && SectorsPerFat(b) == r.sectorsPerFat
  {
    var b := BootSector(r);
    assert b[11] == r.bytesPerSector % 0x100 && b[12] == r.bytesPerSector / 0x100;
    assert b[13] == r.sectorsPerCluster;
    assert b[14] == r.reserved % 0x100 && b[15] == r.reserved / 0x100;
    assert b[16] == r.fatCount;
    assert b[17] == r.rootEntries % 0x100 && b[18] == r.rootEntries / 0x100;
    assert b[22] == r.sectorsPerFat % 0x100 && b[23] == r.sectorsPerFat / 0x100;
  }

  // ---- Region after region ----------------------------------------------------------

  /** Where the k-th FAT copy starts: behind the reserved sectors and the copies before it. */
  function FatStart(r: Boot, k: nat): nat {
    if k == 0 then r.reserved else FatStart(r, k - 1) + r.sectorsPerFat
  }

  /** The root directory stands right behind the last FAT copy. */
  function RootStart(r: Boot): nat {
    FatStart(r, r.fatCount)
  }

  /** Sectors of a size, one after another until they hold so many bytes. */
  function SectorsFor(bytes: nat, size: nat): nat
    requires size > 0
  {
    if bytes == 0 then 0 else if bytes <= size then 1 else 1 + SectorsFor(bytes - size, size)
  }

  /** The root directory takes 32 bytes an entry. */
  function RootLength(r: Boot): nat {
    SectorsFor(32 * r.rootEntries, r.bytesPerSector)
  }

  /** Where a cluster starts: the first is number 2, right behind the root directory. */
  function ClusterStart(r: Boot, cluster: nat): nat {
    if cluster <= 2 then RootStart(r) + RootLength(r) else ClusterStart(r, cluster - 1) + r.sectorsPerCluster
  }

  /** The least number of sectors that hold the bytes. */
  lemma {:induction false} SectorsForLeast(bytes: nat, size: nat)
    requires size > 0
    ensures var n := SectorsFor(bytes, size); n * size >= bytes && (n > 0 ==> (n - 1) * size < bytes)
    decreases bytes
  {
    if bytes > size {
      SectorsForLeast(bytes - size, size);
      var n := SectorsFor(bytes - size, size);
      assert (n + 1) * size == n * size + size && n * size == (n - 1) * size + size;
    }
  }

  lemma QuotientStep(m: nat, d: nat)
    requires 0 < d <= m
    ensures m / d == (m - d) / d + 1
  {
    var q, r := Divided(m - d, d);
    DivMod(m, d);
    assert (q + 1) * d == q * d + d;
    QuotientUnique(d, q + 1, r, m / d, m % d);
  }

  /** Rounding up in one division gives that number. */
  lemma {:induction false} SectorsForRounds(bytes: nat, size: nat)
    requires size > 0
    ensures SectorsFor(bytes, size) == (bytes + (size - 1)) / size
    decreases bytes
  {
    var m := bytes + (size - 1);
    if bytes > size {
      SectorsForRounds(bytes - size, size);
      QuotientStep(m, size);
    } else if bytes > 0 {
      QuotientStep(m, size);
      QuotientSmall(m - size, size);
    } else {
      QuotientSmall(m, size);
    }
  }

  lemma QuotientSmall(m: nat, d: nat)
    requires m < d
    ensures m / d == 0
  {
    DivMod(m, d);
    QuotientUnique(d, 0, m, m / d, m % d);
  }

  lemma {:induction false} FatStartIs(r: Boot, k: nat)
    ensures FatStart(r, k) == r.reserved + k * r.sectorsPerFat
    decreases k
  {
    if k > 0 {
      FatStartIs(r, k - 1);
      assert k * r.sectorsPerFat == (k - 1) * r.sectorsPerFat + r.sectorsPerFat;
    }
  }

  lemma {:induction false} ClusterStartIs(r: Boot, cluster: nat)
    requires cluster >= 2
    ensures ClusterStart(r, cluster) == RootStart(r) + RootLength(r) + (cluster - 2) * r.sectorsPerCluster
    decreases cluster
  {
    if cluster > 2 {
      ClusterStartIs(r, cluster - 1);
      assert (cluster - 2) * r.sectorsPerCluster == (cluster - 3) * r.sectorsPerCluster + r.sectorsPerCluster;
    }
  }

  /** The reader looks for the root directory where it stands: right behind the last FAT copy. */
  lemma RootFound(r: Boot)
    ensures RootLba(BootSector(r)) == RootStart(r)
  {
    FieldsRead(r);
    FatStartIs(r, r.fatCount);
  }

  /** It takes the root directory to be the least number of sectors that hold the entries. */
  lemma RootLengthFound(r: Boot)
    ensures RootSectors(BootSector(r)) == RootLength(r)
    ensures var n := RootSectors(BootSector(r));
            n * r.bytesPerSector >= 32 * r.rootEntries && n > 0 && (n - 1) * r.bytesPerSector < 32 * r.rootEntries
  {
    FieldsRead(r);
    SectorsForRounds(32 * r.rootEntries, r.bytesPerSector);
    SectorsForLeast(32 * r.rootEntries, r.bytesPerSector);
  }

  /** And it looks for a cluster where that stands. */
  lemma ClusterFound(r: Boot, cluster: nat)
    requires 2 <= cluster <= 0xFFFF
    ensures ClusterLba(BootSector(r), cluster) == ClusterStart(r, cluster)
  {
    FieldsRead(r);
    RootFound(r);
    RootLengthFound(r);
    ClusterPlace(BootSector(r), cluster);
    ClusterStartIs(r, cluster);
  }
}
