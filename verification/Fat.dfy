/** The FAT12/16 reader of kernel/drivers/fat.c. */
module Fat {
  import opened Arithmetic
  import opened Bytes
  import opened Ata
  import opened Screen

  // ---- Boot sector ------------------------------------------------------------

  function BytesPerSector(b: Sector): nat { U16(b, 11) }

  function SectorsPerCluster(b: Sector): nat { b[13] }

  function Reserved(b: Sector): nat { U16(b, 14) }

  function FatCount(b: Sector): nat { b[16] }

  function RootEntries(b: Sector): nat { U16(b, 17) }

  function SectorsPerFat(b: Sector): nat { U16(b, 22) }

  /** Where the root directory starts. */
  function RootLba(b: Sector): nat {
    Reserved(b) + FatCount(b) * SectorsPerFat(b)
  }

  function RootSectors(b: Sector): nat
    requires BytesPerSector(b) > 0
  {
    (RootEntries(b) * 32 + (BytesPerSector(b) - 1)) / BytesPerSector(b)
  }

  function FirstDataSector(b: Sector): nat
    requires BytesPerSector(b) > 0
  {
    RootLba(b) + RootSectors(b)
  }

  /** First sector of a cluster, in 32-bit unsigned arithmetic. */
  function ClusterLba(b: Sector, cluster: nat): u32
    requires BytesPerSector(b) > 0
  {
    ((cluster - 2) * SectorsPerCluster(b) + FirstDataSector(b)) % 0x1_0000_0000
  }

  lemma ProductBound(x: nat, y: nat, a: nat, b: nat)
    requires x <= a && y <= b
    ensures 0 <= x * y <= a * b
  {
    TimesMonotone(x, a, y);
    TimesMonotone(y, b, a);
  }

  lemma RootBound(b: Sector)
    requires BytesPerSector(b) > 0
    ensures RootLba(b) <= 16_776_960 && RootSectors(b) <= 2_097_120
  {
    ProductBound(FatCount(b), SectorsPerFat(b), 255, 65535);
    var n, d := RootEntries(b) * 32, BytesPerSector(b);
    TimesMonotone(1, d, n);
    assert (n + 1) * d == n * d + d;
    QuotientBelow(n + (d - 1), d, n + 1);
  }

  /** No step wraps: the address is what the geometry says, and fits in 28 bits. */
  lemma ClusterPlace(b: Sector, cluster: nat)
    requires BytesPerSector(b) > 0 && 2 <= cluster <= 0xFFFF
    ensures ClusterLba(b, cluster) == (cluster - 2) * SectorsPerCluster(b) + FirstDataSector(b)
    ensures FirstDataSector(b) <= ClusterLba(b, cluster)
    ensures ClusterLba(b, cluster) + SectorsPerCluster(b) < LBA28
  {
    RootBound(b);
    ProductBound(cluster - 2, SectorsPerCluster(b), 65533, 255);
  }

  /** Sector ranges of distinct clusters do not meet, and all lie behind the reserved, FAT and root regions. */
  lemma ClustersApart(b: Sector, c: nat, d: nat)
    requires BytesPerSector(b) > 0 && SectorsPerCluster(b) > 0
    requires 2 <= c < d <= 0xFFFF
    ensures ClusterLba(b, c) + SectorsPerCluster(b) <= ClusterLba(b, d)
    ensures Reserved(b) <= RootLba(b) && RootLba(b) + RootSectors(b) <= ClusterLba(b, c)
  {
    ClusterPlace(b, c);
    ClusterPlace(b, d);
    TimesMonotone(c - 2 + 1, d - 2, SectorsPerCluster(b));
    ProductBound(FatCount(b), SectorsPerFat(b), 255, 65535);
  }

  // ---- 8.3 names ----------------------------------------------------------------

  function Upper(c: byte): byte {
    if 97 <= c <= 122 then c - 32 else c
  }

  /** Index of the first dot, or the length. */
  function FirstDot(s: seq<byte>): (n: nat)
    ensures n <= |s| && (n < |s| ==> s[n] == DOT)
    ensures forall k :: 0 <= k < n ==> s[k] != DOT
  {
    if s == [] || s[0] == DOT then 0 else 1 + FirstDot(s[1..])
  }

  /** The text before the first dot, padded. */
  function BaseAt(s: seq<byte>, k: nat): byte {
    if k < FirstDot(s) then Upper(s[k]) else SPACE
  }

  /** The text after the first dot, padded. */
  function ExtensionAt(s: seq<byte>, k: nat): byte {
    var p := FirstDot(s) + 1 + k;
    if p < |s| then Upper(s[p]) else SPACE
  }

  /** Eight bytes before the first dot and three after it, upper case, padded with spaces. */
  function Formatted(s: seq<byte>): (name: seq<byte>)
    ensures |name| == 11
  {
    seq(11, k requires 0 <= k < 11 => if k < 8 then BaseAt(s, k) else ExtensionAt(s, k - 8))
  }

  /** Up to eight bytes before the first dot. */
  method StoreBase(input: seq<byte>, output: array<byte>)
    requires output.Length == 11
    requires forall k :: 0 <= k < 11 ==> output[k] == SPACE
    modifies output
    ensures forall k :: 0 <= k < 8 ==> output[k] == BaseAt(CStr(input, 0), k)
    ensures forall k :: 8 <= k < 11 ==> output[k] == SPACE
  {
    ghost var s := CStr(input, 0);
    CStrReads(input);
    var i := 0;
    while At(input, i) != DOT && At(input, i) != NUL && i < 8
      invariant 0 <= i <= 8 && i <= FirstDot(s)
      invariant forall k :: 0 <= k < 11 ==> output[k] == if k < i then Upper(s[k]) else SPACE
      decreases 8 - i
    {
      output[i] := Upper(At(input, i));
      i := i + 1;
    }
    assert i == 8 || i == FirstDot(s);
  }

  /** What follows the first dot, if there is one. */
  method StoreExtension(input: seq<byte>, output: array<byte>)
    requires output.Length == 11
    requires forall k :: 8 <= k < 11 ==> output[k] == SPACE
    modifies output
    ensures forall k :: 0 <= k < 8 ==> output[k] == old(output[k])
    ensures forall k :: 8 <= k < 11 ==> output[k] == ExtensionAt(CStr(input, 0), k - 8)
  {
    ghost var s := CStr(input, 0);
    ghost var d := FirstDot(s);
    CStrReads(input);
    var dot := 0;
    while At(input, dot) != DOT && At(input, dot) != NUL
      invariant dot <= d
      decreases d - dot
    {
      dot := dot + 1;
    }
    if At(input, dot) == DOT {
      dot := dot + 1;
      var j := 0;
      while j < 3 && At(input, dot + j) != NUL
        invariant 0 <= j <= 3 && dot + j <= |s|
        invariant forall k :: 0 <= k < 8 ==> output[k] == old(output[k])
        invariant forall k :: 8 <= k < 11 ==> output[k] == if k < 8 + j then ExtensionAt(s, k - 8) else SPACE
      {
        assert ExtensionAt(s, j) == Upper(At(input, dot + j));
        output[8 + j] := Upper(At(input, dot + j));
        j := j + 1;
      }
    }
  }

  method FormatName(input: seq<byte>, output: array<byte>)
    requires output.Length == 11
    modifies output
    ensures output[..] == Formatted(CStr(input, 0))
  {
    var i := 0;
    while i < 11
      invariant 0 <= i <= 11 && forall k :: 0 <= k < i ==> output[k] == SPACE
    {
      output[i] := SPACE;
      i := i + 1;
    }
    StoreBase(input, output);
    StoreExtension(input, output);
  }

  /** What the listing prints for a name: 8, a dot, 3, and nothing for a NUL. */
  function EntryText(name: seq<byte>): seq<byte>
    requires |name| == 11
  {
    NonNul(name[..8]) + [DOT] + NonNul(name[8..])
  }

  /** No NUL, no small letter, and no dot among the first eight. */
  ghost predicate Canonical(name: seq<byte>)
    requires |name| == 11
  {
    && NUL !in name
    && (forall k :: 0 <= k < 11 ==> Upper(name[k]) == name[k])
    && (forall k :: 0 <= k < 8 ==> name[k] != DOT)
  }

  /** Without a NUL the printed form has twelve bytes. */
  lemma EntryTextPlain(name: seq<byte>)
    requires |name| == 11 && NUL !in name
    ensures EntryText(name) == name[..8] + [DOT] + name[8..]
  {
    NonNulSame(name[..8]);
    NonNulSame(name[8..]);
  }

  /** A NUL is lost in the printed form, and formatting never brings one back. */
  lemma FormattedNonNul(name: seq<byte>)
    requires |name| == 11
    ensures NUL !in Formatted(EntryText(name))
  {
    var text := EntryText(name);
    NonNulHas(name[..8], NUL);
    NonNulHas(name[8..], NUL);
    assert NUL !in text;
  }

  lemma {:induction false} FirstDotAt(s: seq<byte>, n: nat)
    requires n < |s| && s[n] == DOT
    requires forall k :: 0 <= k < n ==> s[k] != DOT
    ensures FirstDot(s) == n
  {
    if n > 0 {
      FirstDotAt(s[1..], n - 1);
    }
  }

  lemma CanonicalReads(name: seq<byte>)
    requires |name| == 11 && Canonical(name)
    ensures Formatted(EntryText(name)) == name
  {
    EntryTextPlain(name);
    var text := EntryText(name);
    assert text[8] == DOT && forall k :: 0 <= k < 8 ==> text[k] == name[k];
    FirstDotAt(text, 8);
    forall k | 0 <= k < 11
      ensures Formatted(text)[k] == name[k]
    {
      if k < 8 {
        assert Formatted(text)[k] == BaseAt(text, k) == Upper(text[k]);
      } else {
        assert Formatted(text)[k] == ExtensionAt(text, k - 8) == Upper(text[k + 1]) && text[k + 1] == name[k];
      }
    }
  }

  lemma ReadsCanonical(name: seq<byte>)
    requires |name| == 11 && Formatted(EntryText(name)) == name
    ensures Canonical(name)
  {
    FormattedNonNul(name);
    EntryTextPlain(name);
    var text := EntryText(name);
    var d := FirstDot(text);
    assert text[8] == DOT;
    assert forall k :: 0 <= k < 8 ==> text[k] == name[k] && Formatted(text)[k] == BaseAt(text, k);
    if d < 8 {
      assert false;
    }
    forall k | 0 <= k < 11
      ensures Upper(name[k]) == name[k]
    {
      if k < 8 {
        assert Formatted(text)[k] == BaseAt(text, k) == Upper(text[k]);
      } else {
        assert Formatted(text)[k] == ExtensionAt(text, k - 8) == Upper(text[k + 1]) && text[k + 1] == name[k];
      }
    }
    forall k | 0 <= k < 8
      ensures name[k] != DOT
    {
      assert text[k] == name[k];
    }
  }

  /** The printed form of a name formats back to the name exactly when the name is canonical. */
  lemma PrintedRoundTripIff(name: seq<byte>)
    requires |name| == 11
    ensures Formatted(EntryText(name)) == name <==> Canonical(name)
  {
    if Canonical(name) {
      CanonicalReads(name);
    } else if Formatted(EntryText(name)) == name {
      ReadsCanonical(name);
    }
  }

  function Shout(s: seq<byte>): (r: seq<byte>)
    ensures |r| == |s|
  {
    seq(|s|, k requires 0 <= k < |s| => Upper(s[k]))
  }

  lemma {:induction false} ShoutFirstDot(s: seq<byte>)
    ensures FirstDot(Shout(s)) == FirstDot(s)
    decreases |s|
  {
    if s != [] && s[0] != DOT {
      assert Shout(s)[1..] == Shout(s[1..]);
      ShoutFirstDot(s[1..]);
    }
  }

  /** Small letters become capitals, and nothing else changes. */
  lemma ShoutLetters()
    ensures Shout(Ascii("abcdefghijklm")) == Ascii("ABCDEFGHIJKLM")
    ensures Shout(Ascii("nopqrstuvwxyz")) == Ascii("NOPQRSTUVWXYZ")
    ensures forall c: byte :: c < 97 || c > 122 ==> Upper(c) == c
  {
    ShoutHalf(Ascii("abcdefghijklm"), Ascii("ABCDEFGHIJKLM"));
    ShoutHalf(Ascii("nopqrstuvwxyz"), Ascii("NOPQRSTUVWXYZ"));
  }

  lemma ShoutHalf(small: seq<byte>, capital: seq<byte>)
    requires |small| == |capital|
    requires forall k :: 0 <= k < |small| ==> 97 <= small[k] <= 122 && capital[k] == small[k] - 32
    ensures Shout(small) == capital
  {
  }

  /** The first n bytes, or all of them and spaces. */
  function Pad(s: seq<byte>, n: nat): (r: seq<byte>)
    ensures |r| == n
  {
    if |s| >= n then s[..n] else s + seq(n - |s|, _ => SPACE)
  }

  /** A name typed with a dot: base and extension in capitals, each cut or padded to its field. */
  lemma FormattedTyped(base: seq<byte>, ext: seq<byte>)
    requires DOT !in base
    ensures Formatted(base + [DOT] + ext) == Pad(Shout(base), 8) + Pad(Shout(ext), 3)
  {
    var text := base + [DOT] + ext;
    FirstDotAt(text, |base|);
    var key := Pad(Shout(base), 8) + Pad(Shout(ext), 3);
    forall k | 0 <= k < 11
      ensures Formatted(text)[k] == key[k]
    {
      if k < 8 {
        assert Formatted(text)[k] == BaseAt(text, k);
      } else {
        assert Formatted(text)[k] == ExtensionAt(text, k - 8);
      }
    }
  }

  /** A name typed without a dot has a blank extension. */
  lemma FormattedBare(base: seq<byte>)
    requires DOT !in base
    ensures Formatted(base) == Pad(Shout(base), 8) + [SPACE, SPACE, SPACE]
  {
    NoDot(base);
    var key := Pad(Shout(base), 8) + [SPACE, SPACE, SPACE];
    forall k | 0 <= k < 11
      ensures Formatted(base)[k] == key[k]
    {
      if k < 8 {
        assert Formatted(base)[k] == BaseAt(base, k);
      } else {
        assert Formatted(base)[k] == ExtensionAt(base, k - 8);
      }
    }
  }

  lemma {:induction false} NoDot(s: seq<byte>)
    requires DOT !in s
    ensures FirstDot(s) == |s|
  {
    assert forall k :: 0 <= k < |s| ==> s[k] in s;
  }

  /** Names that differ only in case are the same name. */
  lemma CaseBlind(s: seq<byte>, t: seq<byte>)
    requires Shout(s) == Shout(t)
    ensures Formatted(s) == Formatted(t)
  {
    ShoutFirstDot(s);
    ShoutFirstDot(t);
    assert |s| == |Shout(s)| == |Shout(t)| == |t|;
    assert forall k :: 0 <= k < |s| ==> Upper(s[k]) == Shout(s)[k] == Shout(t)[k] == Upper(t[k]);
  }
}
