/**
 * ustar archives as lists of files (IEEE Std 1003.1, pax, "ustar Interchange Format"),
 * and what the reader of kernel/drivers/tar.c finds in them.
 */
module TarArchive {
  import opened Arithmetic
  import opened Bytes
  import opened Numerals
  import opened Tar
  import opened TarHeader
  import opened TarWalk

  /** `owner` is the mode, uid and gid; `rest` is everything after the size, the checksum included. */
  datatype EntryRecord = Entry(name: seq<byte>, data: seq<byte>, owner: seq<byte>, rest: seq<byte>)

  type Entry = e: EntryRecord | |e.owner| == 24 && |e.rest| == 376
    witness EntryRecord.Entry([], [], seq(24, _ => 0), seq(376, _ => 0))

  /** Header block and padded data. */
  function Extent(e: Entry): nat {
    BLOCK + (|e.data| + 511) / 512 * 512
  }

  /** Offset of the k-th header. */
  function Start(entries: seq<Entry>, k: nat): nat
    requires k <= |entries|
  {
    if k == 0 then 0 else Start(entries, k - 1) + Extent(entries[k - 1])
  }

  /** The header at o names e and gives its size in a field that ends within its twelve bytes. */
  ghost predicate HeaderAt(img: seq<byte>, o: nat, e: Entry) {
    && CStr(img, o) == e.name && 1 <= |e.name| <= 99
    && |OctalRun(img, o + SIZE_FIELD)| <= 11
    && Value(OctalRun(img, o + SIZE_FIELD), 8) == |e.data|
  }

  /** The bytes at p are s. */
  ghost predicate BytesAt(img: seq<byte>, p: nat, s: seq<byte>) {
    p + |s| <= |img| && img[p..p + |s|] == s
  }

  /** Header and data of e stand at s. */
  ghost predicate EntryAt(img: seq<byte>, s: nat, e: Entry) {
    HeaderAt(img, s, e) && BytesAt(img, s + BLOCK, e.data)
  }

  /** The image holds these entries from its start on, and then an empty header. */
  ghost predicate Holds(img: seq<byte>, entries: seq<Entry>) {
    && (forall k: nat :: k < |entries| ==> EntryAt(img, Start(entries, k), entries[k]))
    && At(img, Start(entries, |entries|)) == NUL
  }

  lemma HeaderSize(img: seq<byte>, o: nat, e: Entry)
    requires HeaderAt(img, o, e)
    ensures At(img, o) != NUL && |e.data| < 0x10_0000_0000 && SizeAt(img, o) == |e.data|
  {
    CStrIs(img, o);
    OctalRunIs(img, o + SIZE_FIELD);
    ShortRunSmall(OctalRun(img, o + SIZE_FIELD));
  }

  lemma PaddedIs(size: nat)
    requires size + 511 < WORD
    ensures Padded(size) == (size + 511) / 512 * 512
  {
  }

  lemma HeaderNext(img: seq<byte>, o: nat, e: Entry)
    requires HeaderAt(img, o, e) && o <= LIMIT
    ensures At(img, o) != NUL && SizeAt(img, o) == |e.data| && NextAt(img, o) == o + Extent(e)
  {
    HeaderSize(img, o, e);
    PaddedIs(|e.data|);
    NextForward(img, o);
  }

  lemma {:induction false} StartGrows(entries: seq<Entry>, j: nat, k: nat)
    requires j <= k <= |entries|
    ensures Start(entries, j) <= Start(entries, k)
    decreases k
  {
    if j < k {
      StartGrows(entries, j, k - 1);
    }
  }

  lemma HeldAt(img: seq<byte>, entries: seq<Entry>, k: nat)
    requires Holds(img, entries) && k < |entries|
    ensures EntryAt(img, Start(entries, k), entries[k])
  {
  }

  /** As long as the entries start within the limit, the walk goes from each to the next. */
  lemma {:induction false} NthIsStart(img: seq<byte>, entries: seq<Entry>, k: nat)
    requires Holds(img, entries) && k <= |entries|
    requires k > 0 ==> Start(entries, k - 1) <= LIMIT
    ensures Nth(img, k) == Start(entries, k) && LiveUpTo(img, k)
    decreases k
  {
    if k > 0 {
      StartGrows(entries, if k > 1 then k - 2 else 0, k - 1);
      NthIsStart(img, entries, k - 1);
      HeldAt(img, entries, k - 1);
      HeaderNext(img, Start(entries, k - 1), entries[k - 1]);
    }
  }

  /** How many entries start within the limit. */
  lemma {:induction false} Within(entries: seq<Entry>, n: nat) returns (m: nat)
    requires n <= |entries|
    ensures m <= n && (m < n ==> Start(entries, m) > LIMIT) && (m > 0 ==> Start(entries, m - 1) <= LIMIT)
    decreases n
  {
    if n == 0 || Start(entries, n - 1) <= LIMIT {
      m := n;
    } else {
      m := Within(entries, n - 1);
    }
  }

  lemma WithinIff(entries: seq<Entry>, m: nat, k: nat)
    requires m <= |entries| && k < |entries|
    requires m < |entries| ==> Start(entries, m) > LIMIT
    requires m > 0 ==> Start(entries, m - 1) <= LIMIT
    ensures k < m <==> Start(entries, k) <= LIMIT
  {
    if k < m {
      StartGrows(entries, k, m - 1);
    } else {
      StartGrows(entries, m, k);
    }
  }

  /** The walk ends, and visits exactly the entries whose headers start within the limit. */
  lemma VisitsEntries(img: seq<byte>, entries: seq<Entry>)
    requires Holds(img, entries)
    ensures Ends(img) && Length(img) <= |entries|
    ensures forall k: nat :: k < |entries| ==> (k < Length(img) <==> Start(entries, k) <= LIMIT)
  {
    var m := Within(entries, |entries|);
    NthIsStart(img, entries, m);
    assert EndsAt(img, m);
    EndsAtUnique(img, m, Length(img));
    forall k: nat | k < |entries|
      ensures k < m <==> Start(entries, k) <= LIMIT
    {
      WithinIff(entries, m, k);
    }
  }

  lemma VisitPlace(img: seq<byte>, entries: seq<Entry>, k: nat)
    requires Holds(img, entries) && k < |entries| && Start(entries, k) <= LIMIT
    ensures Nth(img, k) == Start(entries, k)
  {
    if k > 0 {
      StartGrows(entries, k - 1, k);
    }
    NthIsStart(img, entries, k);
  }

  lemma EntryReads(img: seq<byte>, s: nat, e: Entry)
    requires EntryAt(img, s, e)
    ensures CStr(img, s) == e.name && SizeAt(img, s) == |e.data| && BytesAt(img, s + BLOCK, e.data)
  {
    HeaderSize(img, s, e);
  }

  /** The k-th header visited is that of the k-th entry. */
  lemma VisitIsEntry(img: seq<byte>, entries: seq<Entry>, k: nat)
    requires Holds(img, entries) && k < |entries| && Start(entries, k) <= LIMIT
    ensures Nth(img, k) == Start(entries, k)
    ensures CStr(img, Nth(img, k)) == entries[k].name && SizeAt(img, Nth(img, k)) == |entries[k].data|
    ensures BytesAt(img, Nth(img, k) + BLOCK, entries[k].data)
  {
    VisitPlace(img, entries, k);
    HeldAt(img, entries, k);
    EntryReads(img, Start(entries, k), entries[k]);
  }

  /** k is the first entry with a matching name. */
  ghost predicate FirstEntry(entries: seq<Entry>, key: seq<byte>, k: nat) {
    && k < |entries| && Matches(entries[k].name, key)
    && forall j :: 0 <= j < k ==> !Matches(entries[j].name, key)
  }

  /** The bytes at p, `size` of them, are the file that a lookup of key in the list gives. */
  ghost predicate IsFile(img: seq<byte>, entries: seq<Entry>, key: seq<byte>, p: nat, size: nat) {
    exists k: nat ::
      FirstEntry(entries, key, k) && Start(entries, k) <= LIMIT
      && size == |entries[k].data| && BytesAt(img, p, entries[k].data)
  }

  /** Every header visited is that of an entry. */
  lemma VisitedName(img: seq<byte>, entries: seq<Entry>, k: nat)
    requires Holds(img, entries) && Ends(img) && k < Length(img)
    ensures k < |entries| && Start(entries, k) <= LIMIT && CStr(img, Nth(img, k)) == entries[k].name
  {
    VisitsEntries(img, entries);
    VisitIsEntry(img, entries, k);
  }

  lemma HitIsFirst(img: seq<byte>, entries: seq<Entry>, key: seq<byte>, k: nat)
    requires Holds(img, entries) && Hit(img, key, k)
    ensures FirstEntry(entries, key, k) && Start(entries, k) <= LIMIT
  {
    VisitsEntries(img, entries);
    HitIsVisited(img, key, k);
    VisitedName(img, entries, k);
    forall j: nat | j < k
      ensures !Matches(entries[j].name, key)
    {
      VisitedName(img, entries, j);
    }
  }

  lemma HitIsFile(img: seq<byte>, entries: seq<Entry>, key: seq<byte>, p: nat, size: nat)
    requires Holds(img, entries)
    requires exists k: nat :: Hit(img, key, k) && p == Nth(img, k) + BLOCK && size == SizeAt(img, Nth(img, k))
    ensures IsFile(img, entries, key, p, size)
  {
    var k: nat :| Hit(img, key, k) && p == Nth(img, k) + BLOCK && size == SizeAt(img, Nth(img, k));
    HitIsFirst(img, entries, key, k);
    VisitIsEntry(img, entries, k);
  }

  /** No entry that starts within the limit has a matching name. */
  ghost predicate NoEntry(entries: seq<Entry>, key: seq<byte>) {
    forall k :: 0 <= k < |entries| && Start(entries, k) <= LIMIT ==> !Matches(entries[k].name, key)
  }

  lemma MissIsNoEntry(img: seq<byte>, entries: seq<Entry>, key: seq<byte>)
    requires Holds(img, entries) && Ends(img) && PassesUpTo(img, key, Length(img))
    ensures NoEntry(entries, key)
  {
    VisitsEntries(img, entries);
    forall k | 0 <= k < |entries| && Start(entries, k) <= LIMIT
      ensures !Matches(entries[k].name, key)
    {
      VisitIsEntry(img, entries, k);
    }
  }

  /**
   * Lookup in the image is lookup in the list: the data and size handed out are those of the
   * first matching entry, and nothing is handed out exactly when no entry that starts within
   * the limit matches.
   */
  method Fetch(img: seq<byte>, filename: seq<byte>, ghost entries: seq<Entry>) returns (data: Option<nat>, size: u64)
    requires Holds(img, entries)
    ensures match data
            case None => NoEntry(entries, CStr(filename, 0))
            case Some(p) => IsFile(img, entries, CStr(filename, 0), p, size)
  {
    ghost var key := CStr(filename, 0);
    VisitsEntries(img, entries);
    EndsSettles(img, key);
    data, size := GetFile(img, filename);
    if data.None? {
      MissIsNoEntry(img, entries, key);
    } else {
      HitIsFile(img, entries, key, data.value, size);
    }
  }

  // ---- Writing archives ---------------------------------------------------------

  function Zeros(n: nat): (z: seq<byte>)
    ensures |z| == n && forall k :: 0 <= k < n ==> z[k] == NUL
  {
    seq(n, _ => NUL)
  }

  /** Names of 1 to 99 bytes and data whose size eleven octal digits can hold. */
  ghost predicate Storable(e: Entry) {
    1 <= |e.name| <= 99 && NUL !in e.name && |e.data| < 0x2_0000_0000
  }

  function Header(e: Entry): (h: seq<byte>)
    ensures |h| == BLOCK
  {
    (e.name + Zeros(100))[..100] + e.owner + Fixed(|e.data|, 11, 8) + [NUL] + e.rest
  }

  function Padding(e: Entry): seq<byte> {
    Zeros(Extent(e) - BLOCK - |e.data|)
  }

  function Encode(entries: seq<Entry>): seq<byte>
    decreases |entries|
  {
    if entries == [] then Zeros(2 * BLOCK)
    else Header(entries[0]) + entries[0].data + Padding(entries[0]) + Encode(entries[1..])
  }

  lemma EightToEleven()
    ensures Pow(8, 11) == 0x2_0000_0000
  {
    PowFour(8);
    PowAdd(8, 4, 4);
    assert Pow(8, 3) == 512;
    PowAdd(8, 8, 3);
  }

  lemma HeaderEncoded(img: seq<byte>, o: nat, e: Entry)
    requires Storable(e)
    requires BytesAt(img, o, Header(e))
    ensures HeaderAt(img, o, e)
  {
    var h, digits := Header(e), Fixed(|e.data|, 11, 8);
    forall k | 0 <= k < BLOCK
      ensures At(img, o + k) == h[k]
    {
      assert img[o..o + |h|][k] == img[o + k];
    }
    forall k | 0 <= k < |e.name|
      ensures e.name[k] == At(img, o + k)
    {
      assert h[k] == e.name[k];
    }
    assert h[|e.name|] == NUL;
    CStrUnique(img, o, e.name);
    forall k | 0 <= k < 11
      ensures digits[k] == At(img, o + SIZE_FIELD + k)
    {
      assert h[SIZE_FIELD + k] == digits[k];
    }
    assert h[SIZE_FIELD + 11] == NUL;
    EightToEleven();
    FixedRead(img, o + SIZE_FIELD, |e.data|, 11);
  }

  lemma BytesSplit(img: seq<byte>, o: nat, a: seq<byte>, b: seq<byte>)
    requires BytesAt(img, o, a + b)
    ensures BytesAt(img, o, a) && BytesAt(img, o + |a|, b)
  {
    assert img[o..o + |a|] == img[o..o + |a + b|][..|a|] == a;
    assert img[o + |a|..o + |a| + |b|] == img[o..o + |a + b|][|a|..] == b;
  }

  lemma FirstEncoded(img: seq<byte>, o: nat, entries: seq<Entry>)
    requires entries != [] && Storable(entries[0])
    requires BytesAt(img, o, Encode(entries))
    ensures EntryAt(img, o, entries[0])
    ensures BytesAt(img, o + Extent(entries[0]), Encode(entries[1..]))
  {
    var e, more := entries[0], Encode(entries[1..]);
    var h := Header(e);
    BytesSplit(img, o, h + e.data + Padding(e), more);
    BytesSplit(img, o, h + e.data, Padding(e));
    BytesSplit(img, o, h, e.data);
    HeaderEncoded(img, o, e);
  }

  /** From the k-th entry's start on the bytes are the encoding of what is left of the list. */
  lemma {:induction false} RestEncoded(img: seq<byte>, entries: seq<Entry>, k: nat)
    requires k <= |entries| && BytesAt(img, 0, Encode(entries))
    requires forall i :: 0 <= i < |entries| ==> Storable(entries[i])
    ensures BytesAt(img, Start(entries, k), Encode(entries[k..]))
    decreases k
  {
    if k == 0 {
      assert entries[0..] == entries;
    } else {
      RestEncoded(img, entries, k - 1);
      FirstEncoded(img, Start(entries, k - 1), entries[k - 1..]);
      assert entries[k - 1..][1..] == entries[k..];
    }
  }

  lemma EndEncoded(img: seq<byte>, o: nat)
    requires BytesAt(img, o, Zeros(2 * BLOCK))
    ensures At(img, o) == NUL
  {
    assert img[o..o + 2 * BLOCK][0] == img[o];
  }

  lemma BytesWhole(s: seq<byte>)
    ensures BytesAt(s, 0, s)
  {
    assert s[0..0 + |s|] == s;
  }

  lemma EntryEncoded(img: seq<byte>, entries: seq<Entry>, k: nat)
    requires k < |entries| && BytesAt(img, 0, Encode(entries))
    requires forall i :: 0 <= i < |entries| ==> Storable(entries[i])
    ensures EntryAt(img, Start(entries, k), entries[k])
  {
    RestEncoded(img, entries, k);
    FirstEncoded(img, Start(entries, k), entries[k..]);
  }

  /** An image that starts with the encoding holds the list, whatever comes behind. */
  lemma EncodeHolds(img: seq<byte>, entries: seq<Entry>)
    requires forall k :: 0 <= k < |entries| ==> Storable(entries[k])
    requires BytesAt(img, 0, Encode(entries))
    ensures Holds(img, entries)
  {
    forall k: nat | k < |entries|
      ensures EntryAt(img, Start(entries, k), entries[k])
    {
      EntryEncoded(img, entries, k);
    }
    RestEncoded(img, entries, |entries|);
    EndEncoded(img, Start(entries, |entries|));
  }

  /** Reading back what was written: every list of storable files is held by its encoding. */
  lemma EncodeRoundTrip(entries: seq<Entry>)
    requires forall k :: 0 <= k < |entries| ==> Storable(entries[k])
    ensures Holds(Encode(entries), entries)
  {
    BytesWhole(Encode(entries));
    EncodeHolds(Encode(entries), entries);
  }
}
