/** The walk over the headers of an image, which may step backward and need not end. */
module TarWalk {
  import opened Arithmetic
  import opened Bytes
  import opened Numerals
  import opened TarHeader

  /** Offset of the n-th header the walk comes to. */
  ghost function Nth(img: seq<byte>, n: nat): nat {
    if n == 0 then 0 else NextAt(img, Nth(img, n - 1))
  }

  /** The walk stops at an empty header or beyond the limit. */
  predicate Over(img: seq<byte>, o: nat) {
    o > LIMIT || At(img, o) == NUL
  }

  /** The walk has not stopped before its n-th header. */
  ghost predicate LiveUpTo(img: seq<byte>, n: nat) {
    forall k: nat :: k < n ==> !Over(img, Nth(img, k))
  }

  ghost predicate EndsAt(img: seq<byte>, n: nat) {
    LiveUpTo(img, n) && Over(img, Nth(img, n))
  }

  ghost predicate Ends(img: seq<byte>) {
    exists n: nat :: Over(img, Nth(img, n))
  }

  /** The walk comes back to a header it has been at. */
  ghost predicate Revisits(img: seq<byte>) {
    exists j: nat, k: nat :: j < k && LiveUpTo(img, k + 1) && Nth(img, j) == Nth(img, k)
  }

  lemma {:induction false} FirstEnd(img: seq<byte>, n: nat) returns (m: nat)
    requires Over(img, Nth(img, n))
    ensures m <= n && EndsAt(img, m)
    decreases n
  {
    if k: nat :| k < n && Over(img, Nth(img, k)) {
      m := FirstEnd(img, k);
    } else {
      m := n;
    }
  }

  lemma EndsAtUnique(img: seq<byte>, m: nat, n: nat)
    requires EndsAt(img, m) && EndsAt(img, n)
    ensures m == n
  {
  }

  lemma EndExists(img: seq<byte>)
    requires Ends(img)
    ensures exists n: nat :: EndsAt(img, n)
  {
    var n: nat :| Over(img, Nth(img, n));
    var m := FirstEnd(img, n);
  }

  /** How many headers the walk visits. */
  ghost function Length(img: seq<byte>): (n: nat)
    requires Ends(img)
    ensures EndsAt(img, n)
  {
    EndExists(img);
    var n: nat :| EndsAt(img, n);
    n
  }

  /** The headers visited, in order. */
  ghost function Visits(img: seq<byte>): (v: seq<nat>)
    requires Ends(img)
    ensures |v| == Length(img)
  {
    seq(Length(img), k requires 0 <= k < Length(img) => Nth(img, k))
  }

  lemma {:induction false} NthOnBoundary(img: seq<byte>, n: nat)
    ensures Nth(img, n) % BLOCK == 0
    decreases n
  {
    if n > 0 {
      NthOnBoundary(img, n - 1);
      NextOnBoundary(img, Nth(img, n - 1));
    }
  }

  // ---- When the walk ends --------------------------------------------------------

  lemma {:induction false} Again(img: seq<byte>, j: nat, k: nat, n: nat)
    requires Nth(img, j) == Nth(img, k)
    ensures Nth(img, j + n) == Nth(img, k + n)
    decreases n
  {
    if n > 0 {
      Again(img, j, k, n - 1);
    }
  }

  /** Once back at a header, the walk goes round for ever. */
  lemma {:induction false} RoundForEver(img: seq<byte>, j: nat, k: nat, n: nat)
    requires j < k && LiveUpTo(img, k + 1) && Nth(img, j) == Nth(img, k)
    ensures !Over(img, Nth(img, n))
    decreases n
  {
    if n > k {
      Again(img, j, k, n - k);
      RoundForEver(img, j, k, j + (n - k));
    }
  }

  /** Distinct numbers below n are at most n in number. */
  lemma {:induction false} DistinctBelow(s: seq<nat>, n: nat)
    requires forall i :: 0 <= i < |s| ==> s[i] < n
    requires forall i, j :: 0 <= i < j < |s| ==> s[i] != s[j]
    ensures |s| <= n
    decreases n
  {
    if s != [] {
      assert s[0] < n;
      if i :| 0 <= i < |s| && s[i] == n - 1 {
        DistinctBelow(s[..i] + s[i + 1..], n - 1);
      } else {
        DistinctBelow(s, n - 1);
      }
    }
  }

  /** Only 20481 block boundaries lie within the limit, so a longer live walk has been somewhere twice. */
  lemma LiveIsShort(img: seq<byte>, n: nat)
    requires LiveUpTo(img, n) && !Revisits(img)
    ensures n <= 20481
  {
    var blocks := seq(n, k requires 0 <= k < n => Nth(img, k) / BLOCK);
    forall i, j | 0 <= i < j < n
      ensures blocks[i] != blocks[j]
    {
      NthOnBoundary(img, i);
      NthOnBoundary(img, j);
      assert LiveUpTo(img, j + 1);
    }
    forall i | 0 <= i < n
      ensures blocks[i] < 20481
    {
      assert !Over(img, Nth(img, i));
    }
    DistinctBelow(blocks, 20481);
  }

  /** The walk ends exactly when it never comes back to a header it has been at. */
  lemma EndsIff(img: seq<byte>)
    ensures Ends(img) <==> !Revisits(img)
  {
    if Revisits(img) {
      var j: nat, k: nat :| j < k && LiveUpTo(img, k + 1) && Nth(img, j) == Nth(img, k);
      forall n: nat
        ensures !Over(img, Nth(img, n))
      {
        RoundForEver(img, j, k, n);
      }
    } else if !Ends(img) {
      assert LiveUpTo(img, 20482);
      LiveIsShort(img, 20482);
    }
  }

  /** A walk that ends does so within 20481 headers. */
  lemma VisitsAtMost(img: seq<byte>)
    requires Ends(img)
    ensures |Visits(img)| <= 20481
  {
    EndsIff(img);
    LiveIsShort(img, Length(img));
  }

  /** Every header visited is a non-empty one on a block boundary within the limit, and none is visited twice. */
  lemma VisitsDistinct(img: seq<byte>, k: nat)
    requires Ends(img) && k < |Visits(img)|
    ensures var v := Visits(img);
            && v[k] % BLOCK == 0 && v[k] <= LIMIT && At(img, v[k]) != NUL
            && forall j :: 0 <= j < k ==> v[j] != v[k]
  {
    EndsIff(img);
    NthOnBoundary(img, k);
    assert !Over(img, Nth(img, k));
    assert LiveUpTo(img, k + 1);
  }

  /** Where no step wraps, headers come in strictly increasing order, at least a block apart. */
  lemma {:induction false} VisitsIncrease(img: seq<byte>, j: nat, k: nat)
    requires j < k && LiveUpTo(img, k)
    requires forall i: nat :: i < k ==> Nth(img, i) + BLOCK + Padded(SizeAt(img, Nth(img, i))) < WORD
    ensures Nth(img, j) + BLOCK * (k - j) <= Nth(img, k)
    decreases k
  {
    NextForward(img, Nth(img, k - 1));
    if j < k - 1 {
      VisitsIncrease(img, j, k - 1);
    }
  }

  /** No visited header's step wraps around. */
  ghost predicate Forward(img: seq<byte>) {
    forall n: nat :: LiveUpTo(img, n + 1) ==> Nth(img, n) + BLOCK + Padded(SizeAt(img, Nth(img, n))) < WORD
  }

  /** A walk on which no visited header's step wraps ends. */
  lemma ForwardWalkEnds(img: seq<byte>)
    requires Forward(img)
    ensures Ends(img)
  {
    if Revisits(img) {
      var j: nat, k: nat :| j < k && LiveUpTo(img, k + 1) && Nth(img, j) == Nth(img, k);
      forall i: nat | i < k
        ensures Nth(img, i) + BLOCK + Padded(SizeAt(img, Nth(img, i))) < WORD
      {
        assert LiveUpTo(img, i + 1);
      }
      VisitsIncrease(img, j, k);
    }
    EndsIff(img);
  }

  /** Where the size fields of visited headers end within their twelve bytes, no step wraps and the walk ends. */
  lemma ShortFieldsWalk(img: seq<byte>)
    requires forall n: nat :: LiveUpTo(img, n + 1) ==> |OctalRun(img, Nth(img, n) + SIZE_FIELD)| <= 12
    ensures Forward(img) && Ends(img)
  {
    forall n: nat | LiveUpTo(img, n + 1)
      ensures Nth(img, n) + BLOCK + Padded(SizeAt(img, Nth(img, n))) < WORD
    {
      assert !Over(img, Nth(img, n));
      OctalRunIs(img, Nth(img, n) + SIZE_FIELD);
      ShortRunSmall(OctalRun(img, Nth(img, n) + SIZE_FIELD));
    }
    ForwardWalkEnds(img);
  }

  /** An image of 10 MB whose every block is the header of an empty file. */
  function Headers(): seq<byte> {
    seq(10_485_761, i requires 0 <= i < 10_485_761 => if i % 512 == 0 then 65 else 0)
  }

  lemma HeaderStep(k: nat)
    requires k <= 20480
    ensures !Over(Headers(), 512 * k) && NextAt(Headers(), 512 * k) == 512 * (k + 1)
  {
    var img, o := Headers(), 512 * k;
    assert At(img, o) == 65;
    assert !IsOctal(At(img, o + SIZE_FIELD));
    assert OctalRun(img, o + SIZE_FIELD) == [];
  }

  lemma {:induction false} HeadersWalk(n: nat)
    requires n <= 20481
    ensures Nth(Headers(), n) == 512 * n && LiveUpTo(Headers(), n)
    decreases n
  {
    if n > 0 {
      HeadersWalk(n - 1);
      HeaderStep(n - 1);
    }
  }

  /** The bound is met: the walk over that image visits 20481 headers. */
  lemma VisitsMost()
    ensures Ends(Headers()) && |Visits(Headers())| == 20481
  {
    HeadersWalk(20481);
    assert EndsAt(Headers(), 20481);
    EndsAtUnique(Headers(), 20481, Length(Headers()));
  }

  lemma {:induction false} StaysPut(img: seq<byte>, n: nat)
    requires NextAt(img, 0) == 0
    ensures Nth(img, n) == 0
    decreases n
  {
    if n > 0 {
      StaysPut(img, n - 1);
    }
  }

  /** A size field that runs on into the next field can keep the walk at the same header for ever. */
  lemma StuckImage() returns (img: seq<byte>)
    ensures !Ends(img) && forall n: nat :: Nth(img, n) == 0
  {
    var k, size := 22, WORD - BLOCK;
    EightToTwentyTwo();
    img := SizeSpelt(size, k);
    forall n: nat
      ensures Nth(img, n) == 0
    {
      StaysPut(img, n);
    }
  }

  /** A size field of enough digits spells every size. */
  lemma SizeSpelt(size: u64, k: nat) returns (img: seq<byte>)
    requires size < Pow(8, k)
    ensures SizeAt(img, 0) == size && At(img, 0) == DOT
  {
    var digits := Fixed(size, k, 8);
    img := seq(SIZE_FIELD, _ => DOT) + digits;
    forall i | 0 <= i < k
      ensures digits[i] == At(img, SIZE_FIELD + i)
    {
    }
    FixedRead(img, SIZE_FIELD, size, k);
  }

  lemma EightToTwentyTwo()
    ensures WORD <= Pow(8, 22)
  {
    PowFour(8);
    PowAdd(8, 4, 4);
    PowAdd(8, 8, 8);
    PowAdd(8, 16, 4);
    assert Pow(8, 2) == 64;
    PowAdd(8, 20, 2);
  }
}
