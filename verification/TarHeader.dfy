/** ustar headers as kernel/drivers/tar.c reads them: size fields and the step to the next header. */
module TarHeader {
  import opened Arithmetic
  import opened Bytes
  import opened Numerals

  const BLOCK := 512
  const SIZE_FIELD := 124
  const LIMIT := 1024 * 1024 * 10

  predicate IsOctal(c: byte) { 48 <= c <= 55 }

  /** The octal digits that start at p. */
  function OctalRun(img: seq<byte>, p: nat): seq<byte>
    decreases |img| - p
  {
    if IsOctal(At(img, p)) then [img[p]] + OctalRun(img, p + 1) else []
  }

  lemma {:induction false} OctalRunIs(img: seq<byte>, p: nat)
    ensures var s := OctalRun(img, p);
            && (forall k :: 0 <= k < |s| ==> s[k] == At(img, p + k))
            && (forall k :: p <= k < p + |s| ==> IsOctal(At(img, k)))
            && !IsOctal(At(img, p + |s|))
    decreases |img| - p
  {
    if IsOctal(At(img, p)) {
      OctalRunIs(img, p + 1);
      var s, t := OctalRun(img, p), OctalRun(img, p + 1);
      assert s == [img[p]] + t;
      forall k | 0 <= k < |s|
        ensures s[k] == At(img, p + k)
      {
        assert k > 0 ==> s[k] == t[k - 1];
      }
    }
  }

  lemma {:induction false} OctalRunUnique(img: seq<byte>, p: nat, s: seq<byte>)
    requires forall k :: 0 <= k < |s| ==> IsOctal(s[k]) && s[k] == At(img, p + k)
    requires !IsOctal(At(img, p + |s|))
    ensures OctalRun(img, p) == s
    decreases |s|
  {
    if s != [] {
      assert s[0] == At(img, p);
      forall k | 0 <= k < |s[1..]|
        ensures IsOctal(s[1..][k]) && s[1..][k] == At(img, p + 1 + k)
      {
        assert s[1..][k] == s[k + 1];
      }
      OctalRunUnique(img, p + 1, s[1..]);
    }
  }

  /** The number the digits at p spell, as size_t holds it. */
  function Octal(img: seq<byte>, p: nat): u64 {
    Wrap(Value(OctalRun(img, p), 8))
  }

  lemma WrapStep(v: nat, d: nat)
    ensures Wrap(Wrap(v) * 8 + d) == Wrap(v * 8 + d)
  {
    var q := v / WORD;
    assert v * 8 + d == (Wrap(v) * 8 + d) + 8 * q * WORD;
  }

  method OctalToInt(img: seq<byte>, p: nat) returns (size: u64)
    ensures size == Octal(img, p)
  {
    ghost var run := OctalRun(img, p);
    OctalRunIs(img, p);
    size := 0;
    var i := 0;
    while IsOctal(At(img, p + i))
      invariant i <= |run|
      invariant size == Wrap(Value(run[..i], 8))
      decreases |run| - i
    {
      assert run[..i + 1][..i] == run[..i];
      WrapStep(Value(run[..i], 8), At(img, p + i) - 48);
      size := Wrap(size * 8 + (At(img, p + i) - 48));
      i := i + 1;
    }
    assert run[..i] == run;
  }

  /** A number written in k octal digits is read back. */
  lemma FixedRead(img: seq<byte>, p: nat, n: nat, k: nat)
    requires n < Pow(8, k)
    requires forall i :: 0 <= i < k ==> Fixed(n, k, 8)[i] == At(img, p + i)
    requires !IsOctal(At(img, p + k))
    ensures OctalRun(img, p) == Fixed(n, k, 8) && Value(OctalRun(img, p), 8) == n
    ensures n < WORD ==> Octal(img, p) == n
  {
    var digits := Fixed(n, k, 8);
    forall i | 0 <= i < k
      ensures IsOctal(digits[i])
    {
      var d :| 0 <= d < 8 && digits[i] == DigitChar(d);
    }
    OctalRunUnique(img, p, digits);
    FixedValue(n, k, 8);
    assert Value(OctalRun(img, p), 8) == n;
  }

  /** The size a header claims. */
  function SizeAt(img: seq<byte>, o: nat): u64 {
    Octal(img, o + SIZE_FIELD)
  }

  /** Rounding up to whole blocks, in 64-bit arithmetic. */
  function Padded(size: nat): u64 {
    Wrap(size + 511) / 512 * 512
  }

  /** Offset of the header after the one at o, in 64-bit arithmetic. */
  function NextAt(img: seq<byte>, o: nat): u64 {
    Wrap(o + BLOCK + Padded(SizeAt(img, o)))
  }

  /** A step that does not wrap. */
  lemma NextForward(img: seq<byte>, o: nat)
    requires o + BLOCK + Padded(SizeAt(img, o)) < WORD
    ensures NextAt(img, o) == o + BLOCK + Padded(SizeAt(img, o))
  {
  }

  /** Without wrap-around, padding is the least multiple of the block size that holds the data. */
  lemma PaddedLeast(size: nat, m: nat)
    requires size + 511 < WORD
    ensures Padded(size) % BLOCK == 0 && size <= Padded(size)
    ensures m % BLOCK == 0 && size <= m ==> Padded(size) <= m
  {
  }

  lemma WrapOnBoundary(n: nat)
    requires n % BLOCK == 0
    ensures Wrap(n) % BLOCK == 0
  {
    var blocks := n / BLOCK - n / WORD * 0x80_0000_0000_0000;
    assert n == n / WORD * WORD + Wrap(n) && n == n / BLOCK * BLOCK;
    assert Wrap(n) == BLOCK * blocks;
  }

  lemma NextOnBoundary(img: seq<byte>, o: nat)
    requires o % BLOCK == 0
    ensures NextAt(img, o) % BLOCK == 0
  {
    WrapOnBoundary(o + BLOCK + Padded(SizeAt(img, o)));
  }

  lemma {:induction false} OctalBelow(s: seq<byte>)
    requires forall k :: 0 <= k < |s| ==> IsOctal(s[k])
    ensures Value(s, 8) < Pow(8, |s|)
    decreases |s|
  {
    if s != [] {
      OctalBelow(s[..|s| - 1]);
    }
  }

  lemma {:induction false} PowGrows(j: nat, k: nat)
    requires j <= k
    ensures Pow(8, j) <= Pow(8, k)
    decreases k
  {
    if j < k {
      PowGrows(j, k - 1);
    }
  }

  lemma EightToTwelve()
    ensures Pow(8, 12) == 0x10_0000_0000
  {
    PowFour(8);
    PowAdd(8, 4, 4);
    PowAdd(8, 8, 4);
  }

  /** A size field that ends within its twelve bytes spells less than 2 to the 36. */
  lemma ShortRunSmall(s: seq<byte>)
    requires forall k :: 0 <= k < |s| ==> IsOctal(s[k])
    requires |s| <= 12
    ensures Value(s, 8) < 0x10_0000_0000
  {
    OctalBelow(s);
    PowGrows(|s|, 12);
    EightToTwelve();
  }

  /** A header sends the walk forward exactly when stepping over its padded data does not wrap around. */
  lemma ForwardIff(img: seq<byte>, o: nat)
    requires o <= LIMIT
    ensures NextAt(img, o) > o <==> o + BLOCK + Padded(SizeAt(img, o)) < WORD
  {
    PaddedBelow(SizeAt(img, o));
    var n := o + BLOCK + Padded(SizeAt(img, o));
    assert Wrap(n) == if n < WORD then n else n - WORD;
  }

  lemma PaddedBelow(size: nat)
    ensures Padded(size) <= WORD - BLOCK
  {
  }
}
