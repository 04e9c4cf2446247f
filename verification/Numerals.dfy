/** Number printing: uint_to_string and utoa_hex, and the positional notation behind them. */
module Numerals {
  import opened Arithmetic
  import opened Bytes

  /** The value of a digit character, hexadecimal ones included. */
  function Digit(c: byte): int {
    if 48 <= c <= 57 then c - 48 else if 65 <= c <= 70 then c - 55 else 0
  }

  function DigitChar(d: int): byte
    requires 0 <= d < 16
  {
    if d < 10 then 48 + d else 55 + d
  }

  /** Reading a numeral: most significant digit first. */
  function Value(s: seq<byte>, base: nat): (n: nat)
    decreases |s|
  {
    if s == [] then 0 else Value(s[..|s| - 1], base) * base + Digit(s[|s| - 1])
  }

  /** Exactly k digits of n. */
  function Fixed(n: nat, k: nat, base: nat): (s: seq<byte>)
    requires 2 <= base <= 16
    ensures |s| == k
    ensures forall i :: 0 <= i < k ==> exists d :: 0 <= d < base && s[i] == DigitChar(d)
  {
    if k == 0 then [] else Fixed(n / base, k - 1, base) + [DigitChar(n % base)]
  }

  lemma DigitReads(d: nat)
    requires d < 16
    ensures Digit(DigitChar(d)) == d
  {
  }

  /** The digits are those of hexadecimal notation. */
  lemma DigitsWritten(d: nat)
    requires d < 16
    ensures DigitChar(d) == Ascii("0123456789ABCDEF")[d]
  {
  }

  lemma ValueSnoc(s: seq<byte>, c: byte, base: nat)
    ensures Value(s + [c], base) == Value(s, base) * base + Digit(c)
  {
    assert (s + [c])[..|s|] == s;
  }

  lemma FixedSnoc(n: nat, k: nat, base: nat, q: nat, r: nat)
    requires k > 0 && 2 <= base <= 16 && q == n / base && r == n % base
    ensures r < base && Fixed(n, k, base) == Fixed(q, k - 1, base) + [DigitChar(r)]
  {
  }

  lemma {:induction false} FixedValue(n: nat, k: nat, base: nat)
    requires 2 <= base <= 16 && n < Pow(base, k)
    ensures Value(Fixed(n, k, base), base) == n
    decreases k
  {
    if k > 0 {
      var q, r := Divided(n, base);
      QuotientBelow(n, base, Pow(base, k - 1));
      FixedValue(q, k - 1, base);
      FixedSnoc(n, k, base, q, r);
      DigitReads(r);
      ValueSnoc(Fixed(q, k - 1, base), DigitChar(r), base);
    }
  }

  /** Decimal without leading zeros. */
  function Decimal(n: nat): (s: seq<byte>)
    ensures |s| >= 1 && NUL !in s
  {
    if n < 10 then [48 + n] else Decimal(n / 10) + [48 + n % 10]
  }

  ghost predicate IsDecimal(s: seq<byte>) {
    && |s| >= 1
    && (forall k :: 0 <= k < |s| ==> 48 <= s[k] <= 57)
    && (|s| > 1 ==> s[0] != 48)
  }

  lemma {:induction false} DecimalReads(n: nat)
    ensures Value(Decimal(n), 10) == n
    ensures IsDecimal(Decimal(n)) && (n > 0 ==> Decimal(n)[0] != 48)
  {
    var s := Decimal(n);
    if n < 10 {
      assert s[..0] == [];
    } else {
      assert s[..|s| - 1] == Decimal(n / 10);
      DecimalReads(n / 10);
    }
  }

  lemma {:induction false} PositiveValue(s: seq<byte>)
    requires IsDecimal(s) && s[0] != 48
    ensures Value(s, 10) >= 1
    decreases |s|
  {
    if |s| > 1 {
      PositiveValue(s[..|s| - 1]);
    }
  }

  /** It is the only such numeral of n. */
  lemma {:induction false} DecimalUnique(s: seq<byte>)
    requires IsDecimal(s)
    ensures Decimal(Value(s, 10)) == s
    decreases |s|
  {
    var front := s[..|s| - 1];
    if |s| == 1 {
      assert front == [];
    } else {
      DecimalUnique(front);
      PositiveValue(front);
      assert s == front + [s[|s| - 1]];
    }
  }

  lemma {:induction false} DecimalLength(n: nat, k: nat)
    requires 1 <= k && n < Pow(10, k)
    ensures |Decimal(n)| <= k
    decreases k
  {
    if n >= 10 {
      assert k > 1;
      DecimalLength(n / 10, k - 1);
    }
  }

  lemma U64Digits(n: u64)
    ensures n < Pow(10, 20) && n < Pow(16, 16)
  {
    PowFour(10);
    PowAdd(10, 4, 4);
    PowAdd(10, 8, 8);
    PowAdd(10, 16, 4);
    PowFour(16);
    PowAdd(16, 4, 4);
    PowAdd(16, 8, 8);
  }

  lemma DecimalFits(n: u64)
    ensures |Decimal(n)| <= 20
  {
    U64Digits(n);
    DecimalLength(n, 20);
  }

  lemma HexReads(n: u64)
    ensures Value(Fixed(n, 16, 16), 16) == n
  {
    U64Digits(n);
    FixedValue(n, 16, 16);
  }

  /** The digits still to be written. */
  function Remaining(m: nat): seq<byte> {
    if m == 0 then [] else Decimal(m)
  }

  lemma RemainingStep(m: nat, tail: seq<byte>)
    requires m > 0
    ensures Remaining(m / 10) + ([48 + m % 10] + tail) == Remaining(m) + tail
    ensures |Remaining(m / 10)| + 1 == |Remaining(m)|
  {
    assert Remaining(m) == Remaining(m / 10) + [48 + m % 10];
  }

  /** The digits go in backwards from the end; the `i > 0` guard never cuts a number short. */
  method UintToString(buf: array<byte>, n: u64) returns (p: nat)
    requires buf.Length == 32
    modifies buf
    ensures 11 <= p < 31 && CStr(buf[..], p) == Decimal(n)
  {
    DecimalFits(n);
    ghost var text := Decimal(n);
    var i := 30;
    buf[31] := NUL;
    if n == 0 {
      buf[i] := 48;
      i := i - 1;
    } else {
      var m: nat := n;
      while m > 0 && i > 0
        invariant 0 <= i <= 30 && buf[31] == NUL
        invariant |Remaining(m)| + (30 - i) == |text|
        invariant Remaining(m) + buf[i + 1..31] == text
      {
        ghost var tail := buf[i + 1..31];
        RemainingStep(m, tail);
        buf[i] := 48 + m % 10;
        assert buf[i..31] == [48 + m % 10] + tail;
        i := i - 1;
        m := m / 10;
      }
      assert Remaining(m) == [];
    }
    p := i + 1;
    assert p + |text| == 31 && buf[p..31] == text;
    CStrSlice(buf[..], p, text);
  }

  /** "0x" and sixteen digits that read back as n. */
  method UtoaHex(n: u64, str: array<byte>)
    requires str.Length >= 19
    modifies str
    ensures str[0] == 48 && str[1] == 120 && str[18] == NUL
    ensures str[2..18] == Fixed(n, 16, 16) && Value(str[2..18], 16) == n
    ensures forall k :: 19 <= k < str.Length ==> str[k] == old(str[k])
  {
    str[0] := 48;
    str[1] := 120;
    var m: nat := n;
    var i := 15;
    assert str[18..18] == [];
    while i >= 0
      invariant -1 <= i <= 15 && str[0] == 48 && str[1] == 120
      invariant Fixed(m, i + 1, 16) + str[i + 3..18] == Fixed(n, 16, 16)
      invariant forall k :: 18 <= k < str.Length ==> str[k] == old(str[k])
    {
      ghost var tail := str[i + 3..18];
      str[i + 2] := DigitChar(m % 16);
      assert str[i + 3..18] == tail;
      assert str[i + 2..18] == [str[i + 2]] + str[i + 3..18];
      m := m / 16;
      i := i - 1;
    }
    str[18] := NUL;
    HexReads(n);
  }
}
