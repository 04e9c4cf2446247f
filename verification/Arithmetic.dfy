/** The few nonlinear facts the proofs rest on. */
module Arithmetic {
  lemma TimesMonotone(a: int, b: int, d: int)
    requires a <= b && 0 <= d
    ensures a * d <= b * d
  {
  }

  lemma QuotientUnique(d: int, q: int, r: int, q': int, r': int)
    requires 0 <= r < d && 0 <= r' < d
    requires q * d + r == q' * d + r'
    ensures q == q' && r == r'
  {
    assert (q - q') * d == r' - r && (q' - q) * d == r - r';
    if q > q' {
      TimesMonotone(1, q - q', d);
    } else if q < q' {
      TimesMonotone(1, q' - q, d);
    }
  }

  lemma DivMod(n: nat, d: nat)
    requires 0 < d
    ensures n == (n / d) * d + n % d && 0 <= n % d < d
  {
  }

  lemma Divided(n: nat, d: nat) returns (q: nat, r: nat)
    requires 0 < d
    ensures q == n / d && r == n % d && n == q * d + r && r < d
  {
    DivMod(n, d);
    q, r := n / d, n % d;
  }

  lemma QuotientBelow(n: nat, d: nat, m: nat)
    requires 0 < d && n < m * d
    ensures n / d < m
  {
    DivMod(n, d);
    if n / d >= m {
      TimesMonotone(m, n / d, d);
      assert false;
    }
  }

  function Pow(base: nat, k: nat): nat {
    if k == 0 then 1 else Pow(base, k - 1) * base
  }

  lemma {:induction false} PowAdd(base: nat, j: nat, k: nat)
    ensures Pow(base, j + k) == Pow(base, j) * Pow(base, k)
    decreases k
  {
    if k > 0 {
      PowAdd(base, j, k - 1);
      assert Pow(base, j + k) == Pow(base, j) * Pow(base, k - 1) * base;
    }
  }

  lemma PowFour(base: nat)
    ensures Pow(base, 4) == base * base * base * base
  {
    assert Pow(base, 1) == base && Pow(base, 2) == base * base;
  }
}
