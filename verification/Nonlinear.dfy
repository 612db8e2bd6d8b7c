/** Small facts about products, quotients and powers of two used by the arithmetic,
    paging and formatting proofs. */
module Nonlinear {

  function Pow2(k: nat): nat {
    if k == 0 then 1 else 2 * Pow2(k - 1)
  }

  lemma MulLe(a: int, b: int, c: int)
    requires a <= b && c >= 0
    ensures a * c <= b * c
  {}

  lemma CancelLt(a: int, b: int, d: int)
    requires d > 0 && a * d < b * d
    ensures a < b
  {}

  lemma Distribute(a: int, b: int, c: int)
    ensures (a + b) * c == a * c + b * c
    ensures (a - b) * c == a * c - b * c
  {}

  lemma Assoc(a: int, b: int, c: int)
    ensures a * b * c == a * (b * c)
    ensures a * b * c == b * (a * c)
  {}

  lemma DivMod(n: int, d: int)
    requires d > 0
    ensures n == (n / d) * d + n % d
    ensures (n / d) * d <= n < (n / d) * d + d
  {}

  /** The quotient is determined by its bracket. */
  lemma QuotientUnique(n: int, d: int, q: int)
    requires d > 0 && q * d <= n < q * d + d
    ensures q == n / d && n - q * d == n % d
  {
    DivMod(n, d);
    CancelLt(q, n / d + 1, d);
    CancelLt(n / d, q + 1, d);
  }

  /** Adding a multiple of the modulus leaves the remainder alone. */
  lemma ModShift(n: int, k: int, d: int)
    requires d > 0
    ensures (n + k * d) % d == n % d
    ensures (n + k * d) / d == n / d + k
  {
    DivMod(n, d);
    Distribute(n / d, k, d);
    QuotientUnique(n + k * d, d, n / d + k);
  }

  lemma DivDiv(a: nat, b: nat, c: nat)
    requires b > 0 && c > 0
    ensures b * c > 0 && a / b / c == a / (b * c)
  {
    var x, q := a / b, a / b / c;
    DivMod(a, b);
    DivMod(x, c);
    MulLe(q * c, x, b);
    MulLe(x + 1, q * c + c, b);
    Distribute(q * c, c, b);
    Assoc(q, c, b);
    QuotientUnique(a, b * c, q);
  }

  lemma PowPositive(k: nat)
    ensures Pow2(k) >= 1
    ensures k >= 1 ==> Pow2(k) >= 2
    ensures k >= 2 ==> Pow2(k) >= 4
  {
    if k > 0 { PowPositive(k - 1); }
  }

  lemma {:induction false} PowSum(i: nat, j: nat)
    ensures Pow2(i) * Pow2(j) == Pow2(i + j)
  {
    if i > 0 {
      PowSum(i - 1, j);
      Assoc(2, Pow2(i - 1), Pow2(j));
    }
  }

  lemma Pow32()
    ensures Pow2(31) == 0x8000_0000 && Pow2(32) == 0x1_0000_0000
  {
    assert Pow2(8) == 256;
    PowSum(8, 8);
    PowSum(16, 8);
    assert Pow2(7) == 128;
    PowSum(24, 7);
  }
}
