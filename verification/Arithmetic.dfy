/** 64-bit division built from the x86 32-bit divide instruction (src/lib/arithmetic.c).

    Machine words are integers in range and every C operation that can lose bits is
    written with an explicit `Wrap`.  Signed arithmetic is two's complement. */
module Arithmetic {
  import opened Nonlinear

  const B32: int := 0x1_0000_0000
  const B63: int := 0x8000_0000_0000_0000
  const B64: int := 0x1_0000_0000_0000_0000

  type Word32 = x: int | 0 <= x < B32
  type Word64 = x: int | 0 <= x < B64
  type Int32 = x: int | -0x8000_0000 <= x < 0x8000_0000
  type Int64 = x: int | -B63 <= x < B63

  function Wrap32(x: int): Word32 { x % B32 }

  function Wrap64(x: int): Word64 { x % B64 }

  /** C's unary minus on an unsigned 64-bit value. */
  function Neg64(x: Word64): Word64 { (B64 - x) % B64 }

  /** Conversion to a signed 32-bit integer keeps the low 32 bits. */
  function Signed32(x: int): Int32 {
    if x % B32 < 0x8000_0000 then x % B32 else x % B32 - B32
  }

  /** Conversion to a signed 64-bit integer keeps the low 64 bits. */
  function Signed64(x: int): Int64 {
    if x % B64 < B63 then x % B64 else x % B64 - B64
  }

  // ---------------------------------------------------------------- nlz

  /** `x << k` without loss of bits. */
  function ShiftLeft(x: nat, k: nat): nat {
    if k == 0 then x else 2 * ShiftLeft(x, k - 1)
  }

  lemma {:induction false} ShiftSum(x: nat, n: nat, k: nat)
    ensures ShiftLeft(ShiftLeft(x, n), k) == ShiftLeft(x, n + k)
  {
    if k > 0 { ShiftSum(x, n, k - 1); }
  }

  lemma {:induction false} ShiftIsProduct(x: nat, k: nat)
    ensures ShiftLeft(x, k) == x * Pow2(k)
  {
    if k > 0 {
      ShiftIsProduct(x, k - 1);
      Assoc(2, x, Pow2(k - 1));
      Assoc(x, 2, Pow2(k - 1));
    }
  }

  lemma ShiftSteps(x: nat)
    ensures ShiftLeft(x, 1) == 2 * x && ShiftLeft(x, 2) == 4 * x
    ensures ShiftLeft(x, 4) == 0x10 * x && ShiftLeft(x, 8) == 0x100 * x
    ensures ShiftLeft(x, 16) == 0x1_0000 * x
  {
    Shift4(x);
    ShiftSum(x, 4, 4);
    Shift4(0x10 * x);
    ShiftSum(x, 8, 8);
    ShiftSum(0x100 * x, 4, 4);
    Shift4(0x100 * x);
    Shift4(0x1000 * x);
  }

  lemma Shift4(x: nat)
    ensures ShiftLeft(x, 1) == 2 * x && ShiftLeft(x, 2) == 4 * x && ShiftLeft(x, 4) == 0x10 * x
  {
    assert ShiftLeft(x, 1) == 2 * ShiftLeft(x, 0);
    assert ShiftLeft(x, 2) == 2 * ShiftLeft(x, 1);
    assert ShiftLeft(x, 3) == 2 * ShiftLeft(x, 2);
  }

  /** Counts leading zero bits by five conditional shifts: the result is the shift that
      brings the leading one to bit 31. */
  method Nlz(word: Word32) returns (n: nat)
    requires word != 0
    ensures n <= 31
    ensures 0x8000_0000 <= ShiftLeft(word, n) < B32
  {
    var x: Word32 := word;
    n := 0;
    if x <= 0x0000FFFF { n, x := Normalise(word, n, x, 16); }
    if x <= 0x00FFFFFF { n, x := Normalise(word, n, x, 8); }
    if x <= 0x0FFFFFFF { n, x := Normalise(word, n, x, 4); }
    if x <= 0x3FFFFFFF { n, x := Normalise(word, n, x, 2); }
    if x <= 0x7FFFFFFF { n, x := Normalise(word, n, x, 1); }
  }

  function Power(k: nat): nat {
    match k case 1 => 2 case 2 => 4 case 4 => 0x10 case 8 => 0x100 case 16 => 0x1_0000 case _ => 0
  }

  /** `n += k; x <<= k` on a 32-bit word, for the five shift counts of `Nlz`. */
  method Normalise(ghost word: Word32, n: nat, x: Word32, k: nat)
    returns (n': nat, x': Word32)
    requires k == 1 || k == 2 || k == 4 || k == 8 || k == 16
    requires x == ShiftLeft(word, n) && x < B32 / Power(k)
    ensures n' == n + k
    ensures x' == x * Power(k) == ShiftLeft(word, n')
  {
    ShiftSum(word, n, k);
    ShiftSteps(x);
    n', x' := n + k, Wrap32(x * Power(k));
  }

  /** The normalising shift is unique, so the contract of `Nlz` pins its result. */
  lemma NlzUnique(word: Word32, m: nat, n: nat)
    requires 0x8000_0000 <= ShiftLeft(word, m) < B32
    requires 0x8000_0000 <= ShiftLeft(word, n) < B32
    ensures m == n
  {
    if m < n {
      ShiftGrows(word, m, n);
    } else if n < m {
      ShiftGrows(word, n, m);
    }
  }

  lemma {:induction false} ShiftGrows(x: nat, m: nat, n: nat)
    requires m < n
    ensures 2 * ShiftLeft(x, m) <= ShiftLeft(x, n)
  {
    if m + 1 < n { ShiftGrows(x, m, n - 1); }
  }

  // ---------------------------------------------------------------- udiv64

  /** The DIVL instruction.  It raises a divide error unless the quotient fits in 32
      bits, so every call below is an obligation not to trap. */
  function Divl(n: Word64, d: Word32): (q: Word32)
    requires d != 0 && n / d < B32
    ensures q * d <= n < q * d + d
  {
    n / d
  }

  /** Narrow divisor: long division by base-2^32 digits never traps. */
  lemma NarrowDivision(n: Word64, n1: Word32, n0: Word32, d: Word32)
    requires d != 0 && n == B32 * n1 + n0
    ensures B32 * (n1 % d) + n0 < B64
    ensures (B32 * (n1 % d) + n0) / d < B32
    ensures (B32 * (n1 % d) + n0) / d + B32 * (n1 / d) == n / d
  {
    var hi, m := n1 / d, B32 * (n1 % d) + n0;
    DivMod(n1, d);
    DivMod(m, d);
    CancelLt(m / d, B32, d);
    Assoc(B32, hi, d);
    ModShift(m, B32 * hi, d);
  }

  /** Wide divisor: dropping the low bits of `d` (leaving `D`, a multiple of `P`)
      overestimates the quotient by at most one.  `A * P` is 2^32. */
  lemma EstimateOffByOne(n: Word64, d: Word64, D: nat, A: nat, P: nat, q: nat)
    requires (P == 2 || P >= 4) && A * P == B32
    requires 0x8000_0000 * P <= D <= d < D + P
    requires q * d <= n < q * d + d
    ensures q <= n / D <= q + 1
  {
    assert q <= n / D by { Underestimates(n, d, D, q); }
    assert n / D <= q + 1 by {
      assert q < 2 * A by { QuotientSmall(n, d, A, P, q); }
      assert (q + 1) * (d - D) <= D by { EstimateGap(q, d - D, D, A, P); }
      Overshoot(n, d, D, q);
    }
  }

  lemma Underestimates(n: nat, d: nat, D: nat, q: nat)
    requires 0 < D <= d && q * d <= n
    ensures q <= n / D
  {
    DivMod(n, D);
    MulLe(D, d, q);
    Distribute(n / D, 1, D);
    CancelLt(q, n / D + 1, D);
  }

  lemma Overshoot(n: nat, d: nat, D: nat, q: nat)
    requires 0 < D <= d
    requires n < q * d + d
    requires (q + 1) * (d - D) <= D
    ensures n / D <= q + 1
  {
    DivMod(n, D);
    Distribute(q, 1, d);
    Distribute(D, d - D, q + 1);
    Distribute(q + 1, 1, D);
    CancelLt(n / D, q + 2, D);
  }

  lemma EstimateGap(q: nat, gap: nat, D: nat, A: nat, P: nat)
    requires (P == 2 || P >= 4) && A * P == B32
    requires q < 2 * A && gap < P && 0x8000_0000 * P <= D
    ensures (q + 1) * gap <= D
  {
    MulLe(q + 1, 2 * A, gap);
    MulLe(gap, P - 1, 2 * A);
    Distribute(P, 1, 2 * A);
    Assoc(2, A, P);
  }

  lemma QuotientSmall(n: Word64, d: Word64, A: nat, P: nat, q: nat)
    requires P > 0 && A * P == B32
    requires 0x8000_0000 * P <= d
    requires q * d <= n
    ensures q < 2 * A
  {
    MulLe(0x8000_0000 * P, d, q);
    Assoc(0x8000_0000, q, P);
    Assoc(q, 0x8000_0000, P);
    Assoc(2, A, P);
    CancelLt(q, 2 * A, P);
  }

  /** The truncated divisor `v` holds the top 32 bits of the normalised `d`. */
  lemma TruncatedDivisor(d1: nat, d0: Word32, A: nat, P: nat, d: Word64)
    requires d == B32 * d1 + d0 && A * P == B32 && P > 0
    requires 0x8000_0000 <= d1 * A < B32
    ensures d * A < B64
    ensures d1 * A <= d * A / B32 < B32
    ensures (d * A / B32) * P <= d < (d * A / B32) * P + P
  {
    assert d * A / B32 == d / P by {
      DivDiv(d * A, A, P);
      ModShift(0, d, A);
    }
    DivMod(d, P);
    ShiftedRange(d1, d0, A, P, d);
  }

  lemma ShiftedRange(d1: nat, d0: Word32, A: nat, P: nat, d: Word64)
    requires d == B32 * d1 + d0 && A * P == B32 && P > 0
    requires d1 * A < B32
    ensures d * A < B64
    ensures d1 * A <= d * A / B32 < B32
  {
    var high, low := d1 * A, d0 * A;
    assert d * A == B32 * high + low by {
      Distribute(B32 * d1, d0, A);
      Assoc(B32, d1, A);
    }
    assert 0 <= low <= B32 * A - A by {
      MulLe(0, d0, A);
      MulLe(d0 + 1, B32, A);
      Distribute(d0, 1, A);
    }
    assert high + A <= B32 by {
      CancelLt(d1, P, A);
      MulLe(d1 + 1, P, A);
      Distribute(d1, 1, A);
    }
  }

  /** Lines 121-123: the shifted estimate neither traps nor misses by more than one. */
  lemma EstimateValue(n: Word64, d: Word64, s: nat, v: nat)
    requires s <= 31 && 0x8000_0000 <= ShiftLeft(d / B32, s) < B32
    requires v == Wrap64(d * Pow2(s)) / B32
    ensures 0x8000_0000 <= v < B32
    ensures n / 2 / v < B32
    ensures Pow2(31 - s) >= 1
    ensures n / d <= n / 2 / v / Pow2(31 - s) <= n / d + 1
  {
    SplitPower(s);
    ShiftIsProduct(d / B32, s);
    TopDigit(d, Pow2(s), Pow2(32 - s), v);
    EstimateBracket(n, d, v, Pow2(s), Pow2(31 - s));
  }

  lemma TopDigit(d: Word64, A: nat, P: nat, v: nat)
    requires A * P == B32 && P > 0
    requires 0x8000_0000 <= (d / B32) * A < B32
    requires v == Wrap64(d * A) / B32
    ensures 0x8000_0000 <= v < B32
    ensures v * P <= d < v * P + P
  {
    TruncatedDivisor(d / B32, d % B32, A, P, d);
    TopWrap(d * A, v);
  }

  lemma TopWrap(x: int, v: nat)
    requires 0 <= x < B64 && v == Wrap64(x) / B32
    ensures v == x / B32
  {}

  lemma SplitPower(s: nat)
    requires s <= 31
    ensures Pow2(s) * Pow2(32 - s) == B32
    ensures Pow2(32 - s) == 2 || Pow2(32 - s) >= 4
    ensures Pow2(31 - s) >= 1 && Pow2(32 - s) == 2 * Pow2(31 - s)
  {
    PowSum(s, 32 - s);
    Pow32();
    PowPositive(32 - s);
    PowPositive(31 - s);
  }

  lemma EstimateBracket(n: Word64, d: Word64, v: nat, A: nat, H: nat)
    requires H >= 1 && A * (2 * H) == B32
    requires 0x8000_0000 <= v && v * (2 * H) <= d < v * (2 * H) + 2 * H
    ensures d > 0 && n / 2 / v < B32
    ensures n / d <= n / 2 / v / H <= n / d + 1
  {
    var P := 2 * H;
    assert 0x8000_0000 * P <= v * P by { MulLe(0x8000_0000, v, P); }
    assert n / d <= n / (v * P) <= n / d + 1 by {
      DivMod(n, d);
      QuotientBound(n, d);
      EstimateOffByOne(n, d, v * P, A, P, n / d);
    }
    HalvedQuotient(n, v, H);
    EstimateFits(n / 2, v);
  }

  lemma HalvedQuotient(n: nat, v: nat, h: nat)
    requires v > 0 && h > 0
    ensures v * (2 * h) > 0 && n / 2 / v / h == n / (v * (2 * h))
  {
    DivDiv(n, 2, v);
    DivDiv(n, 2 * v, h);
    Assoc(2, v, h);
    Assoc(v, 2, h);
  }

  lemma EstimateFits(half: nat, v: nat)
    requires half < B63 && v >= 0x8000_0000
    ensures half / v < B32
  {
    DivMod(half, v);
    MulLe(0x8000_0000, v, B32);
    CancelLt(half / v, B32, v);
  }

  /** The last line of the wide branch, with every operation in 64 bits. */
  function Corrected(n: Word64, d: Word64, e: Word64): Word64 {
    var e1 := Wrap64(e - 1);
    var product := Wrap64(e1 * d);
    if Wrap64(n - product) < d then e1 else e
  }

  /** Nothing wraps and the test picks the floor. */
  lemma Correction(n: Word64, d: Word64, q: int, e: int)
    requires 2 <= d <= n && q * d <= n < q * d + d
    requires q <= e <= q + 1
    ensures 1 <= e < B64 && Corrected(n, d, e) == q
  {
    var product := (e - 1) * d;
    assert 0 <= product <= n && 1 <= e && (n - product < d <==> e == q + 1) by {
      CorrectionBracket(n, d, q, e);
    }
    assert 2 * (e - 1) <= product by { MulLe(2, d, e - 1); }
    assert Wrap64(product) == product && Wrap64(n - product) == n - product;
    assert Wrap64(e - 1) == e - 1;
  }

  lemma CorrectionBracket(n: nat, d: nat, q: int, e: int)
    requires 0 < d <= n && q * d <= n < q * d + d
    requires q <= e <= q + 1
    ensures e >= 1
    ensures 0 <= (e - 1) * d <= n
    ensures n - (e - 1) * d < d <==> e == q + 1
  {
    Distribute(q, 1, d);
    CancelLt(0, q, d);
    MulLe(0, e - 1, d);
  }

  /** Unsigned 64-bit quotient: the exact floor, on every input. */
  method Udiv64(n: Word64, d: Word64) returns (q: Word64)
    requires d != 0
    ensures q == n / d
  {
    if d / B32 == 0 {
      q := DivideNarrow(n, d);
    } else if n < d {
      q := 0;
      QuotientUnique(n, d, 0);
    } else {
      q := DivideWide(n, d);
    }
  }

  method DivideNarrow(n: Word64, d: Word32) returns (q: Word64)
    requires d != 0
    ensures q == n / d
  {
    var n1, n0 := n / B32, n % B32;
    NarrowDivision(n, n1, n0, d);
    QuotientBound(n, d);
    var low := Divl(B32 * (n1 % d) + n0, d);
    q := Wrap64(low + B32 * (n1 / d));
  }

  method DivideWide(n: Word64, d: Word64) returns (q: Word64)
    requires B32 <= d <= n
    ensures q == n / d
  {
    var s := Nlz(d / B32);
    var v := Wrap64(d * Pow2(s)) / B32;
    EstimateValue(n, d, s, v);
    var e := Divl(n / 2, v) / Pow2(31 - s);
    DivMod(n, d);
    Correction(n, d, n / d, e);
    q := Corrected(n, d, e);
  }

  /** Unsigned remainder.  The C function returns 32 bits, so the result is the
      remainder exactly when the remainder fits. */
  method Umod64(n: Word64, d: Word64) returns (r: Word32)
    requires d != 0
    ensures r == (n % d) % B32
    ensures r == n % d <==> n % d < B32
  {
    var q := Udiv64(n, d);
    var p := d * q;
    WhatIsLeft(n, d);
    NoWrap(n, p, n % d);
    r := Wrap32(Wrap64(n - Wrap64(p)));
  }

  lemma WhatIsLeft(n: nat, d: nat)
    requires d != 0
    ensures 0 <= d * (n / d) <= n && n - d * (n / d) == n % d
  {
    DivMod(n, d);
    assert d * (n / d) == n / d * d;
  }

  lemma NoWrap(n: Word64, p: int, m: int)
    requires 0 <= p <= n && n - p == m
    ensures Wrap64(n - Wrap64(p)) == m && (Wrap32(m) == m <==> m < B32)
  {}

  /** `umod64` is wrong on a family of inputs; this is one of them. */
  method Umod64Truncates() returns (r: Word32)
    ensures r == 0 && B32 % (B32 + 1) == B32
  {
    QuotientUnique(B32, B32 + 1, 0);
    r := Umod64(B32, B32 + 1);
  }

  /** What a caller can rely on: all remainders by `d` are right exactly if `d` is at most 2^32. */
  lemma UmodDivisor(d: Word64)
    requires d != 0
    ensures (forall n: Word64 :: Wrap32(n % d) == n % d) <==> d <= B32
  {
    if d > B32 {
      QuotientUnique(B32, d, 0);
      var n: Word64 := B32;
      assert Wrap32(n % d) == 0;
    }
  }

  // ---------------------------------------------------------------- signed division

  /** C's division: the quotient truncates toward zero, the remainder has the sign of `n`. */
  ghost predicate TruncatedDivision(n: int, d: int, q: int, r: int) {
    && n == q * d + r
    && (if d > 0 then -d < r < d else d < r < -d)
    && (n >= 0 ==> r >= 0)
    && (n <= 0 ==> r <= 0)
  }

  lemma TruncatedDivisionUnique(n: int, d: int, q: int, r: int, q': int, r': int)
    requires d != 0
    requires TruncatedDivision(n, d, q, r) && TruncatedDivision(n, d, q', r')
    ensures q == q' && r == r'
  {
    var m := Abs(d);
    Distribute(q, q', d);
    assert d < 0 ==> (q - q') * m == -((q - q') * d);
    CancelLt(q - q', 1, m);
    CancelLt(-1, q - q', m);
  }

  function Abs(x: int): nat { if x >= 0 then x else -x }

  /** Truncated quotient and remainder, from the magnitudes. */
  function Quotient(n: int, d: int): int
    requires d != 0
  {
    if (n < 0) == (d < 0) then Abs(n) / Abs(d) else -(Abs(n) / Abs(d))
  }

  function Remainder(n: int, d: int): int
    requires d != 0
  {
    if n < 0 then -(Abs(n) % Abs(d)) else Abs(n) % Abs(d)
  }

  lemma QuotientRemainder(n: int, d: int)
    requires d != 0
    ensures TruncatedDivision(n, d, Quotient(n, d), Remainder(n, d))
  {
    DivMod(Abs(n), Abs(d));
  }

  /** Signed quotient.  It is C's quotient except for the one pair whose quotient does
      not fit in 64 bits. */
  method Sdiv64(n: Int64, d: Int64) returns (q: Int64)
    requires d != 0
    ensures q == Signed64(Quotient(n, d))
    ensures q == Quotient(n, d) <==> !(n == -B63 && d == -1)
  {
    var nAbs, dAbs := Magnitude(n), Magnitude(d);
    var qAbs := Udiv64(nAbs, dAbs);
    assert qAbs <= B63 && (qAbs == B63 ==> n == -B63 && dAbs == 1) by {
      QuotientBound(nAbs, dAbs);
    }
    q := WithSign(qAbs, (n < 0) == (d < 0));
    WithSignExact(qAbs, (n < 0) == (d < 0));
  }

  /** The return expression of `sdiv64`. */
  function WithSign(qAbs: Word64, same: bool): Int64 {
    var qInt: int := Signed64(qAbs);
    if same then qInt else Signed64(-qInt)
  }

  lemma WithSignExact(qAbs: int, same: bool)
    requires 0 <= qAbs <= B63
    ensures WithSign(qAbs, same) == Signed64(if same then qAbs else -qAbs)
    ensures WithSign(qAbs, same) == (if same then qAbs else -qAbs) <==> !(same && qAbs == B63)
  {}

  /** Absolute value computed in unsigned arithmetic, right even for the least integer. */
  function Magnitude(x: Int64): (m: Word64)
    ensures m == Abs(x)
  {
    if x >= 0 then Wrap64(x) else Neg64(Wrap64(x))
  }

  lemma QuotientBound(a: nat, b: nat)
    requires b > 0
    ensures 0 <= a / b <= a
    ensures b > 1 && a > 0 ==> a / b < a
  {
    DivMod(a, b);
    CancelLt(-1, a / b, b);
    MulLe(1, b, a);
    if b > 1 && a > 0 {
      MulLe(2, b, a);
      CancelLt(a / b, a, b);
    } else {
      CancelLt(a / b, a + 1, b);
    }
  }

  /** Signed remainder: truncated to 32 bits, hence right exactly when it fits. */
  method Smod64(n: Int64, d: Int64) returns (r: Int32)
    requires d != 0
    ensures r == Signed32(Remainder(n, d))
    ensures r == Remainder(n, d) <==> -0x8000_0000 <= Remainder(n, d) < 0x8000_0000
  {
    var q := Sdiv64(n, d);
    QuotientRemainder(n, d);
    var product: int := Signed64(d * q);
    r := Signed32(Signed64(n - product));
    WrapSound(n, d, q, Quotient(n, d), Remainder(n, d));
    Signed32Exact(Remainder(n, d));
  }

  /** `smod64` is wrong on a family of inputs; this is one of them. */
  method Smod64Truncates() returns (r: Int32)
    ensures r == -0x8000_0000 && Remainder(0x8000_0000, 0x8000_0001) == 0x8000_0000
  {
    r := Smod64(0x8000_0000, 0x8000_0001);
  }

  /** All remainders by `d` are right exactly if the magnitude of `d` is at most 2^31. */
  lemma SmodDivisor(d: Int64)
    requires d != 0
    ensures (forall n: Int64 :: Signed32(Remainder(n, d)) == Remainder(n, d)) <==> Abs(d) <= 0x8000_0000
  {
    if Abs(d) > 0x8000_0000 {
      var n: Int64 := 0x8000_0000;
      QuotientUnique(n, Abs(d), 0);
      assert Remainder(n, d) == 0x8000_0000;
      Signed32Exact(Remainder(n, d));
    } else {
      forall n: Int64 ensures Signed32(Remainder(n, d)) == Remainder(n, d) {
        DivMod(Abs(n), Abs(d));
        Signed32Exact(Remainder(n, d));
      }
    }
  }

  lemma Signed32Exact(x: int)
    ensures Signed32(x) == x <==> -0x8000_0000 <= x < 0x8000_0000
  {}

  /** Wrapping the product and the difference does not disturb the low 64 bits. */
  lemma WrapSound(n: Int64, d: Int64, q: Int64, full: int, rem: int)
    requires q == Signed64(full)
    requires n == full * d + rem
    ensures Signed32(Signed64(n - Signed64(d * q))) == Signed32(rem)
  {
    var k := SignedOffset(full);
    var p := d * q;
    var j := SignedOffset(p);
    assert full * d == p + (k * d) * B64 by {
      Distribute(q, k * B64, d);
      Assoc(k, d, B64);
      Assoc(k, B64, d);
    }
    Distribute(k * d, j, B64);
    SignedShift(n - Signed64(p), rem, k * d + j);
  }

  lemma SignedOffset(x: int) returns (k: int)
    ensures x == Signed64(x) + k * B64
  {
    k := if x % B64 < B63 then x / B64 else x / B64 + 1;
  }

  lemma SignedShift(t: int, rem: int, m: int)
    requires t == rem + m * B64
    ensures Signed32(Signed64(t)) == Signed32(rem)
  {
    var i := SignedOffset(t);
    ModShift(rem, (m - i) * B32, B32);
  }
}
