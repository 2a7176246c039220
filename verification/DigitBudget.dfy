/** The digit budget of the printer: how many digits a number of a given length can have. */
module DigitBudget {
  import opened Digits

  lemma {:induction false} PowPow(b: nat, m: nat, n: nat)
    ensures Pow(b, m * n) == Pow(Pow(b, m), n)
  {
    if n > 0 {
      PowPow(b, m, n - 1);
      MulAdd(m, n, -1);
      PowAdd(b, m, m * (n - 1));
    }
  }

  lemma {:induction false} PowMul(a: nat, b: nat, e: nat)
    ensures Pow(a * b, e) == Pow(a, e) * Pow(b, e)
  {
    if e > 0 {
      PowMul(a, b, e - 1);
      Exchange(a, b, Pow(a, e - 1), Pow(b, e - 1));
    }
  }

  lemma Exchange(a: int, b: int, c: int, d: int)
    ensures (a * b) * (c * d) == (a * c) * (b * d)
  {
  }

  lemma {:induction false} PowBaseMonotone(x: nat, y: nat, e: nat)
    requires x <= y
    ensures Pow(x, e) <= Pow(y, e)
    ensures x < y && e > 0 ==> Pow(x, e) < Pow(y, e)
  {
    if e > 0 {
      PowBaseMonotone(x, y, e - 1);
      if y > 0 {
        PowPositive(y, e - 1);
      }
      MonotoneStep(x, y, Pow(x, e - 1), Pow(y, e - 1));
    }
  }

  lemma MonotoneStep(x: nat, y: nat, p: nat, q: nat)
    requires x <= y && p <= q && (y > 0 ==> q > 0)
    ensures x * p <= y * q && (x < y ==> x * p < y * q)
  {
    MulLe(p, q, x);
    MulLe(x, y, q);
    if x < y {
      MulLe(x + 1, y, q);
    }
  }

  /** If 2^p <= base^q, then base^a < 2^n leaves a below q*n/p. */
  lemma LogRatio(base: nat, p: nat, q: nat, a: nat, n: nat)
    requires 0 < base && 0 < p && Pow(2, p) <= Pow(base, q) && Pow(base, a) < Pow(2, n)
    ensures p * a < q * n
  {
    hide Pow;
    if p * a >= q * n {
      PowPow(2, p, n);
      PowPow(base, q, n);
      PowBaseMonotone(Pow(2, p), Pow(base, q), n);
      PowMonotone(base, q * n, p * a);
      SwapExponents(2, n, p);
      SwapExponents(base, a, p);
      PowBaseMonotone(Pow(base, a), Pow(2, n), p);
    }
  }

  lemma SwapExponents(b: nat, m: nat, n: nat)
    ensures Pow(Pow(b, m), n) == Pow(b, n * m)
  {
    hide Pow;
    PowPow(b, m, n);
    assert m * n == n * m;
  }

  lemma PowSquare(b: nat, e: nat, v: nat)
    requires Pow(b, e) == v
    ensures Pow(b, 2 * e) == v * v
  {
    hide Pow;
    PowAdd(b, e, e);
  }

  /** 2^800 < 10^241, the inequality behind the constants 800 and 241. */
  lemma PowersOfTwoAndTen()
    ensures Pow(2, 800) < Pow(10, 241)
  {
    hide Pow;
    TwoTo100();
    PowBaseMonotone(Pow(2, 100), 127 * Pow(10, 28), 8);
    PowPow(2, 100, 8);
    PowMul(127, Pow(10, 28), 8);
    PowPow(10, 28, 8);
    PowAdd(10, 17, 224);
    Power127();
    PowPositive(10, 224);
    StrictMul(Pow(127, 8), Pow(10, 17), Pow(10, 224));
  }

  lemma StrictMul(x: int, z: int, y: int)
    requires x < z && 0 < y
    ensures x * y < z * y
  {
  }

  lemma TwoTo100()
    ensures Pow(2, 100) <= 127 * Pow(10, 28)
  {
    assert Pow(2, 2) == 4 && Pow(2, 3) == 8;
    PowAdd(2, 2, 3);
    PowSquare(2, 5, 32);
    PowSquare(2, 10, 1024);
    PowAdd(2, 20, 5);
    PowSquare(2, 25, 33554432);
    PowSquare(2, 50, 33554432 * 33554432);
    TenTo(7);
    PowSquare(10, 7, 1_0000000);
    PowSquare(10, 14, 1_0000000_0000000);
  }

  lemma TenTo(n: nat)
    requires n == 7
    ensures Pow(10, n) == 1_0000000
  {
    assert Pow(10, 2) == 100 && Pow(10, 3) == 1000;
    PowSquare(10, 2, 100);
    PowAdd(10, 4, 3);
  }

  lemma Power127()
    ensures Pow(127, 8) < Pow(10, 17)
  {
    assert Pow(127, 2) == 16129;
    PowSquare(127, 2, 16129);
    PowSquare(127, 4, 260144641);
    TenTo(7);
    PowSquare(10, 7, 1_0000000);
    assert Pow(10, 3) == 1000;
    PowAdd(10, 14, 3);
  }

  /** The budget `j` that `toStringBase` computes for a number of `len` digits. */
  function Budget(base: int, len: nat): int {
    if base == 16 then 2 * 8 * len / 4 + 2
    else if base == 8 || base == 2 then 2 * 8 * len + 2
    else 2 * 8 * len * 241 / 800 + 2
  }

  /** A number of `len` digits has room for `a` more digits than that only within the budget. */
  lemma BudgetSuffices(base: nat, len: nat, a: nat)
    requires base in {2, 8, 10, 16} && Pow(base, a) < Pow(BASE, len)
    ensures a < Budget(base, len)
  {
    hide Pow;
    SmallPowers();
    PowPow(2, 16, len);
    if base == 10 {
      PowersOfTwoAndTen();
      LogRatio(10, 800, 241, a, 16 * len);
    } else {
      var p := if base == 16 then 4 else if base == 8 then 3 else 1;
      LogRatio(base, p, 1, a, 16 * len);
    }
  }

  lemma SmallPowers()
    ensures Pow(2, 16) == BASE && Pow(2, 4) == Pow(16, 1) && Pow(2, 3) == Pow(8, 1) && Pow(2, 1) == 2
    ensures Pow(2, 3) == 8 && Pow(10, 4) == 10000 && Pow(16, 4) == 65536 && Pow(8, 4) == 4096 && Pow(2, 4) == 16
  {
    assert Pow(2, 1) == 2 && Pow(2, 2) == 4 && Pow(2, 3) == 8 && Pow(8, 1) == 8 && Pow(16, 1) == 16;
    PowSquare(2, 2, 4);
    PowSquare(2, 4, 16);
    PowSquare(2, 8, 256);
    assert Pow(10, 2) == 100 && Pow(16, 2) == 256 && Pow(8, 2) == 64;
    PowSquare(10, 2, 100);
    PowSquare(16, 2, 256);
    PowSquare(8, 2, 64);
  }
}
