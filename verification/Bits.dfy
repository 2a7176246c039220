/**
  Powers of two and bit reversal. Bit strings are integers read least significant bit first; a negative one ends in
  ones.
 */
module Bits {
  import Digits

  function Pow2(n: nat): (p: int)
    ensures p >= 1
  {
    Digits.PowPositive(2, n);
    Digits.Pow(2, n)
  }

  /** The low `n` bits of `x`, in reverse order. */
  function Rev(x: int, n: nat): (r: int)
    decreases n
  {
    if n == 0 then 0 else (if x % 2 == 1 then Pow2(n - 1) else 0) + Rev(x / 2, n - 1)
  }

  lemma {:induction false} Pow2Add(m: nat, n: nat)
    ensures Pow2(m + n) == Pow2(m) * Pow2(n)
  {
    if m > 0 {
      Pow2Add(m - 1, n);
      Assoc(Pow2(m - 1), Pow2(n));
    }
  }

  lemma Assoc(a: int, b: int)
    ensures 2 * (a * b) == (2 * a) * b
  {
  }

  lemma Pow2Monotone(m: nat, n: nat)
    requires m <= n
    ensures Pow2(m) <= Pow2(n)
    ensures m < n ==> 2 * Pow2(m) <= Pow2(n)
  {
    if m < n {
      Pow2Monotone(m, n - 1);
    }
  }

  lemma {:induction false} RevBound(x: int, n: nat)
    ensures 0 <= Rev(x, n) < Pow2(n)
    decreases n
  {
    if n > 0 {
      RevBound(x / 2, n - 1);
    }
  }

  lemma ProductGap(a: int, b: int, d: int)
    requires a < b && 0 < d
    ensures a * d + d <= b * d
  {
    Digits.MulLe(a + 1, b, d);
    Digits.MulAdd(d, a, 1);
  }

  lemma DivMod(x: int, d: int)
    requires 0 < d
    ensures x == (x / d) * d + x % d && 0 <= x % d < d
  {
  }

  /** Dropping `m + 1` bits is dropping one bit and then `m`. */
  lemma HalfThenDrop(x: int, m: nat)
    ensures (x / 2) / Pow2(m) == x / Pow2(m + 1)
    ensures x % Pow2(m + 1) == x % 2 + 2 * ((x / 2) % Pow2(m))
  {
    var p := Pow2(m);
    DivMod(x / 2, p);
    DivMod(x, 2);
    var q, r := (x / 2) / p, (x / 2) % p;
    assert x == q * (2 * p) + (2 * r + x % 2);
    Digits.QuotientUnique(x, 2 * p, q, 2 * r + x % 2);
  }

  /** Reversal of a longer string: the reversed first part is the more significant one. */
  lemma {:induction false} RevSplit(x: int, m: nat, n: nat)
    ensures Rev(x, m + n) == Rev(x, m) * Pow2(n) + Rev(x / Pow2(m), n)
    decreases m
  {
    if m > 0 {
      RevSplit(x / 2, m - 1, n);
      HalfThenDrop(x, m - 1);
      Pow2Add(m - 1, n);
      SplitStep(Pow2(m - 1), Pow2(n), Rev(x / 2, m - 1));
    }
  }

  lemma SplitStep(p: int, q: int, r: int)
    ensures p * q + r * q == (p + r) * q
  {
  }

  /** Only the low bits count. */
  lemma {:induction false} RevLow(x: int, y: int, n: nat)
    requires x % Pow2(n) == y % Pow2(n)
    ensures Rev(x, n) == Rev(y, n)
    decreases n
  {
    if n > 0 {
      HalfThenDrop(x, n - 1);
      HalfThenDrop(y, n - 1);
      RevLow(x / 2, y / 2, n - 1);
    }
  }

  /** Reversal loses nothing of the low bits. */
  lemma {:induction false} RevInjective(x: int, y: int, n: nat)
    requires Rev(x, n) == Rev(y, n)
    ensures x % Pow2(n) == y % Pow2(n)
    decreases n
  {
    if n > 0 {
      RevBound(x / 2, n - 1);
      RevBound(y / 2, n - 1);
      RevInjective(x / 2, y / 2, n - 1);
      HalfThenDrop(x, n - 1);
      HalfThenDrop(y, n - 1);
    }
  }
}
