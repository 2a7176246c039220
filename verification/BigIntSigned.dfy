/** Signed operations: `bigint_add_internal`, `bigint_plus`, `bigint_minus`, `bigint_uminus` and `bigint_cmp`. */
module BigIntSigned {
  import opened Digits
  import opened BigInts
  import opened BigIntSubtraction

  /**
    When x + y (or x - y, for `sign` false) comes out right: always with like signs, else as `SubtractionExact` says.
   */
  ghost predicate SumExact(x: BigInt, y: BigInt, sign: bool)
    requires x.Valid() && y.Valid()
    reads x, x.digits, y, y.digits
  {
    var s := sign == y.sign;
    if x.sign == s then true
    else if s then SubtractionExact(y, x)
    else SubtractionExact(x, y)
  }

  method AddInternal(x: BigInt, y: BigInt, sign: bool) returns (z: BigInt)
    requires x.Valid() && y.Valid()
    ensures fresh(z) && fresh(z.digits) && z.Valid() && z.Normal()
    ensures z.Value() == (if sign then x.Value() + y.Value() else x.Value() - y.Value()) <==> SumExact(x, y, sign)
  {
    hide SubtractionExact;
    var s := sign == y.sign;
    if x.sign != s {
      if s {
        z := SubInternal(y, x);
      } else {
        z := SubInternal(x, y);
      }
    } else {
      z := AddMagnitudes(x, y, s);
    }
  }

  method Plus(x: BigInt, y: BigInt) returns (z: BigInt)
    requires x.Valid() && y.Valid()
    ensures fresh(z) && fresh(z.digits) && z.Valid() && z.Normal()
    ensures z.Value() == x.Value() + y.Value() <==> SumExact(x, y, true)
  {
    z := AddInternal(x, y, true);
  }

  method Minus(x: BigInt, y: BigInt) returns (z: BigInt)
    requires x.Valid() && y.Valid()
    ensures fresh(z) && fresh(z.digits) && z.Valid() && z.Normal()
    ensures z.Value() == x.Value() - y.Value() <==> SumExact(x, y, false)
  {
    z := AddInternal(x, y, false);
  }

  method Uminus(x: BigInt) returns (z: BigInt)
    requires x.Valid()
    ensures fresh(z) && fresh(z.digits) && z.Valid() && z.Normal()
    ensures z.Value() == -x.Value() && z.sign == !x.sign
  {
    z := x.Clone();
    z.sign := !z.sign;
    assert z.digits[..z.len] == x.digits[..x.len];
    z.Norm();
  }

  /**
    `bigint_cmp` gets the order wrong: zeros of different signs, and operands of one sign of which the one with more
    digits is not the larger.
   */
  ghost predicate Misjudged(x: BigInt, y: BigInt)
    requires x.Valid() && y.Valid()
    reads x, x.digits, y, y.digits
  {
    if x.sign != y.sign then x.Mag() == 0 && y.Mag() == 0
    else (x.len < y.len && x.Mag() >= y.Mag()) || (y.len < x.len && y.Mag() >= x.Mag())
  }

  /** Without leading zeros this happens only to zeros, with different signs or in different shapes. */
  lemma OnlyZerosMisjudged(x: BigInt, y: BigInt)
    requires x.Valid() && y.Valid() && x.Proper() && y.Proper()
    ensures Misjudged(x, y) <==> x.Mag() == 0 && y.Mag() == 0 && (x.sign != y.sign || x.len != y.len)
  {
    ghost var xs, ys := x.digits[..x.len], y.digits[..y.len];
    ValBound(xs);
    ValBound(ys);
    LongerIsLarger(xs, ys);
    LongerIsLarger(ys, xs);
    if x.len < y.len && x.Mag() >= y.Mag() {
      assert x.len == 0 && xs == [];
    } else if y.len < x.len && y.Mag() >= x.Mag() {
      assert y.len == 0 && ys == [];
    }
  }

  function Order(a: int, b: int): int {
    if a < b then -1 else if a == b then 0 else 1
  }

  /** The digit loop of `bigint_cmp`: one more than the highest position where the digits differ, or 0. */
  method HighestDifference(x: array<int>, y: array<int>, n: nat) returns (k: nat)
    requires n <= x.Length && n <= y.Length && IsDigits(x[..]) && IsDigits(y[..])
    ensures k <= n && (k == 0 ==> Val(x[..n]) == Val(y[..n]))
    ensures k > 0 ==> x[k - 1] != y[k - 1] && (Val(x[..n]) < Val(y[..n]) <==> x[k - 1] < y[k - 1])
    ensures k > 0 ==> (Val(y[..n]) < Val(x[..n]) <==> y[k - 1] < x[k - 1])
  {
    ghost var xs, ys := x[..n], y[..n];
    hide Val;
    k := n;
    while k > 0 && x[k - 1] == y[k - 1]
      invariant 0 <= k <= n && xs[k..] == ys[k..]
    {
      k := k - 1;
      assert xs[k..] == [xs[k]] + xs[k + 1..] && ys[k..] == [ys[k]] + ys[k + 1..];
    }
    if k == 0 {
      assert xs == xs[0..] == ys[0..] == ys;
    } else {
      TopDifferenceDecides(xs, ys, k - 1);
      TopDifferenceDecides(ys, xs, k - 1);
    }
  }

  /** `bigint_cmp` orders by value, unless it misjudges the operands. */
  method Cmp(x: BigInt, y: BigInt) returns (c: int)
    requires x.Valid() && y.Valid()
    ensures -1 <= c <= 1 && (c == Order(x.Value(), y.Value()) <==> !Misjudged(x, y))
  {
    ghost var xs, ys := x.digits[..x.len], y.digits[..y.len];
    ValBound(xs);
    ValBound(ys);
    hide Val;
    if x == y {
      return 0;
    }
    if x.sign != y.sign {
      return if x.sign then 1 else -1;
    }
    if x.len < y.len {
      return if x.sign then -1 else 1;
    }
    if x.len > y.len {
      return if x.sign then 1 else -1;
    }
    var k := HighestDifference(x.digits, y.digits, x.len);
    if k == 0 {
      return 0;
    }
    return if x.digits[k - 1] > y.digits[k - 1] then (if x.sign then 1 else -1) else (if x.sign then -1 else 1);
  }

  /** A positive and a negative zero are told apart. */
  method ZerosDiffer() returns (x: BigInt, y: BigInt, c: int)
    ensures x.Valid() && y.Valid() && x.Value() == 0 == y.Value() && c != 0
  {
    x := new BigInt(1, true);
    y := new BigInt(1, false);
    assert x.digits[..1] == [0] && y.digits[..1] == [0];
    ValSingle(0);
    assert x.Value() == 0 && y.Value() == 0;
    assert Misjudged(x, y);
    c := Cmp(x, y);
  }
}
