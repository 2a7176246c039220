/** Schoolbook multiplication (`bigint_mul`). */
module BigIntMultiplication {
  import opened Digits
  import opened BigInts

  /** No intermediate of a row exceeds 32 unsigned bits, and the bound is reached. */
  lemma RowIntermediate(n: int, d: int, y: int, z: int)
    requires 0 <= n < BASE && 0 <= d < BASE && 0 <= y < BASE && 0 <= z < BASE
    ensures 0 <= n + d * y && 0 <= z + (n + d * y) <= 0xffff_ffff
    ensures n == d == y == z == 0xffff ==> z + (n + d * y) == 0xffff_ffff
  {
    MulLe(0, y, d);
    MulLe(y, 0xffff, d);
    MulLe(d, 0xffff, 0xffff);
  }

  /** The body of the inner loop; `zs` and `ys` stand for what the digits above still contribute. */
  method RowStep(d: int, digit: int, z: array<int>, lo: nat, k: nat, n: int, ghost zs: int, ghost ys: int)
      returns (carry: int)
    requires 0 <= d < BASE && 0 <= digit < BASE && 0 <= n < BASE && lo <= k < z.Length && IsDigits(z[..])
    modifies z
    ensures IsDigits(z[..]) && 0 <= carry < BASE
    ensures forall m :: 0 <= m < z.Length && m != k ==> z[m] == old(z[m])
    ensures Val(z[lo..k + 1] + [carry + (zs + d * ys)])
         == old(Val(z[lo..k] + [n + (z[k] + BASE * zs + d * (digit + BASE * ys))]))
  {
    hide Val;
    RowIntermediate(n, d, digit, z[k]);
    MulAdd(d, digit, BASE * ys);
    MulAssoc(BASE, d, ys);
    var ee := n + d * digit;
    carry := Emit(z, lo, k, z[k] + ee, ee != 0, zs + d * ys);
  }

  /**
    One row: `d * y` is added at position `i`. The position just above the row has not been
    written yet, so storing the last carry there without adding is right.
   */
  method AddRow(d: int, y: array<int>, ny: nat, z: array<int>, i: nat)
    requires 0 < d < BASE && ny <= y.Length && i + ny < z.Length && z != y
    requires IsDigits(y[..]) && IsDigits(z[..]) && z[i + ny] == 0
    modifies z
    ensures IsDigits(z[..])
    ensures forall m :: 0 <= m < z.Length && !(i <= m <= i + ny) ==> z[m] == old(z[m])
    ensures Val(z[i..i + ny + 1]) == old(Val(z[i..i + ny])) + d * Val(y[..ny])
  {
    hide Val;
    ghost var ys, zs := y[..ny], z[i..i + ny];
    ghost var total := Val(zs) + d * Val(ys);
    var n, j := 0, 0;
    assert ys[0..] == ys && zs[0..] == zs && z[i..i] + [total] == [total];
    ValSingle(total);
    while j < ny
      invariant 0 <= j <= ny && 0 <= n < BASE && IsDigits(z[..])
      invariant forall m :: 0 <= m < z.Length && !(i <= m < i + j) ==> z[m] == old(z[m])
      invariant Val(z[i..i + j] + [n + (Val(zs[j..]) + d * Val(ys[j..]))]) == total
    {
      ValTail(ys, j);
      ValTail(zs, j);
      n := RowStep(d, y[j], z, i, i + j, n, Val(zs[j + 1..]), Val(ys[j + 1..]));
      j := j + 1;
    }
    assert ys[j..] == [] && zs[j..] == [];
    ValEmpty();
    if n != 0 {
      z[i + j] := n;
    }
    assert z[i..i + ny + 1] == z[i..i + ny] + [n];
  }

  /** What one row does to the product: `amount` is added at weight BASE^i. */
  lemma RowEffect(s: seq<int>, t: seq<int>, i: nat, ny: nat, amount: int)
    requires i + ny < |s| == |t| && s[..i] == t[..i] && s[i + ny + 1..] == t[i + ny + 1..] && s[i + ny] == 0
    requires Val(t[i..i + ny + 1]) == Val(s[i..i + ny]) + amount
    ensures Val(t) == Val(s) + Pow(BASE, i) * amount
  {
    ValDropZero(s[i..], ny);
    assert s[i..][..ny + 1] == s[i..i + ny + 1] && s[i..][..ny] == s[i..i + ny];
    WindowChange(s, t, i, i + ny + 1, amount);
  }

  /** The row loop of `bigint_mul` on the digit arrays. */
  method MultiplyDigits(x: array<int>, nx: nat, y: array<int>, ny: nat, z: array<int>)
    requires nx <= x.Length && ny <= y.Length && z.Length == nx + ny + 1 && z != x && z != y
    requires IsDigits(x[..]) && IsDigits(y[..])
    requires forall k :: 0 <= k < z.Length ==> z[k] == 0
    modifies z
    ensures IsDigits(z[..]) && Val(z[..]) == Val(x[..nx]) * Val(y[..ny])
  {
    hide Val;
    ghost var xs, ys := x[..nx], y[..ny];
    var i := 0;
    ValZero(z[..]);
    ValEmpty();
    assert xs[..0] == [];
    while i < nx
      invariant 0 <= i <= nx && IsDigits(z[..])
      invariant forall k :: i + ny <= k < z.Length ==> z[k] == 0
      invariant Val(z[..]) == Val(xs[..i]) * Val(ys)
    {
      ghost var before := z[..];
      assert xs[..i + 1] == xs[..i] + [xs[i]];
      ValSnoc(xs[..i], xs[i]);
      ProductStep(Val(xs[..i]), Pow(BASE, i), xs[i], Val(ys));
      if x[i] != 0 {
        AddRow(x[i], y, ny, z, i);
        assert z[..i] == before[..i] && z[i + ny + 1..] == before[i + ny + 1..];
        RowEffect(before, z[..], i, ny, xs[i] * Val(ys));
      }
      i := i + 1;
    }
    assert xs[..nx] == xs;
  }

  lemma ProductStep(low: int, p: int, d: int, y: int)
    ensures (low + p * d) * y == low * y + p * (d * y)
  {
    MulAdd(y, low, p * d);
    MulAssoc(p, d, y);
  }

  /** `bigint_mul`: the product, exact for every pair of operands, signs included. */
  method Mul(x: BigInt, y: BigInt) returns (z: BigInt)
    requires x.Valid() && y.Valid()
    ensures fresh(z) && fresh(z.digits) && z.Valid() && z.Normal()
    ensures z.Value() == x.Value() * y.Value() && z.sign == (x.sign == y.sign)
  {
    z := new BigInt(x.len + y.len + 1, x.sign == y.sign);
    MultiplyDigits(x.digits, x.len, y.digits, y.len, z.digits);
    assert z.digits[..z.len] == z.digits[..];
    z.Norm();
    SignedProduct(x.Mag(), y.Mag());
  }

  lemma SignedProduct(a: int, b: int)
    ensures a * b == (-a) * (-b)
    ensures -(a * b) == (-a) * b == a * (-b)
  {
  }
}
