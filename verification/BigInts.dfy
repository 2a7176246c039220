/**
  Arbitrary-size integers as manager/js/BigInt.js keeps them: a sign, a digit
  array in base 65536 (least significant first), and the number of digits in use.
 */
module BigInts {
  import opened Digits
  import opened JsNumbers

  class BigInt {
    var sign: bool
    var len: nat
    var digits: array<int>

    ghost predicate Valid()
      reads this, digits
    {
      len <= digits.Length && IsDigits(digits[..])
    }

    /** No leading zero digit. Zero has no digits at all. */
    ghost predicate Normal()
      requires Valid()
      reads this, digits
    {
      len == 0 || digits[len - 1] != 0
    }

    /** What every operation hands out or takes: normal, or the single digit 0 that small integers are made of. */
    ghost predicate Proper()
      requires Valid()
      reads this, digits
    {
      len <= 1 || digits[len - 1] != 0
    }

    ghost function Mag(): int
      requires Valid()
      reads this, digits
    {
      Val(digits[..len])
    }

    ghost function Value(): int
      requires Valid()
      reads this, digits
    {
      if sign then Mag() else -Mag()
    }

    /** `new BigInt(len, sign)`: all digits zero. */
    constructor (n: nat, s: bool)
      ensures Valid() && fresh(digits)
      ensures sign == s && len == n && digits.Length == n
      ensures forall k :: 0 <= k < n ==> digits[k] == 0
    {
      sign, len, digits := s, n, new int[n];
      new;
      for i := 0 to n
        invariant sign == s && len == n && fresh(digits) && digits.Length == n
        invariant forall k :: 0 <= k < i ==> digits[k] == 0
      {
        digits[i] := 0;
      }
    }

    method Clone() returns (x: BigInt)
      requires Valid()
      ensures fresh(x) && fresh(x.digits) && x.Valid()
      ensures x.sign == sign && x.len == len == x.digits.Length
      ensures x.digits[..] == digits[..len]
    {
      x := new BigInt(len, sign);
      for i := 0 to len
        invariant x.Valid() && x.sign == sign && x.len == len == x.digits.Length
        invariant fresh(x) && fresh(x.digits)
        invariant x.digits[..i] == digits[..i]
      {
        x.digits[i] := digits[i];
        assert x.digits[..i + 1] == x.digits[..i] + [digits[i]] == digits[..i + 1];
      }
    }

    /** `bigint_norm`: leading zero digits are dropped in place; the digit array itself stays. */
    method Norm()
      requires Valid()
      modifies this`len
      ensures Valid() && Normal() && len <= old(len)
      ensures Mag() == old(Mag())
    {
      var n := len;
      while n > 0 && digits[n - 1] == 0
        invariant 0 <= n <= len == old(len) && digits == old(digits)
        invariant Val(digits[..n]) == Val(digits[..len])
      {
        ValDropZero(digits[..], n - 1);
        assert digits[..][..n] == digits[..n] && digits[..][..n - 1] == digits[..n - 1];
        n := n - 1;
      }
      len := n;
      assert digits[..] == old(digits[..]);
    }
  }

  /**
    The store-and-shift step of the upward loops, `a[i] = num & 0xffff; num >>>= 16`.
    The digits finished since `lo` and an oversized top digit always denote the same integer:
    the part of `num` above sixteen bits moves one place up, where `rest` is still to come.
    The store may be left out when it would change nothing.
   */
  method Emit(a: array<int>, ghost lo: nat, i: nat, num: int, write: bool, ghost rest: int) returns (carry: int)
    requires lo <= i < a.Length && 0 <= num < TWO32 && IsDigits(a[..])
    requires write || num == a[i]
    modifies a
    ensures IsDigits(a[..]) && a[..] == old(a[..])[i := num - BASE * carry]
    ensures 0 <= carry < BASE && BASE * carry <= num < BASE * carry + BASE
    ensures Val(a[lo..i + 1] + [carry + rest]) == old(Val(a[lo..i] + [num + BASE * rest]))
  {
    SplitUnsigned(num);
    Advance(a[lo..i], num + BASE * rest, Low16(num), Ushr16(num) + rest);
    hide Val;
    if write {
      a[i] := Low16(num);
    }
    carry := Ushr16(num);
    assert a[lo..i + 1] == old(a[lo..i]) + [Low16(num)];
  }

  /** First loop of `bigint_add_internal`: both operands still have digits. The carry is at most one. */
  method AddLow(x: array<int>, nx: nat, y: array<int>, ny: nat, z: array<int>) returns (num: int)
    requires nx <= x.Length && ny <= y.Length && nx <= ny < z.Length
    requires IsDigits(x[..]) && IsDigits(y[..]) && IsDigits(z[..])
    requires z != x && z != y
    modifies z
    ensures IsDigits(z[..]) && 0 <= num <= 1
    ensures Val(z[0..nx] + [num + Val(y[nx..ny])]) == Val(x[..nx]) + Val(y[..ny])
  {
    hide Val;
    ghost var xs, ys := x[..nx], y[..ny];
    ghost var total := Val(xs) + Val(ys);
    var i := 0;
    num := 0;
    ValSingle(total);
    assert xs[i..] == xs && ys[i..] == ys && z[0..i] + [total] == [total];
    while i < nx
      invariant 0 <= i <= nx && 0 <= num <= 1
      invariant IsDigits(z[..])
      invariant Val(z[0..i] + [num + Val(xs[i..]) + Val(ys[i..])]) == total
    {
      ValTail(xs, i);
      ValTail(ys, i);
      num := num + (x[i] + y[i]);
      num := Emit(z, 0, i, num, true, Val(xs[i + 1..]) + Val(ys[i + 1..]));
      i := i + 1;
    }
    assert xs[i..] == [] && ys[i..] == y[nx..ny];
    ValEmpty();
  }

  /** Second loop of `bigint_add_internal`: the carry runs into the longer operand. */
  method AddCarry(y: array<int>, start: nat, ny: nat, z: array<int>, carry: int) returns (i: nat, num: int)
    requires start <= ny <= y.Length && ny < z.Length && z != y
    requires IsDigits(y[..]) && IsDigits(z[..]) && 0 <= carry <= 1
    modifies z
    ensures start <= i <= ny && 0 <= num <= 1 && (num == 0 || i == ny)
    ensures IsDigits(z[..])
    ensures Val(z[0..i] + [num + Val(y[i..ny])]) == old(Val(z[0..start] + [carry + Val(y[start..ny])]))
  {
    hide Val;
    ghost var ys := y[..ny];
    i, num := start, carry;
    assert ys[i..] == y[start..ny];
    while num != 0 && i < ny
      invariant start <= i <= ny && 0 <= num <= 1
      invariant IsDigits(z[..])
      invariant Val(z[0..i] + [num + Val(ys[i..])]) == old(Val(z[0..start] + [carry + Val(y[start..ny])]))
    {
      ValTail(ys, i);
      num := num + y[i];
      num := Emit(z, 0, i, num, true, Val(ys[i + 1..]));
      i := i + 1;
    }
    assert ys[i..] == y[i..ny];
  }

  /** Last loop of `bigint_add_internal`: the digits above the carry are copied, then the carry is stored. */
  method CopyHigh(y: array<int>, start: nat, ny: nat, z: array<int>, num: int)
    requires start <= ny <= y.Length && z.Length == ny + 1 && z != y
    requires IsDigits(y[..]) && IsDigits(z[..]) && 0 <= num <= 1 && (num == 0 || start == ny)
    modifies z
    ensures IsDigits(z[..])
    ensures Val(z[..]) == old(Val(z[0..start] + [num + Val(y[start..ny])]))
  {
    ghost var zs := z[..start];
    var i := start;
    while i < ny
      invariant start <= i <= ny && IsDigits(z[..])
      invariant z[..i] == zs + y[start..i]
    {
      z[i] := y[i];
      assert z[..i + 1] == zs + y[start..i] + [y[i]] == zs + y[start..i + 1];
      i := i + 1;
    }
    z[i] := Low16(num);
    assert z[..] == zs + y[start..ny] + [num];
    ValStack(zs, y[start..ny], num);
  }

  /** A top carry above copied digits: one of the two is missing. */
  lemma ValStack(low: seq<int>, high: seq<int>, num: int)
    requires num == 0 || high == []
    ensures Val(low + high + [num]) == Val(low + [num + Val(high)])
  {
    if high == [] {
      assert low + high == low;
    } else {
      ValSnoc(low + high, 0);
      ValAppend(low, high);
      ValSnoc(low, Val(high));
    }
  }

  /** The three loops of `bigint_add_internal` in sequence, the longer operand second. */
  method AddDigits(x: array<int>, nx: nat, y: array<int>, ny: nat, z: array<int>)
    requires nx <= x.Length && ny <= y.Length && nx <= ny && z.Length == ny + 1
    requires IsDigits(x[..]) && IsDigits(y[..]) && IsDigits(z[..])
    requires z != x && z != y
    modifies z
    ensures IsDigits(z[..]) && Val(z[..]) == Val(x[..nx]) + Val(y[..ny])
  {
    var num := AddLow(x, nx, y, ny, z);
    var i;
    i, num := AddCarry(y, nx, ny, z, num);
    CopyHigh(y, i, ny, z, num);
  }

  /** `bigint_add_internal` once the signs agree. */
  method AddMagnitudes(x: BigInt, y: BigInt, sign: bool) returns (z: BigInt)
    requires x.Valid() && y.Valid()
    ensures fresh(z) && fresh(z.digits) && z.Valid() && z.Normal()
    ensures z.sign == sign && z.Mag() == x.Mag() + y.Mag()
  {
    var a, b := x, y;
    if a.len > b.len {
      a, b := b, a;
    }
    z := new BigInt(b.len + 1, sign);
    AddDigits(a.digits, a.len, b.digits, b.len, z.digits);
    assert z.digits[..z.len] == z.digits[..];
    z.Norm();
  }
}
