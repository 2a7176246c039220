/**
  Subtraction of magnitudes (`bigint_sub_internal`) and signed addition on top of it.

  The borrow is produced by `num >>>= 16` on a negative number, which yields 65535
  and not -1. That is the right borrow for the next digit only: what the next digit
  passes on is too large by one. So the difference is exact precisely when no digit
  below the top two of the longer operand needs to borrow.
 */
module BigIntSubtraction {
  import opened Digits
  import opened JsNumbers
  import opened BigInts
  import opened BigIntText

  function Head(s: seq<int>): int {
    if s == [] then 0 else s[0]
  }

  function Tail(s: seq<int>): seq<int> {
    if s == [] then [] else s[1..]
  }

  /** The digits the loops store, with the borrow register `num` as the code keeps it. */
  function RawDifference(x: seq<int>, y: seq<int>, num: int): (z: seq<int>)
    ensures |z| == |x| && IsDigits(z)
  {
    if x == [] then []
    else
      var n := num + x[0] - Head(y);
      [Low16(n)] + RawDifference(x[1..], Tail(y), Ushr16(n))
  }

  /** No digit below the top two of `x` is smaller than its counterpart in `y`. */
  predicate NoDeepBorrow(x: seq<int>, y: seq<int>) {
    forall i :: 0 <= i < |y| && i < |x| - 2 ==> x[i] >= y[i]
  }

  lemma HeadTail(s: seq<int>)
    requires IsDigits(s)
    ensures Val(s) == Head(s) + BASE * Val(Tail(s))
    ensures IsDigits(Tail(s)) && 0 <= Head(s) < BASE && Val(Tail(s)) >= 0
  {
    ValBound(Tail(s));
  }

  /** One stored digit: `d` goes out, `c` is kept in the register. */
  lemma Step(x: seq<int>, y: seq<int>, num: int, d: int, c: int)
    requires x != [] && -BASE <= num + x[0] - Head(y) < BASE * BASE
    requires 0 <= d < BASE
    requires num + x[0] - Head(y) == if num + x[0] - Head(y) < 0 then d - BASE else d + BASE * c
    requires num + x[0] - Head(y) < 0 ==> c == 65535
    ensures RawDifference(x, y, num) == [d] + RawDifference(x[1..], Tail(y), c)
    ensures Val(RawDifference(x, y, num)) == d + BASE * Val(RawDifference(x[1..], Tail(y), c))
  {
    var n := num + x[0] - Head(y);
    var z := RawDifference(x, y, num);
    assert z == [Low16(n)] + RawDifference(x[1..], Tail(y), Ushr16(n));
    RegisterSplit(n, d, c);
    hide RawDifference, Low16, Ushr16;
    assert z[1..] == RawDifference(x[1..], Tail(y), c);
  }

  lemma RegisterSplit(n: int, d: int, c: int)
    requires -BASE <= n < BASE * BASE && 0 <= d < BASE
    requires n == if n < 0 then d - BASE else d + BASE * c
    requires n < 0 ==> c == 65535
    ensures Low16(n) == d && Ushr16(n) == c
  {
    if n >= 0 {
      SplitUnsigned(n);
    } else {
      assert ToUint32(n) == n + TWO32 == 65535 * TWO16 + d;
    }
  }

  /** The stored digits denote the difference exactly when no borrow starts below the top two digits. */
  lemma {:induction false} DifferenceExactIff(x: seq<int>, y: seq<int>)
    requires IsDigits(x) && IsDigits(y) && |y| <= |x| && Val(y) <= Val(x)
    ensures Val(RawDifference(x, y, 0)) == Val(x) - Val(y) <==> NoDeepBorrow(x, y)
  {
    if x != [] {
      if x[0] >= Head(y) {
        HeadTail(x);
        HeadTail(y);
        Step(x, y, 0, x[0] - Head(y), 0);
        NoDeepBorrowTail(x, y);
        DifferenceExactIff(x[1..], Tail(y));
      } else if |x| >= 3 {
        DeepBorrowWrong(x, y);
      } else {
        TopBorrowRight(x, y);
      }
    }
  }

  lemma NoDeepBorrowTail(x: seq<int>, y: seq<int>)
    requires x != [] && x[0] >= Head(y)
    ensures NoDeepBorrow(x, y) <==> NoDeepBorrow(x[1..], Tail(y))
  {
    if NoDeepBorrow(x[1..], Tail(y)) {
      forall i | 0 <= i < |y| && i < |x| - 2
        ensures x[i] >= y[i]
      {
        if i > 0 {
          assert x[1..][i - 1] >= Tail(y)[i - 1];
        }
      }
    }
    if NoDeepBorrow(x, y) {
      forall i | 0 <= i < |Tail(y)| && i < |x[1..]| - 2
        ensures x[1..][i] >= Tail(y)[i]
      {
        assert x[i + 1] >= y[i + 1];
      }
    }
  }

  /** A borrow into the top digit is right: there is no digit above it to be spoiled. */
  lemma TopBorrowRight(x: seq<int>, y: seq<int>)
    requires 0 < |x| <= 2 && IsDigits(x) && IsDigits(y) && |y| <= |x| && x[0] < Head(y) && Val(y) <= Val(x)
    ensures Val(RawDifference(x, y, 0)) == Val(x) - Val(y)
  {
    var x1, y1 := x[1..], Tail(y);
    HeadTail(x);
    HeadTail(y);
    HeadTail(x1);
    HeadTail(y1);
    assert |x| == 2 && Tail(x1) == [] && Tail(y1) == [];
    Step(x, y, 0, x[0] - Head(y) + BASE, 65535);
    Step(x1, y1, 65535, x1[0] - Head(y1) - 1, 1);
  }

  /** With a third digit above, the digit two places over the borrow comes out wrong by one. */
  lemma DeepBorrowWrong(x: seq<int>, y: seq<int>)
    requires |x| >= 3 && IsDigits(x) && IsDigits(y) && |y| <= |x| && x[0] < Head(y) && Val(y) <= Val(x)
    ensures Val(RawDifference(x, y, 0)) != Val(x) - Val(y)
    ensures !NoDeepBorrow(x, y)
  {
    var r := DeepBorrowGap(x, y);
    assert 0x1_0000_0000 + 0x1_0000_0000_0000 * r != 0;
  }

  lemma DeepBorrowGap(x: seq<int>, y: seq<int>) returns (r: int)
    requires |x| >= 3 && IsDigits(x) && IsDigits(y) && x[0] < Head(y)
    ensures Val(RawDifference(x, y, 0)) == Val(x) - Val(y) + 0x1_0000_0000 + 0x1_0000_0000_0000 * r
  {
    var x1, y1 := x[1..], Tail(y);
    var x2, y2 := x1[1..], Tail(y1);
    HeadTail(x);
    HeadTail(y);
    HeadTail(x1);
    HeadTail(y1);
    Step(x, y, 0, x[0] - Head(y) + BASE, 65535);
    var n := 65535 + x1[0] - Head(y1);
    var c := if n < BASE then 0 else 1;
    Step(x1, y1, 65535, n - BASE * c, c);
    r := ThirdDigit(x2, y2, c);
  }

  /** Modulo the base, the third digit is the register plus the difference of the operands' digits. */
  lemma ThirdDigit(x: seq<int>, y: seq<int>, c: int) returns (r: int)
    requires x != [] && IsDigits(x) && IsDigits(y) && 0 <= c <= 1
    ensures Val(RawDifference(x, y, c)) == c + Val(x) - Val(y) + BASE * r
  {
    HeadTail(x);
    HeadTail(y);
    var n := c + x[0] - Head(y);
    var d := if n < 0 then n + BASE else if n < BASE then n else n - BASE;
    var c' := if n < 0 then 65535 else if n < BASE then 0 else 1;
    Step(x, y, c, d, c');
    r := Val(RawDifference(x[1..], Tail(y), c')) - Val(x[1..]) + Val(Tail(y)) - (if n < 0 then -1 else c');
  }

  /** 65536^2 - 1 comes out as 2 * 65536^2 - 1. */
  lemma DeepBorrowExample()
    ensures Val(RawDifference([0, 0, 1], [1], 0)) == 2 * (BASE * BASE) - 1
    ensures Val([0, 0, 1]) - Val([1]) == BASE * BASE - 1
  {
    assert [0, 0, 1][1..] == [0, 1] && [0, 1][1..] == [1] && [1][1..] == [];
    ValSingle(1);
    Step([0, 0, 1], [1], 0, 65535, 65535);
    Step([0, 1], [], 65535, 65535, 0);
    Step([1], [], 0, 1, 0);
  }

  /** With no operand left and no borrow pending, the loops copy. */
  lemma {:induction false} DifferenceCopies(x: seq<int>)
    requires IsDigits(x)
    ensures RawDifference(x, [], 0) == x
  {
    if x != [] {
      DifferenceCopies(x[1..]);
      Low16Mod(x[0]);
      assert x == [x[0]] + x[1..];
    }
  }

  /**
    The store-and-shift step of the subtraction loops; the part still to be produced is `RawDifference` of the rest.
   */
  method EmitDifference(z: array<int>, i: nat, n: int, ghost x: seq<int>, ghost y: seq<int>, ghost num: int)
      returns (c: int)
    requires i < z.Length && x != [] && n == num + x[0] - Head(y)
    modifies z
    ensures z[..i + 1] + RawDifference(x[1..], Tail(y), c) == old(z[..i]) + RawDifference(x, y, num)
  {
    hide Low16, Ushr16;
    z[i] := Low16(n);
    c := Ushr16(n);
    assert RawDifference(x, y, num) == [Low16(n)] + RawDifference(x[1..], Tail(y), c);
    assert z[..i + 1] == old(z[..i]) + [Low16(n)];
  }

  /** First loop of `bigint_sub_internal`: both operands have digits. */
  method SubtractLow(x: array<int>, nx: nat, y: array<int>, ny: nat, z: array<int>) returns (num: int)
    requires ny <= nx <= x.Length && ny <= y.Length && z.Length == nx && z != x && z != y
    modifies z
    ensures z[..ny] + RawDifference(x[ny..nx], [], num) == RawDifference(x[..nx], y[..ny], 0)
  {
    ghost var xs, ys := x[..nx], y[..ny];
    var i := 0;
    num := 0;
    assert xs[i..] == xs && ys[i..] == ys;
    while i < ny
      invariant 0 <= i <= ny
      invariant z[..i] + RawDifference(xs[i..], ys[i..], num) == RawDifference(xs, ys, 0)
    {
      assert xs[i..][1..] == xs[i + 1..] && Tail(ys[i..]) == ys[i + 1..];
      num := EmitDifference(z, i, num + (x[i] - y[i]), xs[i..], ys[i..], num);
      i := i + 1;
    }
    assert xs[i..] == x[ny..nx] && ys[i..] == [];
  }

  /** The loops of `bigint_sub_internal`, the larger operand first. */
  method SubtractDigits(x: array<int>, nx: nat, y: array<int>, ny: nat, z: array<int>)
    requires ny <= nx <= x.Length && ny <= y.Length && z.Length == nx && z != x && z != y
    requires IsDigits(x[..]) && IsDigits(y[..])
    modifies z
    ensures z[..] == RawDifference(x[..nx], y[..ny], 0)
  {
    hide RawDifference;
    ghost var xs := x[..nx];
    var i := ny;
    var num := SubtractLow(x, nx, y, ny, z);
    ghost var goal := RawDifference(xs, y[..ny], 0);
    assert xs[i..] == x[ny..nx];
    while num != 0 && i < nx
      invariant ny <= i <= nx
      invariant z[..i] + RawDifference(xs[i..], [], num) == goal
      decreases nx - i
    {
      assert xs[i..][1..] == xs[i + 1..];
      num := EmitDifference(z, i, num + x[i], xs[i..], [], num);
      i := i + 1;
    }
    if i < nx {
      DifferenceCopies(xs[i..]);
      CopyRest(x, nx, z, i);
    }
  }

  /** Last loop: without a borrow the remaining digits are copied. */
  method CopyRest(x: array<int>, nx: nat, z: array<int>, start: nat)
    requires start <= nx <= x.Length && z.Length == nx && z != x
    modifies z
    ensures z[..] == old(z[..start]) + x[start..nx]
  {
    var i := start;
    while i < nx
      invariant start <= i <= nx && z[..i] == old(z[..start]) + x[start..i]
    {
      z[i] := x[i];
      i := i + 1;
    }
    assert z[..nx] == z[..];
  }

  /** The operands are exchanged: the first has fewer digits, or as many and is smaller. */
  ghost predicate Swapped(x: BigInt, y: BigInt)
    requires x.Valid() && y.Valid()
    reads x, x.digits, y, y.digits
  {
    x.len < y.len || (x.len == y.len && x.Mag() < y.Mag())
  }

  /** The comparison at the top of `bigint_sub_internal`. */
  method FirstIsSmaller(x: BigInt, y: BigInt) returns (swap: bool)
    requires x.Valid() && y.Valid()
    ensures swap == Swapped(x, y)
  {
    ghost var xs, ys := x.digits[..x.len], y.digits[..y.len];
    if x.len != y.len {
      return x.len < y.len;
    }
    var i := x.len;
    assert xs[..i] == xs && ys[..i] == ys;
    while i > 0
      invariant 0 <= i <= x.len
      invariant xs[i..] == ys[i..]
    {
      i := i - 1;
      if x.digits[i] != y.digits[i] {
        TopDifferenceDecides(xs, ys, i);
        return x.digits[i] < y.digits[i];
      }
      assert xs[i..] == [xs[i]] + xs[i + 1..] && ys[i..] == [ys[i]] + ys[i + 1..];
    }
    assert xs[0..] == xs && ys[0..] == ys;
    return false;
  }

  /** More digits mean a larger number, unless the longer one is the single digit 0. */
  lemma LongerIsLarger(s: seq<int>, t: seq<int>)
    requires IsDigits(s) && IsDigits(t) && (|t| > 1 ==> t[|t| - 1] != 0)
    ensures |s| < |t| ==> Val(s) <= Val(t)
    ensures |s| < |t| ==> Val(s) < Val(t) || (|t| <= 1 && Val(s) == Val(t))
  {
    ValBound(s);
    ValBound(t);
    if |s| < |t| && |t| > 1 {
      ValTop(t);
      PowPositive(BASE, |t| - 1);
      MulLe(1, t[|t| - 1], Pow(BASE, |t| - 1));
      PowMonotone(BASE, |s|, |t| - 1);
    }
  }

  lemma TopDifferenceDecides(s: seq<int>, t: seq<int>, i: nat)
    requires IsDigits(s) && IsDigits(t) && |s| == |t| && i < |s| && s[i + 1..] == t[i + 1..] && s[i] != t[i]
    ensures Val(s) < Val(t) <==> s[i] < t[i]
  {
    ValSplit(s, i + 1);
    ValSplit(t, i + 1);
    if s[i] < t[i] {
      SmallerTop(s[..i + 1], t[..i + 1]);
    } else {
      SmallerTop(t[..i + 1], s[..i + 1]);
    }
  }

  lemma SmallerTop(s: seq<int>, t: seq<int>)
    requires IsDigits(s) && IsDigits(t) && |s| == |t| > 0 && s[|s| - 1] < t[|t| - 1]
    ensures Val(s) < Val(t)
  {
    ValTop(s);
    ValTop(t);
    PowPositive(BASE, |s| - 1);
    MulLe(s[|s| - 1] + 1, t[|t| - 1], Pow(BASE, |s| - 1));
  }

  /** What `z == 0` says of a number object; its text decides. */
  ghost predicate LooksZero(x: BigInt)
    requires x.Valid()
    reads x, x.digits
  {
    x.Mag() == 0 && (x.sign || x.len <= 1)
  }

  /** The `z == 0` test on a number object: it is converted to text, and the text to a number. */
  method LooselyZero(x: BigInt) returns (b: bool)
    requires x.Valid()
    ensures b == LooksZero(x)
  {
    hide IsTextOf, Val;
    var s := ToStringBase(x, 10);
    ZeroText(s, x.sign, x.Mag(), x.len);
    b := EqualsZero(s);
  }

  /**
    When `bigint_sub_internal(x, y)` is exact: the operands are put in the right order, nothing borrows below the top
    two digits, and it is not a zero minus something else.
   */
  ghost predicate SubtractionExact(x: BigInt, y: BigInt)
    requires x.Valid() && y.Valid()
    reads x, x.digits, y, y.digits
  {
    if Swapped(x, y)
    then x.Mag() <= y.Mag() && NoDeepBorrow(y.digits[..y.len], x.digits[..x.len])
      && (x.Mag() == y.Mag() || !LooksZero(x))
    else y.Mag() <= x.Mag() && NoDeepBorrow(x.digits[..x.len], y.digits[..y.len])
  }

  /**
    `bigint_sub_internal`: |x| - |y|, exact if and only if `SubtractionExact`.
    The sign test compares the swapped-out operand with 0, so a zero operand loses the sign.
   */
  method SubInternal(x: BigInt, y: BigInt) returns (z: BigInt)
    requires x.Valid() && y.Valid()
    ensures fresh(z) && fresh(z.digits) && z.Valid() && z.Normal()
    ensures z.sign == (!Swapped(x, y) || LooksZero(x))
    ensures z.Mag() == if Swapped(x, y) then Val(RawDifference(y.digits[..y.len], x.digits[..x.len], 0))
                       else Val(RawDifference(x.digits[..x.len], y.digits[..y.len], 0))
    ensures z.Value() == x.Mag() - y.Mag() <==> SubtractionExact(x, y)
  {
    hide RawDifference, NoDeepBorrow, Val;
    var swap := FirstIsSmaller(x, y);
    var a, b := x, y;
    if swap {
      a, b := y, x;
    }
    var zero := LooselyZero(b);
    z := new BigInt(a.len, !swap || zero);
    SubtractDigits(a.digits, a.len, b.digits, b.len, z.digits);
    ghost var xs, ys := a.digits[..a.len], b.digits[..b.len];
    assert z.digits[..z.len] == z.digits[..];
    z.Norm();
    ExactOrNot(xs, ys, z.Mag());
    if a.Mag() == b.Mag() {
      EqualNeverBorrows(xs, ys);
    }
  }

  lemma ExactOrNot(x: seq<int>, y: seq<int>, r: int)
    requires IsDigits(x) && IsDigits(y) && |y| <= |x| && r == Val(RawDifference(x, y, 0))
    ensures 0 <= r && 0 <= Val(x) && 0 <= Val(y)
    ensures Val(y) <= Val(x) ==> (r == Val(x) - Val(y) <==> NoDeepBorrow(x, y))
  {
    hide RawDifference, NoDeepBorrow, Val;
    ValBound(RawDifference(x, y, 0));
    ValBound(x);
    ValBound(y);
    if Val(y) <= Val(x) {
      DifferenceExactIff(x, y);
    }
  }

  /** Equal numbers have equal digits, up to leading zeros. */
  lemma EqualNeverBorrows(x: seq<int>, y: seq<int>)
    requires IsDigits(x) && IsDigits(y) && |y| <= |x| && Val(x) == Val(y)
    ensures NoDeepBorrow(x, y)
  {
    hide Val, Pow;
    var n := |y|;
    ValSplit(x, n);
    ValBound(x[..n]);
    ValBound(x[n..]);
    ValBound(y);
    var h := Val(x[n..]);
    if h > 0 {
      MulLe(1, h, Pow(BASE, n));
    }
    ValInjective(x[..n], y);
  }

  /** 0 - 1 comes out as 1. */
  method ZeroMinusOne() returns (x: BigInt, y: BigInt, z: BigInt)
    ensures x.Valid() && y.Valid() && z.Valid()
    ensures x.Mag() == 0 && y.Mag() == 1 && z.Value() == 1
  {
    x := new BigInt(1, true);
    y := new BigInt(1, true);
    y.digits[0] := 1;
    assert x.digits[..1] == [0] && y.digits[..1] == [1];
    z := SubInternal(x, y);
    DifferenceExactIff([1], [0]);
  }
}
