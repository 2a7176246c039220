/** `bigint_divmod` as a whole: early return, short division, long division, quotient and remainder. */
module BigIntDivMod {
  import opened Digits
  import opened JsNumbers
  import opened BigInts
  import opened BigIntSubtraction
  import opened BigIntSigned
  import opened TrialDigits
  import opened BigIntDivision

  /** What a call evaluates to: a number, `null`, or `undefined` (a constructor called without `new`). */
  datatype Outcome = Number(z: BigInt) | Null | Undefined | Endless

  // ---- Arithmetic of scaling and un-scaling ----

  /** Quotient and remainder of the scaled operands give those of the operands. */
  lemma Unscale(d: int, x: int, y: int, q: int, r: int)
    requires 0 < d && 0 < y && d * x == r + (d * y) * q && 0 <= r < d * y
    ensures x / y == q && r == d * (x % y)
  {
    var m := x - y * q;
    assert d * m == d * x - d * (y * q);
    MulAssoc(d, y, q);
    if m < 0 {
      MulLe(m, -1, d);
    }
    if m >= y {
      MulLe(y, m, d);
    }
    QuotientUnique(x, y, q, m);
  }

  /** Dividing a multiple of `d` by `d` leaves no remainder. */
  lemma ExactMultiple(d: int, m: int, q: int, t: int)
    requires 0 < d && d * m == d * q + t && 0 <= t < d
    ensures t == 0 && q == m
  {
    MulAdd(d, m, -q);
    if m > q {
      MulLe(1, m - q, d);
    }
    if m < q {
      MulLe(m - q, -1, d);
    }
  }

  // ---- Preparing the operands ----

  /**
    The `while (!yds[ny - 1]) ny--` loop. For a zero divisor it does not stop in front of the array; that is told by
    0.
   */
  method TopDigit(y: array<int>, n: nat) returns (ny: nat)
    requires n <= y.Length && IsDigits(y[..])
    ensures ny <= n && Val(y[..ny]) == Val(y[..n]) && (ny > 0 ==> y[ny - 1] != 0 && Val(y[..n]) > 0)
    ensures ny == 0 <==> Val(y[..n]) == 0
  {
    hide Val;
    ny := n;
    ValEmpty();
    assert y[..0] == [];
    while ny > 0 && y[ny - 1] == 0
      invariant 0 <= ny <= n && Val(y[..ny]) == Val(y[..n])
    {
      ValDropZero(y[..], ny - 1);
      assert y[..][..ny] == y[..ny] && y[..][..ny - 1] == y[..ny - 1];
      ny := ny - 1;
    }
    if ny > 0 {
      AtLeastTopPower(y[..ny]);
    }
  }

  /** Scaling the divisor loses no carry and puts its top digit into the upper half. */
  lemma ScaledDivisor(y: seq<int>, t: seq<int>, d: int, carry: int)
    requires y != [] && IsDigits(y) && IsDigits(t) && |t| == |y| && y[|y| - 1] > 0
    requires d == ScaleFactor(y[|y| - 1]) && 0 <= carry && Val(t + [carry]) == d * Val(y)
    ensures carry == 0 && Val(t) == d * Val(y) && Scaled(t)
  {
    hide Val, Pow, Scaled, ScaleFactor;
    var n, v, p := |y|, y[|y| - 1], Pow(BASE, |y| - 1);
    ScaleFactorNormalizes(v);
    ValTop(y);
    ValTop(t);
    ValBound(t);
    ValOversized(t, carry);
    PowStep(BASE, n - 1);
    PowPositive(BASE, n - 1);
    ScaledTop(p, v, d, Val(y));
    TopOfScaled(p, Val(t), t[n - 1], carry, d * Val(y));
    ScaledIntro(t);
  }

  lemma ScaledIntro(y: seq<int>)
    requires y != [] && IsDigits(y) && y[|y| - 1] >= 0x8000
    ensures Scaled(y)
  {
  }

  lemma TopOfScaled(p: int, low: int, top: int, carry: int, total: int)
    requires 0 < p && p * top <= low < p * (top + 1) && low < 0x1_0000 * p && 0 <= low && 0 <= carry
    requires low + (0x1_0000 * p) * carry == total && 0x8000 * p <= total < 0x1_0000 * p
    ensures carry == 0 && top >= 0x8000
  {
    if carry >= 1 {
      MulLe(1, carry, 0x1_0000 * p);
    }
    if top + 1 <= 0x8000 {
      MulLe(top + 1, 0x8000, p);
    }
  }

  lemma ScaledTop(p: int, v: int, d: int, y: int)
    requires 0 < p && 0 < d && 0 < v && p * v <= y < p * (v + 1)
    requires v * d >= 0x8000 && (v + 1) * d <= 0x1_0000
    ensures 0x8000 * p <= d * y < 0x1_0000 * p
  {
    MulLe(p * v, y, d);
    MulLe(y + 1, p * (v + 1), d);
    MulAssoc(d, v, p);
    MulAssoc(d, v + 1, p);
    MulLe(0x8000, v * d, p);
    MulLe((v + 1) * d, 0x1_0000, p);
  }

  /** The first window is below the base times the divisor: either its top digit is 0, or the dividend is short. */
  lemma FirstWindow(z: seq<int>, nx: nat, top: nat, ys: seq<int>, d: int, x: int, y: int)
    requires Scaled(ys) && |ys| <= nx <= top < |z| && IsDigits(z) && top <= nx + 1
    requires top == nx + 1 ==> nx == |ys| && z[top] == 0
    requires 0 < d && 0 <= x < Pow(BASE, nx) && Val(ys) == d * y && Pow(BASE, |ys| - 1) <= y
    requires Val(z[..nx + 1]) == d * x
    ensures InWindow(z[top - |ys|..top + 1], ys)
  {
    var ny := |ys|;
    var w := z[top - ny..top + 1];
    PowPositive(BASE, ny - 1);
    PowStep(BASE, ny - 1);
    if top == nx + 1 {
      ValDropZero(w, ny);
      ValBound(w[..ny]);
      assert w[..ny + 1] == w;
      ValTop(ys);
      hide Val, Pow;
      MulLe(1, ys[ny - 1], Pow(BASE, ny - 1));
    } else {
      var k := nx - ny;
      var s := z[..nx + 1];
      ValSplit(s, k);
      ValBound(s[..k]);
      assert s[k..] == w;
      PowAdd(BASE, k, ny);
      PowPositive(BASE, k);
      hide Val, Pow;
      WindowBelow(Pow(BASE, k), Pow(BASE, ny), d, x, Val(w), y, Pow(BASE, ny - 1));
    }
  }

  lemma WindowBelow(pk: int, pn: int, d: int, x: int, w: int, y: int, p1: int)
    requires 0 < pk && 0 < d && x < pk * pn && pk * w <= d * x && pn == 0x1_0000 * p1 && p1 <= y
    ensures w < 0x1_0000 * (d * y)
  {
    MulLe(x + 1, pk * pn, d);
    MulAdd(d, x, 1);
    MulAssoc(d, pk, pn);
    assert d * (pk * pn) == pk * (d * pn);
    if w >= d * pn {
      MulLe(d * pn, w, pk);
    }
    MulLe(p1, y, d);
    assert d * (0x1_0000 * p1) == 0x1_0000 * (d * p1);
  }

  /** Normalization of the divisor: the scale factor, and the scaled digits (the divisor's own when the factor is 1). */
  method PrepareDivisor(y: BigInt, ny: nat) returns (d: int, t: array<int>)
    requires y.Valid() && 0 < ny <= y.len && y.digits[ny - 1] != 0
    ensures t == y.digits || fresh(t)
    ensures 0 < d <= 0x8000 && d == ScaleFactor(y.digits[ny - 1])
    ensures ny <= t.Length && IsDigits(t[..]) && Scaled(t[..ny])
    ensures Val(t[..ny]) == d * Val(y.digits[..ny])
  {
    hide Val, Pow, Scaled;
    ghost var ys := y.digits[..ny];
    ScaleFactorNormalizes(y.digits[ny - 1]);
    d := Low16(65536 / (y.digits[ny - 1] + 1));
    Low16Mod(ScaleFactor(y.digits[ny - 1]));
    if d != 1 {
      var yy := y.Clone();
      t := yy.digits;
      var num := ScaleDigits(y.digits, ny, d, t);
      assert t[0..ny] == t[..ny];
      ScaledDivisor(ys, t[..ny], d, num);
    } else {
      t := y.digits;
      ScaledIntro(ys);
    }
  }

  /** The dividend times the scale factor, one digit longer. */
  method PrepareDividend(x: array<int>, nx: nat, d: int, z: array<int>)
    requires nx <= x.Length && nx < z.Length && x != z && 0 < d <= 0x8000 && IsDigits(x[..]) && IsDigits(z[..])
    modifies z
    ensures IsDigits(z[..]) && Val(z[..nx + 1]) == d * Val(x[..nx])
    ensures forall m :: nx < m < z.Length ==> z[m] == old(z[m])
  {
    hide Val;
    if d != 1 {
      var num := ScaleDigits(x, nx, d, z);
      z[nx] := Low16(num);
      Low16Mod(num);
      assert z[..nx + 1] == z[0..nx] + [num];
    } else {
      CopyDigits(x, nx, z);
      ValSnoc(x[..nx], 0);
    }
  }

  /** The copy loop for scale factor 1, with a zero digit on top. */
  method CopyDigits(x: array<int>, nx: nat, z: array<int>)
    requires nx <= x.Length && nx < z.Length && x != z && IsDigits(x[..]) && IsDigits(z[..])
    modifies z
    ensures IsDigits(z[..]) && z[..nx + 1] == x[..nx] + [0]
    ensures forall m :: nx < m < z.Length ==> z[m] == old(z[m])
  {
    z[nx] := 0;
    var j := nx;
    while j > 0
      invariant 0 <= j <= nx && IsDigits(z[..]) && z[nx] == 0
      invariant forall m :: j <= m < nx ==> z[m] == x[m]
      invariant forall m :: nx < m < z.Length ==> z[m] == old(z[m])
    {
      j := j - 1;
      z[j] := x[j];
    }
  }

  /** The divisor without its leading zeros has `ny` digits. */
  ghost predicate HasTop(y: BigInt, ny: nat)
    requires y.Valid()
    reads y, y.digits
  {
    0 < ny <= y.len && y.digits[ny - 1] != 0 && Val(y.digits[..ny]) == y.Mag() > 0
  }

  /**
    Long division up to the end of the digit loop: the low ny digits hold the scaled remainder,
    the digits above them the quotient.
   */
  method LongDivide(x: BigInt, y: BigInt, ny: nat) returns (z: BigInt, d: int)
    requires x.Valid() && y.Valid() && 2 <= y.len <= x.len && HasTop(y, ny)
    ensures fresh(z) && fresh(z.digits) && z.Valid() && z.sign == (x.sign == y.sign)
    ensures z.len == z.digits.Length == (if x.len == y.len then x.len + 2 else x.len + 1)
    ensures ny < x.len == y.len ==> z.digits[x.len + 1] == 0
    ensures 0 < d < BASE && Val(z.digits[..ny]) == d * (x.Mag() % y.Mag())
    ensures Val(z.digits[ny..]) == x.Mag() / y.Mag()
  {
    hide Val, Pow, Scaled, InWindow, ScaleFactor;
    var nx := x.len;
    z := new BigInt(if nx == y.len then nx + 2 else nx + 1, x.sign == y.sign);
    var yds;
    d, yds := PrepareDivisor(y, ny);
    PrepareDividend(x.digits, nx, d, z.digits);
    var top := if nx == ny then nx + 1 else nx;
    Setup(z.digits[..], nx, top, yds[..ny], d, x.digits[..nx], y.digits[..ny]);
    DivideLoop(z.digits, top, yds, ny);
    Unscale(d, x.Mag(), y.Mag(), Val(z.digits[ny..]), Val(z.digits[..ny]));
  }

  /** The loop's entry conditions follow from how the operands were prepared. */
  lemma Setup(z: seq<int>, nx: nat, top: nat, ys: seq<int>, d: int, x: seq<int>, y: seq<int>)
    requires Scaled(ys) && 0 < |ys| == |y| <= nx <= top < |z| && IsDigits(z) && IsDigits(x) && IsDigits(y) && nx == |x|
    requires top <= nx + 1 && (top == nx + 1 ==> nx == |ys|) && y[|y| - 1] != 0
    requires forall m :: nx < m < |z| ==> z[m] == 0
    requires 0 < d && Val(ys) == d * Val(y) && Val(z[..nx + 1]) == d * Val(x)
    ensures InWindow(z[top - |ys|..top + 1], ys) && Val(z) == d * Val(x) && 0 < Val(y)
  {
    hide Val, Pow, InWindow, Scaled;
    ValBound(x);
    AtLeastTopPower(y);
    FirstWindow(z, nx, top, ys, d, Val(x), Val(y));
    HighZeros(z, nx + 1);
  }

  lemma HighZeros(z: seq<int>, n: nat)
    requires n <= |z| && forall m :: n <= m < |z| ==> z[m] == 0
    ensures Val(z) == Val(z[..n])
  {
    hide Val, Pow;
    ValSplit(z, n);
    ValZero(z[n..]);
  }

  // ---- The results ----

  /** The loop that moves the quotient digits down over the remainder. */
  method ShiftDown(a: array<int>, ny: nat, j: nat)
    requires ny + j <= a.Length && IsDigits(a[..])
    modifies a
    ensures IsDigits(a[..]) && a[..j] == old(a[ny..ny + j])
  {
    ghost var zs := a[..];
    var i := 0;
    while i < j
      invariant 0 <= i <= j && IsDigits(a[..])
      invariant forall m :: 0 <= m < i ==> a[m] == zs[m + ny]
      invariant forall m :: i <= m < |zs| ==> a[m] == zs[m]
    {
      a[i] := a[i + ny];
      i := i + 1;
    }
  }

  /** The quotient part of `bigint_divmod`: the digits above the remainder are moved down. */
  method LongQuotient(x: BigInt, y: BigInt, ny: nat) returns (div: BigInt)
    requires x.Valid() && y.Valid() && 2 <= y.len <= x.len && HasTop(y, ny)
    ensures fresh(div) && fresh(div.digits) && div.Valid() && div.Normal()
    ensures div.sign == (x.sign == y.sign) && div.Mag() == x.Mag() / y.Mag()
  {
    hide Val;
    var z, d := LongDivide(x, y, ny);
    div := z.Clone();
    var j := (if x.len == ny then x.len + 2 else x.len + 1) - ny;
    ghost var zs := z.digits[..];
    assert div.digits[..] == zs;
    ShiftDown(div.digits, ny, j);
    div.len := j;
    TopZeroOrNone(zs, ny, j);
    assert div.digits[..j] == zs[ny..ny + j];
    div.Norm();
  }

  lemma TopZeroOrNone(z: seq<int>, ny: nat, j: nat)
    requires ny + j == |z| || (ny + j + 1 == |z| && z[ny + j] == 0)
    ensures Val(z[ny..ny + j]) == Val(z[ny..])
  {
    if ny + j < |z| {
      ValDropZero(z[ny..], j);
      assert z[ny..][..j + 1] == z[ny..] && z[ny..][..j] == z[ny..ny + j];
    } else {
      assert z[ny..ny + j] == z[ny..];
    }
  }

  /** The remainder of long division, un-scaled, with the sign of the dividend; leading zeros are still there. */
  method LongRemainder(x: BigInt, y: BigInt, ny: nat) returns (mod: BigInt)
    requires x.Valid() && y.Valid() && 2 <= y.len <= x.len && HasTop(y, ny)
    ensures fresh(mod) && fresh(mod.digits) && mod.Valid() && 0 < mod.len <= y.len
    ensures mod.sign == x.sign && mod.Mag() == x.Mag() % y.Mag()
  {
    hide Val;
    var z, d := LongDivide(x, y, ny);
    mod := z.Clone();
    assert mod.digits[..ny] == z.digits[..ny];
    var t2 := ShortDivide(mod.digits, ny, d);
    ExactMultiple(d, x.Mag() % y.Mag(), Val(mod.digits[..ny]), t2);
    mod.len := ny;
    mod.sign := x.sign;
  }

  /** `bigint_from_int`: the sign of its argument is computed but not used. */
  method FromInt(n: int) returns (big: BigInt)
    ensures fresh(big) && fresh(big.digits) && big.Valid() && big.Proper()
    ensures big.sign && big.Mag() == (if n < 0 then -n else n) % 0x8000_0000
  {
    var m := (if n < 0 then -n else n) % 0x8000_0000;
    if m <= 0xffff {
      big := new BigInt(1, true);
      big.digits[0] := m;
      assert big.digits[..1] == [m];
      ValSingle(m);
    } else {
      big := new BigInt(2, true);
      big.digits[0] := m % 65536;
      big.digits[1] := m / 65536 % 65536;
      assert big.digits[..2] == [m % 65536, m / 65536];
      assert [m % 65536, m / 65536][1..] == [m / 65536];
      ValSingle(m / 65536);
    }
  }

  /** Division by a one-digit divisor. A zero digit divides every digit to 0 and leaves no number as remainder. */
  method ShortCase(x: BigInt, d: int) returns (z: BigInt, t2: int)
    requires x.Valid() && 0 <= d < BASE
    ensures fresh(z) && fresh(z.digits) && z.Valid() && z.sign == x.sign && z.len == x.len
    ensures d != 0 ==> z.Mag() == x.Mag() / d && t2 == x.Mag() % d
    ensures d == 0 ==> z.Mag() == 0 && t2 == 0
  {
    hide Val;
    z := x.Clone();
    assert z.digits[..z.len] == z.digits[..] == x.digits[..x.len];
    if d != 0 {
      t2 := ShortDivide(z.digits, z.len, d);
      QuotientUnique(x.Mag(), d, z.Mag(), t2);
    } else {
      t2 := 0;
      var i := z.len;
      while i > 0
        invariant 0 <= i <= z.len && z.Valid() && z.len == x.len && z.sign == x.sign
        invariant fresh(z) && fresh(z.digits)
        invariant forall m :: i <= m < z.len ==> z.digits[m] == 0
      {
        i := i - 1;
        z.digits[i] := 0;
      }
      ValZero(z.digits[..z.len]);
    }
  }

  // ---- bigint_divmod ----

  /** The call does not return: the search for the top digit of a zero divisor never ends. */
  ghost predicate Hangs(x: BigInt, y: BigInt)
    requires x.Valid() && y.Valid()
    reads x, x.digits, y, y.digits
  {
    y.Mag() == 0 && y.len != 1 && !IsNull(y) && !Early(x, y)
  }

  /** A zero without digits over a stored 0 is the only divisor found to be zero. */
  ghost predicate IsNull(y: BigInt)
    requires y.Valid()
    reads y, y.digits
  {
    y.len == 0 && y.digits.Length > 0 && y.digits[0] == 0
  }

  /** The guard of the early return: fewer digits, or as many with a smaller top digit. */
  ghost predicate Early(x: BigInt, y: BigInt)
    requires x.Valid() && y.Valid()
    reads x, x.digits, y, y.digits
  {
    x.len < y.len || (x.len == y.len > 0 && x.digits[x.len - 1] < y.digits[y.len - 1])
  }

  /** For a divisor without leading zeros, the early return is taken only when the dividend is smaller. */
  lemma EarlyIsSmaller(x: seq<int>, y: seq<int>)
    requires IsDigits(x) && IsDigits(y) && y != [] && y[|y| - 1] != 0
    requires |x| < |y| || (|x| == |y| && x[|x| - 1] < y[|y| - 1])
    ensures Val(x) < Val(y)
  {
    if |x| < |y| {
      ValBound(x);
      ValTop(y);
      PowMonotone(BASE, |x|, |y| - 1);
      MulLe(1, y[|y| - 1], Pow(BASE, |y| - 1));
    } else {
      SmallerTop(x, y);
    }
  }

  /** The remainder the code aims at: the sign of the dividend, moved over by one divisor when the signs differ. */
  function SignedRemainder(x: int, y: int, xSign: bool, ySign: bool): int
    requires y != 0
  {
    (if xSign then x % y else -(x % y)) + (if xSign == ySign then 0 else if ySign then y else -y)
  }

  /** Modulo with the sign of the divisor, as `q * b + m == a` with `m` between 0 and `b`. */
  ghost predicate IsModulo(a: int, b: int, m: int) {
    (exists q: int :: q * b + m == a) && (0 <= m < b || b < m <= 0)
  }

  /** The code's remainder is the divisor-signed modulo unless the signs differ and the division is exact. */
  lemma SignedRemainderIff(x: int, y: int, xSign: bool, ySign: bool)
    requires 0 <= x && 0 < y
    ensures IsModulo(if xSign then x else -x, if ySign then y else -y, SignedRemainder(x, y, xSign, ySign))
       <==> xSign == ySign || x % y != 0
  {
    var a, b, m := if xSign then x else -x, if ySign then y else -y, SignedRemainder(x, y, xSign, ySign);
    var q := x / y;
    assert x == y * q + x % y;
    if xSign == ySign {
      assert q * b + m == a;
    } else {
      MulAdd(b, -q, -1);
      assert (-q - 1) * b + m == a;
    }
  }

  /** Base-65536 digit `i` of a number. */
  function DigitOf(v: int, i: nat): (d: int)
    requires v >= 0
  {
    PowPositive(BASE, i);
    v / Pow(BASE, i) % BASE
  }

  lemma DigitInPlace(low: int, p: int, d: int, high: int)
    requires 0 <= low < p && 0 <= d < BASE
    ensures (low + p * (d + BASE * high)) / p % BASE == d
  {
    DivisionIs(low, p, d + BASE * high);
  }

  lemma DivisionIs(low: int, p: int, q: int)
    requires 0 <= low < p
    ensures (low + p * q) / p == q
  {
    QuotientUnique(low + p * q, p, q, low);
  }

  /** The digits of an array are the digits of the number it denotes, and zero beyond. */
  lemma DigitsOfVal(m: seq<int>, i: nat)
    requires IsDigits(m)
    ensures Val(m) >= 0 && DigitOf(Val(m), i) == if i < |m| then m[i] else 0
  {
    hide Val;
    ValBound(m);
    if i < |m| {
      ValSplit(m, i);
      ValTail(m, i);
      ValBound(m[..i]);
      DigitInPlace(Val(m[..i]), Pow(BASE, i), m[i], Val(m[i + 1..]));
    } else {
      PowMonotone(BASE, |m|, i);
      DivisionIs(Val(m), Pow(BASE, i), 0);
    }
  }

  /**
    When adding the divisor to a remainder `v` of the other sign is exact: no digit of the divisor below its top two is
    smaller than the remainder's, and the remainder is not a positive zero.
   */
  ghost predicate MixedExact(v: int, y: seq<int>, xSign: bool)
    requires v >= 0
  {
    (forall i :: 0 <= i < |y| - 2 ==> y[i] >= DigitOf(v, i)) && (xSign ==> v != 0)
  }

  lemma MixedIsDeep(m: seq<int>, y: seq<int>, xSign: bool)
    requires IsDigits(m) && IsDigits(y)
    ensures Val(m) >= 0
    ensures MixedExact(Val(m), y, xSign) <==> NoDeepBorrow(y, m) && (xSign ==> Val(m) != 0)
  {
    hide Val, DigitOf;
    DigitsOfVal(m, 0);
    forall i | 0 <= i < |y| - 2
      ensures y[i] >= DigitOf(Val(m), i) <==> i >= |m| || y[i] >= m[i]
    {
      DigitsOfVal(m, i);
    }
  }

  /** `bigint_divmod` for a one-digit divisor. The remainder loses its sign in `bigint_from_int`. */
  method ShortDivMod(x: BigInt, y: BigInt, modulo: bool) returns (z: BigInt)
    requires x.Valid() && y.Valid() && y.len == 1
    ensures fresh(z) && z.Valid() && z.Proper()
    ensures !modulo && y.Mag() > 0 ==> z.Mag() == x.Mag() / y.Mag() && z.sign == (x.sign == y.sign)
    ensures modulo && y.Mag() > 0 ==>
      var s := SignedRemainder(x.Mag(), y.Mag(), x.sign, y.sign);
      z.Value() == if s < 0 then -s else s
    ensures y.Mag() == 0 ==> z.Mag() == 0
  {
    hide Val;
    ValSingle(y.digits[0]);
    assert y.digits[..1] == [y.digits[0]];
    var t2;
    z, t2 := ShortCase(x, y.digits[0]);
    if modulo {
      z := SignRemainder(t2, y.digits[0], x.sign, y.sign, x.Mag());
    } else {
      z.sign := x.sign == y.sign;
      z.Norm();
    }
  }

  /** The sign adjustments of the short remainder, on plain numbers. */
  method SignRemainder(t: int, d: int, xSign: bool, ySign: bool, ghost x: int) returns (z: BigInt)
    requires 0 <= d < BASE && (d == 0 ==> t == 0) && (d != 0 ==> t == x % d)
    ensures fresh(z) && fresh(z.digits) && z.Valid() && z.Proper()
    ensures d != 0 ==>
      var s := SignedRemainder(x, d, xSign, ySign);
      z.Value() == if s < 0 then -s else s
    ensures d == 0 ==> z.Mag() == 0
  {
    hide Val;
    var t2 := t;
    if !xSign {
      t2 := -t2;
    }
    if xSign != ySign {
      t2 := t2 + (if ySign then d else -d);
    }
    z := FromInt(t2);
  }

  /** `bigint_divmod` for a longer divisor. */
  method LongDivMod(x: BigInt, y: BigInt, ny: nat, modulo: bool) returns (z: BigInt)
    requires x.Valid() && y.Valid() && 2 <= y.len <= x.len && HasTop(y, ny)
    ensures fresh(z) && z.Valid() && z.Normal()
    ensures !modulo ==> z.Mag() == x.Mag() / y.Mag() && z.sign == (x.sign == y.sign)
    ensures modulo && x.sign == y.sign ==> z.Value() == SignedRemainder(x.Mag(), y.Mag(), x.sign, y.sign)
    ensures modulo && x.sign != y.sign ==>
      var exact := MixedExact(x.Mag() % y.Mag(), y.digits[..y.len], x.sign);
      exact <==> z.Value() == SignedRemainder(x.Mag(), y.Mag(), x.sign, y.sign)
  {
    hide Val, NoDeepBorrow, MixedExact;
    if modulo {
      var mod := LongRemainder(x, y, ny);
      if x.sign != y.sign {
        ghost var m := mod.digits[..mod.len];
        z := AddInternal(mod, y, true);
        assert IsDigits(m) && Val(m) == x.Mag() % y.Mag() && |m| <= y.len;
        MixedIsDeep(m, y.digits[..y.len], x.sign);
      } else {
        mod.Norm();
        z := mod;
      }
    } else {
      z := LongQuotient(x, y, ny);
    }
  }

  /**
    `bigint_divmod`. The quotient is truncated toward zero and is exact for all operands that
    pass the early return; the remainder is exact for all operands of like sign, early return
    included, except that a one-digit divisor drops the sign of a negative remainder. With unlike
    signs and a longer divisor the remainder is exact if and only if `MixedExact`.
   */
  method DivMod(x: BigInt, y: BigInt, modulo: bool) returns (r: Outcome)
    requires x.Valid() && y.Valid()
    modifies x`len
    ensures x.Valid() && x.Value() == old(x.Value())
    ensures r.Null? <==> old(IsNull(y))
    ensures r.Undefined? <==> !modulo && old(Early(x, y))
    ensures r.Endless? <==> old(Hangs(x, y))
    ensures r.Number? ==> r.z.Valid() && r.z.Proper()
    ensures r.Number? && !old(Early(x, y)) && old(y.Mag()) == 0 ==> r.z.Mag() == 0
    ensures r.Number? && !modulo && old(y.Mag()) > 0 ==>
      r.z.Mag() == old(x.Mag() / y.Mag()) && r.z.sign == old(x.sign == y.sign)
    ensures r.Number? && modulo && old(Early(x, y)) ==> r.z == x
    ensures r.Number? && modulo && old(y.Mag() > 0 && x.sign && y.sign && (y.Normal() || !Early(x, y))) ==>
      r.z.Value() == old(x.Mag() % y.Mag())
    ensures r.Number? && modulo && old(y.Mag() > 0 && !Early(x, y) && x.sign == y.sign && y.len >= 2) ==>
      r.z.Value() == old(SignedRemainder(x.Mag(), y.Mag(), x.sign, y.sign))
    ensures r.Number? && modulo && old(y.Mag() > 0 && !Early(x, y) && x.sign != y.sign && y.len >= 2) ==>
      var exact := old(MixedExact(x.Mag() % y.Mag(), y.digits[..y.len], x.sign));
      exact <==> r.z.Value() == old(SignedRemainder(x.Mag(), y.Mag(), x.sign, y.sign))
    ensures r.Number? && modulo && old(y.Mag() > 0 && !Early(x, y) && y.len == 1) ==>
      var s := old(SignedRemainder(x.Mag(), y.Mag(), x.sign, y.sign));
      r.z.Value() == if s < 0 then -s else s
  {
    hide Val, MixedExact;
    if y.len == 0 && y.digits.Length > 0 && y.digits[0] == 0 {
      return Null;
    }
    if x.len < y.len || (x.len == y.len && x.len > 0 && x.digits[x.len - 1] < y.digits[y.len - 1]) {
      if modulo {
        if y.digits[y.len - 1] != 0 {
          EarlyIsSmaller(x.digits[..x.len], y.digits[..y.len]);
        }
        ValBound(x.digits[..x.len]);
        x.Norm();
        return Number(x);
      }
      return Undefined;
    }
    if y.len == 1 {
      var z := ShortDivMod(x, y, modulo);
      return Number(z);
    }
    var ny := TopDigit(y.digits, y.len);
    if ny == 0 {
      return Endless;
    }
    var z := LongDivMod(x, y, ny, modulo);
    return Number(z);
  }

  /** -(2^32 + 1) modulo 2^32: the remainder is 1, and 2^32 - 1 is not what comes out. And 2^32 modulo -2^32 neither. */
  lemma MixedExample()
    ensures Val([1, 0, 1]) % Val([0, 0, 1]) == 1 && !MixedExact(1, [0, 0, 1], false)
    ensures Val([0, 0, 1]) % Val([0, 0, 1]) == 0 && !MixedExact(0, [0, 0, 1], true)
  {
    assert [0, 0, 1][1..] == [0, 1] && [0, 1][1..] == [1] && [1][1..] == [] && [1, 0, 1][1..] == [0, 1];
    assert DigitOf(1, 0) == 1 > [0, 0, 1][0];
  }
}
