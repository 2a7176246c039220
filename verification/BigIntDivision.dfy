/** Short and long division (`bigint_divmod`). */
module BigIntDivision {
  import opened Digits
  import opened JsNumbers
  import opened TrialDigits

  // ---- Division by a single digit, also used to un-scale the remainder ----

  /** One step down: the running remainder takes in digit `i`, which becomes a quotient digit. */
  method ShortStep(z: array<int>, i: nat, n: nat, d: int, t0: int) returns (t2: int)
    requires i < n <= z.Length && 0 < d < BASE && IsDigits(z[..]) && 0 <= t0 < d
    modifies z
    ensures IsDigits(z[..]) && 0 <= t2 < d
    ensures forall m :: 0 <= m < z.Length && m != i ==> z[m] == old(z[m])
    ensures d * Val(z[i..n]) + t2 == old(z[i] + BASE * (d * Val(z[i + 1..n]) + t0))
  {
    hide Val;
    ghost var tail := z[i + 1..n];
    var t := t0 * 65536 + z[i];
    var q := t / d;
    QuotientDigit(t0, z[i], d);
    z[i] := Low16(q);
    t2 := t % d;
    assert z[i..n] == [q] + tail;
    ValCons(q, tail);
    MulAdd(d, q, BASE * Val(tail));
    MulAssoc(BASE, d, Val(tail));
  }

  /**
    Division of the digits `z[..n]` by `d`, in place, from the top; returns the remainder.
    The quotient digits come out of `(t2 / d) & 0xffff`, where the mask never cuts anything off.
   */
  method ShortDivide(z: array<int>, n: nat, d: int) returns (t2: int)
    requires n <= z.Length && 0 < d < BASE && IsDigits(z[..])
    modifies z
    ensures IsDigits(z[..])
    ensures forall m :: n <= m < z.Length ==> z[m] == old(z[m])
    ensures 0 <= t2 < d && old(Val(z[..n])) == d * Val(z[..n]) + t2
  {
    hide Val;
    ghost var zs := z[..n];
    var i := n;
    t2 := 0;
    assert zs[n..] == [] && z[n..n] == [];
    ValEmpty();
    while i > 0
      invariant 0 <= i <= n && IsDigits(z[..]) && 0 <= t2 < d
      invariant forall m :: n <= m < z.Length ==> z[m] == old(z[m])
      invariant forall m :: 0 <= m < i ==> z[m] == zs[m]
      invariant Val(zs[i..]) == d * Val(z[i..n]) + t2
    {
      i := i - 1;
      ValTail(zs, i);
      t2 := ShortStep(z, i, n, d, t2);
    }
    assert zs[0..] == zs && z[0..n] == z[..n];
  }

  lemma ValCons(d: int, s: seq<int>)
    ensures Val([d] + s) == d + BASE * Val(s)
  {
    assert ([d] + s)[1..] == s;
  }

  /** Two digits whose upper one is below the divisor divide to a single digit. */
  lemma QuotientDigit(hi: int, lo: int, d: int)
    requires 0 <= hi < d && 0 <= lo < BASE
    ensures 0 <= (hi * 65536 + lo) / d < BASE
    ensures hi * 65536 + lo == d * ((hi * 65536 + lo) / d) + (hi * 65536 + lo) % d
    ensures Low16((hi * 65536 + lo) / d) == (hi * 65536 + lo) / d
  {
    var t := hi * 65536 + lo;
    var q := t / d;
    assert t == d * q + t % d;
    if q >= 65536 {
      MulLe(65536, q, d);
    }
    if q < 0 {
      MulLe(q, -1, d);
    }
    Low16Mod(q);
  }

  // ---- Scaling both operands ----

  /** The products of the scaling loops stay below 2^31, and the carry stays below the factor. */
  lemma ScaleProduct(digit: int, d: int, num: int)
    requires 0 <= digit < BASE && 0 <= num < d <= 0x8000
    ensures digit * d == d * digit
    ensures 0 <= num + digit * d < 0x1_0000 * d <= 0x8000_0000
  {
    MulLe(digit, 0xffff, d);
    MulLe(0, digit, d);
  }

  method ScaleStep(digit: int, d: int, dst: array<int>, j: nat, num0: int, ghost rest: int) returns (num: int)
    requires j < dst.Length && 0 <= digit < BASE && 0 <= num0 < d <= 0x8000 && IsDigits(dst[..])
    modifies dst
    ensures IsDigits(dst[..]) && 0 <= num < d
    ensures forall m :: 0 <= m < dst.Length && m != j ==> dst[m] == old(dst[m])
    ensures Val(dst[0..j + 1] + [num + d * rest]) == old(Val(dst[0..j] + [num0 + d * (digit + BASE * rest)]))
  {
    hide Val;
    ScaledRest(digit, d, rest);
    ScaleProduct(digit, d, num0);
    num := num0 + digit * d;
    ghost var sum := num;
    num := EmitSigned(dst, 0, j, num, true, d * rest);
    CarryBelow(sum, num, d);
  }

  lemma ScaledRest(digit: int, d: int, rest: int)
    ensures d * (digit + BASE * rest) == digit * d + BASE * (d * rest)
  {
    MulAdd(d, digit, BASE * rest);
    MulAssoc(BASE, d, rest);
  }

  lemma CarryBelow(sum: int, carry: int, d: int)
    requires 0 <= sum < 0x1_0000 * d && 0x1_0000 * carry <= sum < 0x1_0000 * carry + 0x1_0000
    ensures 0 <= carry < d
  {
  }

  /**
    `dst[..n] := src[..n] * d` with carries by the signed shift `num >>= 16`; returns the last carry.
    The products stay below 2^31, so the signed shift is exact.
   */
  method ScaleDigits(src: array<int>, n: nat, d: int, dst: array<int>) returns (num: int)
    requires n <= src.Length && n <= dst.Length && src != dst && 0 < d <= 0x8000
    requires IsDigits(src[..]) && IsDigits(dst[..])
    modifies dst
    ensures IsDigits(dst[..]) && 0 <= num < d
    ensures forall m :: n <= m < dst.Length ==> dst[m] == old(dst[m])
    ensures Val(dst[0..n] + [num]) == d * Val(src[..n])
  {
    hide Val;
    ghost var xs := src[..n];
    var j := 0;
    num := 0;
    assert xs[0..] == xs && dst[0..0] + [d * Val(xs)] == [d * Val(xs)];
    ValSingle(d * Val(xs));
    while j < n
      invariant 0 <= j <= n && 0 <= num < d && IsDigits(dst[..])
      invariant forall m :: n <= m < dst.Length ==> dst[m] == old(dst[m])
      invariant Val(dst[0..j] + [num + d * Val(xs[j..])]) == d * Val(xs)
    {
      ValTail(xs, j);
      num := ScaleStep(src[j], d, dst, j, num, Val(xs[j + 1..]));
      j := j + 1;
    }
    assert xs[j..] == [];
    ValEmpty();
  }

  /** The signed variant of the store-and-shift step, `a[i] = num & 0xffff; num >>= 16`. */
  method EmitSigned(a: array<int>, ghost lo: nat, i: nat, num: int, write: bool, ghost rest: int) returns (carry: int)
    requires lo <= i < a.Length && -TWO31 <= num < TWO31 && IsDigits(a[..])
    requires write || num == a[i]
    modifies a
    ensures IsDigits(a[..]) && a[..] == old(a[..])[i := num - BASE * carry]
    ensures BASE * carry <= num < BASE * carry + BASE
    ensures Val(a[lo..i + 1] + [carry + rest]) == old(Val(a[lo..i] + [num + BASE * rest]))
  {
    SplitSigned(num);
    Advance(a[lo..i], num + BASE * rest, Low16(num), Sshr16(num) + rest);
    hide Val;
    if write {
      a[i] := Low16(num);
    }
    carry := Sshr16(num);
    assert a[lo..i + 1] == old(a[lo..i]) + [Low16(num)];
  }

  // ---- One quotient digit ----

  /** The body of the multiply-and-subtract loop: `q * digit` leaves through `t2`, the borrow through `num`. */
  method SubtractStep(z: array<int>, lo: nat, k: nat, digit: int, q: int, num0: int, t20: int,
                      ghost zs: int, ghost ys: int) returns (num: int, t2: int)
    requires lo <= k < z.Length && IsDigits(z[..]) && 0 <= digit < BASE && 0 <= q < BASE
    requires -1 <= num0 <= 0 && 0 <= t20 < BASE
    modifies z
    ensures IsDigits(z[..]) && -1 <= num <= 0 && 0 <= t2 < BASE
    ensures forall m :: 0 <= m < z.Length && m != k ==> z[m] == old(z[m])
    ensures Val(z[lo..k + 1] + [num - t2 + (zs - Times(q, ys))])
         == old(Val(z[lo..k] + [num0 - t20 + (z[k] + BASE * zs - Times(q, digit + BASE * ys))]))
  {
    hide Val;
    MulLe(0, digit, q);
    MulLe(digit, 0xffff, q);
    MulLe(q, 0xffff, 0xffff);
    MulAdd(q, digit, BASE * ys);
    MulAssoc(BASE, q, ys);
    t2 := t20 + digit * q;
    SplitUnsigned(t2);
    var low := Low16(t2);
    t2 := Ushr16(t2);
    var ee := num0 - low;
    num := z[k] + ee;
    num := EmitSigned(z, lo, k, num, ee != 0, zs - q * ys - t2);
  }

  /** The multiply-and-subtract loop; the borrow `num` and the carry `t2` are still to be charged to the top digit. */
  method SubtractLoop(z: array<int>, k: nat, y: array<int>, ny: nat, q: int) returns (num: int, t2: int)
    requires ny <= y.Length && k + ny < z.Length && z != y && 0 <= q < BASE
    requires IsDigits(y[..]) && IsDigits(z[..])
    modifies z
    ensures IsDigits(z[..])
    ensures forall m :: 0 <= m < z.Length && !(k <= m < k + ny) ==> z[m] == old(z[m])
    ensures Val(z[k..k + ny] + [num - t2 + (z[k + ny] - Times(q, 0))])
         == old(Val(z[k..k + ny + 1])) - Times(q, Val(y[..ny]))
  {
    hide Val, Times;
    ghost var ys, zs := y[..ny], z[k..k + ny + 1];
    ghost var total := Val(zs) - Times(q, Val(ys));
    var i := 0;
    num, t2 := 0, 0;
    assert ys[0..] == ys && zs[0..] == zs && z[k..k] + [total] == [total];
    ValSingle(total);
    while i < ny
      invariant 0 <= i <= ny && IsDigits(z[..]) && -1 <= num <= 0 && 0 <= t2 < BASE
      invariant forall m :: 0 <= m < z.Length && !(k <= m < k + i) ==> z[m] == old(z[m])
      invariant Val(z[k..k + i] + [num - t2 + (Val(zs[i..]) - Times(q, Val(ys[i..])))]) == total
    {
      ValTail(ys, i);
      ValTail(zs, i);
      num, t2 := SubtractStep(z, k, k + i, y[i], q, num, t2, Val(zs[i + 1..]), Val(ys[i + 1..]));
      i := i + 1;
    }
    assert ys[i..] == [] && zs[i..] == [z[k + i]];
    ValEmpty();
    ValSingle(z[k + i]);
  }

  /**
    Multiply and subtract `q * y` from the window of ny + 1 digits at `k`. The top digit is
    only looked at, not stored; what it would become is returned.
   */
  method MultiplySubtract(z: array<int>, k: nat, y: array<int>, ny: nat, q: int) returns (num: int)
    requires ny <= y.Length && k + ny < z.Length && z != y && 0 <= q < BASE
    requires IsDigits(y[..]) && IsDigits(z[..])
    modifies z
    ensures IsDigits(z[..])
    ensures forall m :: 0 <= m < z.Length && !(k <= m < k + ny) ==> z[m] == old(z[m])
    ensures Val(z[k..k + ny] + [num]) == old(Val(z[k..k + ny + 1])) - q * Val(y[..ny])
  {
    hide Val;
    var t2;
    num, t2 := SubtractLoop(z, k, y, ny, q);
    num := num + (z[k + ny] - t2);
  }

  /** Add the divisor back to the lower ny digits of the window; returns the carry, at most one. */
  method AddBack(z: array<int>, k: nat, y: array<int>, ny: nat) returns (num: int)
    requires 0 < ny <= y.Length && k + ny < z.Length && z != y
    requires IsDigits(y[..]) && IsDigits(z[..])
    modifies z
    ensures IsDigits(z[..]) && 0 <= num <= 1
    ensures forall m :: 0 <= m < z.Length && !(k <= m < k + ny) ==> z[m] == old(z[m])
    ensures Val(z[k..k + ny] + [num]) == old(Val(z[k..k + ny])) + Val(y[..ny])
  {
    hide Val;
    ghost var ys, zs := y[..ny], z[k..k + ny];
    ghost var total := Val(zs) + Val(ys);
    var i := 0;
    num := 0;
    assert ys[0..] == ys && zs[0..] == zs && z[k..k] + [total] == [total];
    ValSingle(total);
    while i < ny
      invariant 0 <= i <= ny && IsDigits(z[..]) && 0 <= num <= 1
      invariant forall m :: 0 <= m < z.Length && !(k <= m < k + i) ==> z[m] == old(z[m])
      invariant Val(z[k..k + i] + [num + (Val(zs[i..]) + Val(ys[i..]))]) == total
    {
      ValTail(ys, i);
      ValTail(zs, i);
      var ee := num + y[i];
      num := z[k + i] + ee;
      num := EmitSigned(z, k, k + i, num, ee != 0, Val(zs[i + 1..]) + Val(ys[i + 1..]));
      i := i + 1;
    }
    assert ys[i..] == [] && zs[i..] == [];
    ValEmpty();
  }

  /** The divisor after scaling: its top digit is at least half the base. */
  ghost predicate Scaled(y: seq<int>) {
    y != [] && IsDigits(y) && y[|y| - 1] >= 0x8000
  }

  /** A window of |y| + 1 digits whose quotient by `y` is a single digit. */
  ghost predicate InWindow(w: seq<int>, y: seq<int>) {
    |w| == |y| + 1 && IsDigits(w) && Val(w) < BASE * Val(y)
  }

  /** A digit window is a `Window` in the sense of the trial digit lemmas. */
  lemma WindowOfDigits(w: seq<int>, y: seq<int>)
    requires Scaled(y) && InWindow(w, y)
    ensures Window(Val(w), Val(y), Pow(BASE, |y| - 1), w[|y|], w[|y| - 1], y[|y| - 1])
    ensures BASE * Pow(BASE, |y| - 1) == Pow(BASE, |y|)
  {
    hide Val, Pow;
    var n := |y|;
    PowPositive(BASE, n - 1);
    PowStep(BASE, n - 1);
    ValTop(y);
    ValBound(w);
    TopTwo(w, n);
    WindowIntro(Val(w), Val(y), Pow(BASE, n - 1), w[n], w[n - 1], y[n - 1]);
  }

  lemma WindowIntro(w: int, y: int, p: int, zt: int, zu: int, v: int)
    requires 0 < p && 0x8000 <= v < 0x1_0000 && 0 <= zu < 0x1_0000 && 0 <= zt < 0x1_0000
    requires p * v <= y < p * (v + 1) && 0 <= w < 0x1_0000 * y
    requires 0 <= w - p * (zt * 0x1_0000 + zu) < p
    ensures Window(w, y, p, zt, zu, v)
  {
    MulAdd(p, zt * 0x1_0000 + zu, 1);
  }

  lemma TopTwo(w: seq<int>, n: nat)
    requires 0 < n && |w| == n + 1 && IsDigits(w)
    ensures var u := w[n] * 0x1_0000 + w[n - 1];
      0 <= Val(w) - Pow(BASE, n - 1) * u < Pow(BASE, n - 1)
  {
    var low, top := w[..n - 1], [w[n - 1], w[n]];
    assert w == low + top;
    ValAppend(low, top);
    ValBound(low);
    assert top[1..] == [w[n]];
    ValSingle(w[n]);
  }

  /** `Val(low + [top])` with a top digit of any sign. */
  lemma ValOversized(low: seq<int>, top: int)
    requires IsDigits(low)
    ensures Val(low + [top]) == Val(low) + Pow(BASE, |low|) * top
    ensures 0 <= Val(low) < Pow(BASE, |low|)
  {
    ValSnoc(low, top);
    ValBound(low);
  }

  /** A difference within one weight of zero leaves a top digit of 0 or -1. */
  lemma BorrowRange(p: int, low: int, num: int)
    requires 0 <= low < p && -p < low + p * num < p
    ensures -1 <= num <= 0
    ensures num < 0 <==> low + p * num < 0
  {
    if num <= -2 {
      MulLe(num, -2, p);
    }
    if num >= 1 {
      MulLe(1, num, p);
    }
  }

  /** The true quotient digit of a window, as integers. */
  lemma TrueDigit(w: int, y: int) returns (t: int)
    requires 0 <= w < 0x1_0000 * y && 0 < y
    ensures 0 <= t < 0x1_0000 && t * y <= w < (t + 1) * y
  {
    t := w / y;
    MulAdd(y, t, 1);
    assert w == y * t + w % y;
    if t >= 0x1_0000 {
      MulLe(0x1_0000, t, y);
    }
    if t < 0 {
      MulLe(t, -1, y);
    }
  }

  /** Everything the digit loop needs to know about the estimate `q` for a window `w`. */
  lemma EstimateFacts(w: seq<int>, y: seq<int>) returns (t: int)
    requires Scaled(y) && InWindow(w, y)
    ensures var q := Trial(w[|y|], w[|y| - 1], y[|y| - 1]);
      && 0 <= t <= q <= 0xffff && q <= t + 2 && w[|y|] <= y[|y| - 1]
      && t * Val(y) <= Val(w) < (t + 1) * Val(y)
      && 0 < Val(w) - q * Val(y) + Pow(BASE, |y|) && Val(w) - q * Val(y) < Pow(BASE, |y|)
      && Val(y) < Pow(BASE, |y|)
  {
    var n := |y|;
    var p := Pow(BASE, n - 1);
    var zt, zu, v := w[n], w[n - 1], y[n - 1];
    var q := Trial(zt, zu, v);
    WindowOfDigits(w, y);
    ValBound(y);
    ValTop(y);
    hide Val, Pow, Trial;
    PositiveProduct(v, p);
    t := TrueDigit(Val(w), Val(y));
    TopAtMost(Val(w), Val(y), p, zt, zu, v);
    TrialInRange(zt, zu, v);
    TrialNotBelow(Val(w), Val(y), p, zt, zu, v, t);
    TrialAtMostTwoAbove(Val(w), Val(y), p, zt, zu, v, t);
    BorrowsAtMostOnce(Val(w), Val(y), p, zt, zu, v);
    MulLe(t, q, Val(y));
    MulAdd(Val(y), t, 1);
  }

  /** `q = zds[j] == top ? 65535 : ((zds[j] * 65536 + zds[j - 1]) / top) & 0xffff` */
  method Estimate(z: array<int>, j: nat, top: int) returns (q: int)
    requires 0 < j < z.Length && 0 < top < BASE && 0 <= z[j] <= top && 0 <= z[j - 1] < BASE
    ensures q == Trial(z[j], z[j - 1], top)
  {
    if z[j] == top {
      q := 65535;
    } else {
      QuotientDigit(z[j], z[j - 1], top);
      q := Low16((z[j] * 65536 + z[j - 1]) / top);
    }
  }

  /**
    The add-back loop. It ends because each round adds one divisor to a difference that is
    negative and above minus two divisors: `q` comes down to the true digit `t`.
   */
  method AddBackLoop(z: array<int>, k: nat, y: array<int>, ny: nat, q0: int, num0: int, ghost t: int, ghost w: int)
      returns (q: int)
    requires 0 < ny <= y.Length && k + ny < z.Length && z != y && IsDigits(y[..]) && IsDigits(z[..])
    requires -1 <= num0 <= 0 && 0 <= t <= q0
    requires t * Val(y[..ny]) <= w < (t + 1) * Val(y[..ny]) && Val(y[..ny]) < Pow(BASE, ny)
    requires Val(z[k..k + ny] + [num0]) == w - q0 * Val(y[..ny])
    modifies z
    ensures IsDigits(z[..]) && q == t
    ensures forall m :: 0 <= m < z.Length && !(k <= m < k + ny) ==> z[m] == old(z[m])
    ensures Val(z[k..k + ny]) == w - t * Val(y[..ny])
  {
    hide Val, Pow;
    ghost var yv, p := Val(y[..ny]), Pow(BASE, ny);
    q := q0;
    var num := num0;
    while num != 0
      invariant IsDigits(z[..]) && -1 <= num <= 0 && t <= q
      invariant forall m :: 0 <= m < z.Length && !(k <= m < k + ny) ==> z[m] == old(z[m])
      invariant Val(z[k..k + ny] + [num]) == w - q * yv
      decreases q
    {
      ValOversized(z[k..k + ny], num);
      AboveTrueDigit(w, yv, q, t);
      q := q - 1;
      num := AddBack(z, k, y, ny);
      ValOversized(z[k..k + ny], num);
      ValOversized(z[k..k + ny], num - 1);
      MulAdd(p, num, -1);
      MulAdd(yv, q, 1);
      num := num - 1;
    }
    ValOversized(z[k..k + ny], num);
    ExactDigit(w, yv, q, t);
  }

  /** A negative difference means the digit is still too large. */
  lemma AboveTrueDigit(w: int, y: int, q: int, t: int)
    requires t * y <= w && t <= q && w - q * y < 0
    ensures t < q
  {
  }

  lemma ExactDigit(w: int, y: int, q: int, t: int)
    requires t * y <= w < (t + 1) * y && t <= q && 0 <= w - q * y
    ensures t == q
  {
    MulAdd(y, t, 1);
    if q >= t + 1 {
      MulLe(t + 1, q, y);
    }
  }

  /**
    One round of the digit loop on the window of ny + 1 digits at `k`: the digit is the exact
    quotient of the window by the divisor, and the lower ny digits become the remainder. The
    top digit of the window keeps its old value; the caller overwrites it.
   */
  method ReduceWindow(z: array<int>, k: nat, y: array<int>, ny: nat) returns (q: int)
    requires 0 < ny <= y.Length && k + ny < z.Length && z != y && IsDigits(y[..]) && IsDigits(z[..])
    requires Scaled(y[..ny]) && InWindow(z[k..k + ny + 1], y[..ny])
    modifies z
    ensures IsDigits(z[..]) && 0 <= q < BASE
    ensures forall m :: 0 <= m < z.Length && !(k <= m < k + ny) ==> z[m] == old(z[m])
    ensures old(Val(z[k..k + ny + 1])) == q * Val(y[..ny]) + Val(z[k..k + ny])
    ensures 0 <= Val(z[k..k + ny]) < Val(y[..ny])
  {
    ghost var ys, w := y[..ny], z[k..k + ny + 1];
    ghost var t := EstimateFacts(w, ys);
    hide Val, Pow, Trial;
    q := Estimate(z, k + ny, y[ny - 1]);
    if q != 0 {
      var num := MultiplySubtract(z, k, y, ny, q);
      ValOversized(z[k..k + ny], num);
      BorrowRange(Pow(BASE, ny), Val(z[k..k + ny]), num);
      q := AddBackLoop(z, k, y, ny, q, num, t, Val(w));
    } else {
      ZeroDigit(w, ny, Val(ys));
      assert z[k..k + ny] == w[..ny];
    }
    RemainderRange(Val(w), Val(ys), t, Val(z[k..k + ny]));
  }

  lemma RemainderRange(w: int, y: int, t: int, r: int)
    requires t * y <= w < (t + 1) * y && r == w - t * y
    ensures 0 <= r < y && w == t * y + r
  {
    MulAdd(y, t, 1);
  }

  /** A window below the divisor has a zero top digit. */
  lemma ZeroDigit(w: seq<int>, n: nat, y: int)
    requires |w| == n + 1 && IsDigits(w) && Val(w) < y < Pow(BASE, n)
    ensures Val(w[..n]) == Val(w)
  {
    assert w == w[..n] + [w[n]];
    ValOversized(w[..n], w[n]);
    hide Val, Pow;
    if w[n] >= 1 {
      MulLe(1, w[n], Pow(BASE, n));
    }
  }

  // ---- The digit loop ----

  /**
    What the loop has in `z` between rounds: digits of the running remainder below `j`, quotient
    digits from `j` up. `Account` is the integer they stand for together.
   */
  ghost function Account(z: seq<int>, j: nat, ny: nat, y: int): int
    requires ny <= j <= |z|
  {
    Val(z[..j]) + Pow(BASE, j - ny) * (y * Val(z[j..]))
  }

  /** Replacing a window by its quotient digit and its remainder leaves the account unchanged. */
  lemma RoundKeepsAccount(s: seq<int>, t: seq<int>, j: nat, ny: nat, y: int, q: int)
    requires ny <= j < |s| == |t|
    requires s[..j - ny] == t[..j - ny] && s[j + 1..] == t[j + 1..] && t[j] == q
    requires Val(s[j - ny..j + 1]) == q * y + Val(t[j - ny..j])
    ensures Account(s, j + 1, ny, y) == Account(t, j, ny, y)
  {
    var k := j - ny;
    ValSplit(s[..j + 1], k);
    ValSplit(t[..j], k);
    assert s[..j + 1][..k] == s[..k] && s[..j + 1][k..] == s[k..j + 1];
    assert t[..j][..k] == t[..k] && t[..j][k..] == t[k..j];
    ValTail(t, j);
    PowStep(BASE, k);
    hide Val, Pow;
    AccountArithmetic(Pow(BASE, k), y, q, Val(t[k..j]), Val(t[j + 1..]));
  }

  lemma AccountArithmetic(p: int, y: int, q: int, r: int, h: int)
    ensures p * (q * y + r) + (0x1_0000 * p) * (y * h) == p * r + p * (y * (q + 0x1_0000 * h))
  {
    MulAdd(p, q * y, r);
    MulAdd(y, q, 0x1_0000 * h);
    MulAdd(p, y * q, y * (0x1_0000 * h));
    assert y * (0x1_0000 * h) == 0x1_0000 * (y * h);
    assert p * (0x1_0000 * (y * h)) == (0x1_0000 * p) * (y * h);
  }

  /** A remainder below the divisor with one more digit underneath is a window again. */
  lemma NextWindow(z: seq<int>, k: nat, ys: seq<int>)
    requires k + |ys| < |z| && IsDigits(z) && Val(z[k + 1..k + 1 + |ys|]) < Val(ys)
    ensures InWindow(z[k..k + |ys| + 1], ys)
  {
    var w := z[k..k + |ys| + 1];
    assert w[1..] == z[k + 1..k + 1 + |ys|];
  }

  /** One round: the quotient digit is stored over the top digit of its window. */
  method DivideRound(z: array<int>, j: nat, y: array<int>, ny: nat)
    requires 0 < ny <= y.Length && ny <= j < z.Length && z != y && IsDigits(y[..]) && IsDigits(z[..])
    requires Scaled(y[..ny]) && InWindow(z[j - ny..j + 1], y[..ny])
    modifies z
    ensures IsDigits(z[..])
    ensures forall m :: 0 <= m < z.Length && !(j - ny <= m <= j) ==> z[m] == old(z[m])
    ensures 0 <= Val(z[j - ny..j]) < Val(y[..ny])
    ensures Account(z[..], j, ny, Val(y[..ny])) == old(Account(z[..], j + 1, ny, Val(y[..ny])))
  {
    hide Val, Account, InWindow, Scaled;
    ghost var before := z[..];
    var q := ReduceWindow(z, j - ny, y, ny);
    ghost var r := z[j - ny..j];
    z[j] := q;
    assert z[j - ny..j] == r;
    assert before[..j - ny] == z[..j - ny] && before[j + 1..] == z[j + 1..];
    RoundKeepsAccount(before, z[..], j, ny, Val(y[..ny]), q);
  }

  /** The `do ... while (--j >= ny)` loop of `bigint_divmod`: the whole of `z` is divided by `y`. */
  method DivideLoop(z: array<int>, top: nat, y: array<int>, ny: nat)
    requires 0 < ny <= y.Length && ny <= top < z.Length && z != y && IsDigits(y[..]) && IsDigits(z[..])
    requires Scaled(y[..ny]) && InWindow(z[top - ny..top + 1], y[..ny])
    requires forall m :: top < m < z.Length ==> z[m] == 0
    modifies z
    ensures IsDigits(z[..])
    ensures forall m :: top < m < z.Length ==> z[m] == 0
    ensures 0 <= Val(z[..ny]) < Val(y[..ny])
    ensures old(Val(z[..])) == Val(z[..ny]) + Val(y[..ny]) * Val(z[ny..])
  {
    hide *;
    ghost var ys := y[..ny];
    ghost var total := Val(z[..]);
    StartAccount(z[..], top + 1, ny, Val(ys));
    var j := top;
    DivideRound(z, j, y, ny);
    while j - 1 >= ny
      invariant ny <= j <= top && IsDigits(z[..])
      invariant forall m :: top < m < z.Length ==> z[m] == 0
      invariant 0 <= Val(z[j - ny..j]) < Val(ys)
      invariant Account(z[..], j, ny, Val(ys)) == total
    {
      NextWindow(z[..], j - 1 - ny, ys);
      j := j - 1;
      DivideRound(z, j, y, ny);
    }
    EndAccount(z[..], ny, Val(ys));
    assert z[0..ny] == z[..ny];
  }

  lemma StartAccount(z: seq<int>, j: nat, ny: nat, y: int)
    requires ny <= j <= |z| && forall m :: j <= m < |z| ==> z[m] == 0
    ensures Account(z, j, ny, y) == Val(z)
  {
    ValZero(z[j..]);
    ValSplit(z, j);
  }

  lemma EndAccount(z: seq<int>, ny: nat, y: int)
    requires ny <= |z|
    ensures Account(z, ny, ny, y) == Val(z[..ny]) + y * Val(z[ny..])
  {
  }
}
