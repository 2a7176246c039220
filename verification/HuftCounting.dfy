/**
  The first half of `zip_HuftBuild`: counting code lengths, checking the code space and sorting the symbols by length.
 */
module HuftCounting {
  import opened Bits
  import opened CanonicalCode
  import opened HuffmanTables
  import opened HuftInvariant

  const MAX_CODES := 288

  ghost predicate Counts(lens: seq<int>, c: seq<int>) {
    |c| == MAX_BITS + 1 && forall k :: 0 <= k <= MAX_BITS ==> c[k] == Count(lens, k)
  }

  method CountLengths(lens: seq<int>) returns (c: seq<int>)
    requires IsLengths(lens)
    ensures Counts(lens, c)
    ensures c[0] == |lens| <==> AllZero(lens)
  {
    c := seq(MAX_BITS + 1, _ => 0);
    var i := 0;
    while i < |lens|
      invariant 0 <= i <= |lens|
      invariant Counts(lens[..i], c)
    {
      forall k | 0 <= k <= MAX_BITS
        ensures Count(lens[..i + 1], k) == c[k] + if lens[i] == k then 1 else 0
      {
        CountPrefix(lens, i, k);
      }
      c := c[lens[i] := c[lens[i]] + 1];
      i := i + 1;
    }
    assert lens[..|lens|] == lens;
    AllOfOneLength(lens, 0);
  }

  lemma {:induction false} AllOfOneLength(lens: seq<int>, k: int)
    ensures Count(lens, k) <= |lens|
    ensures Count(lens, k) == |lens| <==> forall i :: 0 <= i < |lens| ==> lens[i] == k
  {
    if lens != [] {
      AllOfOneLength(lens[..|lens| - 1], k);
    }
  }

  /** Only lengths from `k` to `g` are used, and these two are. */
  ghost predicate Span(lens: seq<int>, k: int, g: int) {
    1 <= k <= g && IsLongest(lens, g) && Count(lens, k) > 0 && forall l :: 1 <= l < k ==> Count(lens, l) == 0
  }

  method ShortestLongest(lens: seq<int>, c: seq<int>) returns (k: nat, g: nat)
    requires IsLengths(lens) && Counts(lens, c) && !AllZero(lens)
    ensures Span(lens, k, g)
  {
    SomeCode(lens);
    k := 1;
    while k <= MAX_BITS && c[k] == 0
      invariant 1 <= k <= MAX_BITS + 1
      invariant forall l :: 1 <= l < k ==> Count(lens, l) == 0
    {
      k := k + 1;
    }
    g := MAX_BITS;
    while g != 0 && c[g] == 0
      invariant 0 <= g <= MAX_BITS
      invariant forall l :: g < l <= MAX_BITS ==> Count(lens, l) == 0
    {
      g := g - 1;
    }
  }

  lemma SomeCode(lens: seq<int>)
    requires IsLengths(lens) && !AllZero(lens)
    ensures exists l :: 1 <= l <= MAX_BITS && Count(lens, l) > 0
  {
    var i :| 0 <= i < |lens| && lens[i] != 0;
    CountZero(lens, lens[i]);
  }

  // ---- The code space ----

  lemma {:induction false} NoShorter(lens: seq<int>, k: nat)
    requires forall l :: 1 <= l < k ==> Count(lens, l) == 0
    ensures NextCode(lens, k) == 0
  {
    if k > 1 {
      NoShorter(lens, k - 1);
    }
  }

  /** Without longer codes, the end of the codes only scales. */
  lemma {:induction false} EndScales(lens: seq<int>, g: nat, k: nat)
    requires 1 <= g < k && forall l :: g < l < k ==> Count(lens, l) == 0
    ensures NextCode(lens, k) == EndOfCodes(lens, g) * Pow2(k - g)
  {
    hide Count;
    if k == g + 1 {
      assert Pow2(1) == 2 * Pow2(0) == 2;
    } else {
      EndScales(lens, g, k - 1);
      assert EndOfCodes(lens, g) * (2 * Pow2(k - 1 - g)) == 2 * (EndOfCodes(lens, g) * Pow2(k - 1 - g));
    }
  }

  lemma KraftAtLongest(lens: seq<int>, g: nat)
    requires IsLengths(lens) && IsLongest(lens, g)
    ensures KraftSum(lens) == EndOfCodes(lens, g) * Pow2(MAX_BITS - g)
    ensures KraftSum(lens) > SPACE <==> EndOfCodes(lens, g) > Pow2(g)
    ensures KraftSum(lens) == SPACE <==> EndOfCodes(lens, g) == Pow2(g)
  {
    KraftIsEndOfCodes(lens);
    if g < MAX_BITS {
      EndScales(lens, g, MAX_BITS);
    }
    Sixteen();
    Pow2Add(g, MAX_BITS - g);
    OrderScales(EndOfCodes(lens, g), Pow2(g), Pow2(MAX_BITS - g));
  }

  lemma OrderScales(a: int, b: int, d: int)
    requires 0 < d
    ensures a * d > b * d <==> a > b
    ensures a * d == b * d <==> a == b
  {
    if a < b {
      ProductGap(a, b, d);
    } else if b < a {
      ProductGap(b, a, d);
    }
  }

  /** More codes than patterns at some length: the longer codes cannot mend it. */
  lemma Oversubscribed(lens: seq<int>, j: nat)
    requires IsLengths(lens) && 1 <= j < MAX_BITS && EndOfCodes(lens, j) > Pow2(j)
    ensures KraftSum(lens) > SPACE
  {
    hide Count, NextCode, KraftSum, Pow2;
    KraftIsEndOfCodes(lens);
    NextCodeGrowth(lens, j, MAX_BITS);
    Sixteen();
    Pow2Add(j, MAX_BITS - j);
    ProductGap(Pow2(j), EndOfCodes(lens, j), Pow2(MAX_BITS - j));
  }

  /** Halving the space length by length; a negative result is too many codes, a positive one the patterns left over. */
  method SpaceLeftOver(lens: seq<int>, c: seq<int>, k: nat, g: nat) returns (y: int)
    requires IsLengths(lens) && Counts(lens, c) && Span(lens, k, g)
    ensures y < 0 <==> KraftSum(lens) > SPACE
    ensures y == 0 <==> KraftSum(lens) == SPACE
    ensures y >= 0 ==> y == Pow2(g) - EndOfCodes(lens, g)
  {
    hide Count, Pow2, KraftSum;
    NoShorter(lens, k);
    var j := k;
    y := Pow2(j);
    while j < g
      invariant k <= j <= g
      invariant y == Pow2(j) - NextCode(lens, j)
    {
      y := y - c[j];
      if y < 0 {
        Oversubscribed(lens, j);
        return;
      }
      j := j + 1;
      y := 2 * y;
      TwicePow2(j);
    }
    y := y - c[g];
    KraftAtLongest(lens, g);
  }

  lemma TwicePow2(j: nat)
    requires 1 <= j
    ensures Pow2(j) == 2 * Pow2(j - 1)
  {
  }

  // ---- Sorting ----

  /** How many codes are shorter than `k`. */
  function Offset(lens: seq<int>, k: nat): nat {
    if k <= 1 then 0 else Offset(lens, k - 1) + Count(lens, k - 1)
  }

  lemma {:induction false} OffsetGrowth(lens: seq<int>, k: nat, l: nat)
    requires 1 <= k < l
    ensures Offset(lens, k) + Count(lens, k) <= Offset(lens, l)
    decreases l
  {
    hide Count;
    if k < l - 1 {
      OffsetGrowth(lens, k, l - 1);
    }
  }

  lemma {:induction false} OffsetAppend(lens: seq<int>, l: int, k: nat)
    ensures Offset(lens + [l], k) == Offset(lens, k) + if 1 <= l < k then 1 else 0
  {
    if k > 1 {
      OffsetAppend(lens, l, k - 1);
      assert (lens + [l])[..|lens|] == lens;
    }
  }

  lemma {:induction false} OffsetBound(lens: seq<int>, k: nat)
    requires k >= 1
    ensures Offset(lens, k) + Count(lens, k) <= |lens|
  {
    if lens == [] {
      OffsetOfNone(k);
    } else {
      var n := |lens| - 1;
      OffsetBound(lens[..n], k);
      OffsetAppend(lens[..n], lens[n], k);
      assert lens[..n] + [lens[n]] == lens;
    }
  }

  lemma {:induction false} OffsetOfNone(k: nat)
    ensures Offset([], k) == 0
  {
    if k > 1 {
      OffsetOfNone(k - 1);
    }
  }

  method StartingOffsets(lens: seq<int>, c: seq<int>, g: nat) returns (x: seq<int>)
    requires 1 <= g <= MAX_BITS && |c| == MAX_BITS + 1 && forall l :: 1 <= l < g ==> c[l] == Count(lens, l)
    ensures |x| == MAX_BITS + 1 && x[0] == 0 && forall l :: 1 <= l <= g ==> x[l] == Offset(lens, l)
  {
    hide Count;
    x := seq(MAX_BITS + 1, _ => 0);
    var j, l := 0, 1;
    while l < g
      invariant 1 <= l <= g && |x| == MAX_BITS + 1 && x[0] == 0 && j == Offset(lens, l)
      invariant forall m :: 1 <= m <= l ==> x[m] == Offset(lens, m)
    {
      j := j + c[l];
      x := x[l + 1 := j];
      l := l + 1;
    }
  }

  /** `s` is the symbol with the `r`-th code of length `k`. */
  ghost predicate IsNth(lens: seq<int>, s: int, k: int, r: int) {
    0 <= s < |lens| && lens[s] == k && Rank(lens, s) == r
  }

  /** `v` holds that symbol after all shorter ones and the earlier ones of its length. */
  ghost predicate Listed(lens: seq<int>, v: seq<int>, k: nat, r: int) {
    0 <= r && Offset(lens, k) + r < |v| && IsNth(lens, v[Offset(lens, k) + r], k, r)
  }

  /** `v` lists the symbols by code length, and by symbol within a length, as far as `lens[..i]`. */
  ghost predicate Sorted(lens: seq<int>, v: seq<int>, i: int)
    requires 0 <= i <= |lens|
  {
    forall k: nat, r :: 1 <= k <= MAX_BITS && 0 <= r < Count(lens[..i], k) ==> Listed(lens, v, k, r)
  }

  lemma Apart(lens: seq<int>, i: int, k: nat, r: int, l: nat)
    requires 0 <= i < |lens| && 1 <= k && 1 <= l && 0 <= r < Count(lens[..i], k) && lens[i] == l
    ensures Offset(lens, k) + r != Offset(lens, l) + Count(lens[..i], l)
  {
    hide Count, Offset;
    CountMonotone(lens, i, |lens|, k);
    CountMonotone(lens, i, |lens|, l);
    assert lens[..|lens|] == lens;
    if k < l {
      OffsetGrowth(lens, k, l);
    } else if l < k {
      OffsetGrowth(lens, l, k);
    }
  }

  lemma Place1(lens: seq<int>, v: seq<int>, i: int)
    requires IsLengths(lens) && 0 <= i < |lens| <= |v| && Sorted(lens, v, i) && lens[i] != 0
    ensures var at := Offset(lens, lens[i]) + Count(lens[..i], lens[i]);
      at < |v| && Sorted(lens, v[at := i], i + 1)
  {
    hide Count, Offset;
    var l := lens[i];
    var at := Offset(lens, l) + Count(lens[..i], l);
    OffsetBound(lens, l);
    CountMonotone(lens, i, |lens|, l);
    assert lens[..|lens|] == lens;
    var v' := v[at := i];
    forall k: nat, r | 1 <= k <= MAX_BITS && 0 <= r < Count(lens[..i + 1], k)
      ensures Listed(lens, v', k, r)
    {
      CountPrefix(lens, i, k);
      if k != l || r != Count(lens[..i], l) {
        Apart(lens, i, k, r, l);
        assert Listed(lens, v, k, r);
      }
    }
  }

  lemma NothingPlaced(lens: seq<int>, v: seq<int>, i: int)
    requires 0 <= i < |lens| && Sorted(lens, v, i) && lens[i] == 0
    ensures Sorted(lens, v, i + 1)
  {
    hide Offset;
    forall k: nat, r | 1 <= k <= MAX_BITS && 0 <= r < Count(lens[..i + 1], k)
      ensures Listed(lens, v, k, r)
    {
      CountPrefix(lens, i, k);
    }
  }

  method SortByLength(lens: seq<int>, x0: seq<int>, g: nat) returns (v: seq<int>, x: seq<int>)
    requires IsLengths(lens) && |lens| <= MAX_CODES && IsLongest(lens, g)
    requires |x0| == MAX_BITS + 1 && x0[0] == 0 && forall l :: 1 <= l <= g ==> x0[l] == Offset(lens, l)
    ensures |v| == MAX_CODES && Sorted(lens, v, |lens|)
    ensures |x| == MAX_BITS + 1 && x[0] == 0 && x[g] == Offset(lens, g) + Count(lens, g)
  {
    hide Offset, IsNth, Sorted;
    v := seq(MAX_CODES, _ => 0);
    x := x0;
    StartSorted(lens, v);
    var i := 0;
    while i < |lens|
      invariant 0 <= i <= |lens| && |v| == MAX_CODES && Sorted(lens, v, i)
      invariant |x| == MAX_BITS + 1 && x[0] == 0
      invariant forall l :: 1 <= l <= g ==> x[l] == Offset(lens, l) + Count(lens[..i], l)
    {
      var j := lens[i];
      CountZero(lens, j);
      forall l | 1 <= l <= g
        ensures Count(lens[..i + 1], l) == Count(lens[..i], l) + if lens[i] == l then 1 else 0
      {
        CountPrefix(lens, i, l);
      }
      if j != 0 {
        Place1(lens, v, i);
        v := v[x[j] := i];
        x := x[j := x[j] + 1];
      } else {
        NothingPlaced(lens, v, i);
      }
      i := i + 1;
    }
    assert lens[..|lens|] == lens;
  }

  lemma StartSorted(lens: seq<int>, v: seq<int>)
    ensures Sorted(lens, v, 0)
  {
  }

  lemma SortedAt(lens: seq<int>, v: seq<int>, k: nat, r: int)
    requires Sorted(lens, v, |lens|) && 1 <= k <= MAX_BITS && 0 <= r < Count(lens, k)
    ensures Listed(lens, v, k, r)
  {
    assert lens[..|lens|] == lens;
  }
}
