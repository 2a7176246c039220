/** Little-endian digit sequences in base 65536 and the integer they denote. */
module Digits {
  const BASE := 65536

  function Pow(b: nat, e: nat): (p: nat) {
    if e == 0 then 1 else b * Pow(b, e - 1)
  }

  ghost predicate IsDigits(s: seq<int>) {
    forall k :: 0 <= k < |s| ==> 0 <= s[k] < BASE
  }

  /** The integer denoted by `s`, least significant digit first. */
  function Val(s: seq<int>): int {
    if s == [] then 0 else s[0] + BASE * Val(s[1..])
  }

  lemma PowPositive(b: nat, e: nat)
    requires b > 0
    ensures Pow(b, e) > 0
  {
    if e > 0 {
      PowPositive(b, e - 1);
    }
  }

  lemma MulAssoc(a: int, b: int, c: int)
    ensures a * (b * c) == (a * b) * c
  {
  }

  /** A product under a name of its own, so that it can be hidden from a proof that only carries it along. */
  function Times(a: int, b: int): int {
    a * b
  }

  lemma MulLe(a: int, b: int, c: int)
    requires a <= b && 0 <= c
    ensures a * c <= b * c
    ensures c * a <= c * b
  {
  }

  lemma MulAdd(a: int, b: int, c: int)
    ensures a * (b + c) == a * b + a * c
    ensures (b + c) * a == b * a + c * a
  {
  }

  /** Quotient and remainder are unique. */
  lemma QuotientUnique(x: int, y: int, q: int, r: int)
    requires 0 < y && x == y * q + r && 0 <= r < y
    ensures x / y == q && x % y == r
  {
    var q1 := x / y;
    assert x == y * q1 + x % y;
    MulAdd(y, q1, -q);
    if q1 > q {
      MulLe(1, q1 - q, y);
    }
    if q1 < q {
      MulLe(q1 - q, -1, y);
    }
  }

  lemma {:induction false} PowAdd(b: nat, m: nat, n: nat)
    ensures Pow(b, m + n) == Pow(b, m) * Pow(b, n)
  {
    if m > 0 {
      PowAdd(b, m - 1, n);
      PowStep(b, m - 1 + n);
      PowStep(b, m - 1);
      hide Pow;
      MulAssoc(b, Pow(b, m - 1), Pow(b, n));
    }
  }

  lemma PowStep(b: nat, e: nat)
    ensures Pow(b, e + 1) == b * Pow(b, e)
  {
  }

  lemma PowMonotone(b: nat, m: nat, n: nat)
    requires b > 0 && m <= n
    ensures Pow(b, m) <= Pow(b, n)
  {
    PowAdd(b, m, n - m);
    PowPositive(b, m);
    PowPositive(b, n - m);
    hide Pow;
    MulLe(1, Pow(b, n - m), Pow(b, m));
  }

  lemma ValEmpty()
    ensures Val([]) == 0
  {
  }

  lemma {:induction false} ValAppend(s: seq<int>, t: seq<int>)
    ensures Val(s + t) == Val(s) + Pow(BASE, |s|) * Val(t)
  {
    if s == [] {
      assert s + t == t;
    } else {
      assert (s + t)[1..] == s[1..] + t;
      ValAppend(s[1..], t);
      PowStep(BASE, |s| - 1);
      MulAssoc(BASE, Pow(BASE, |s| - 1), Val(t));
    }
  }

  lemma ValSnoc(s: seq<int>, d: int)
    ensures Val(s + [d]) == Val(s) + Pow(BASE, |s|) * d
  {
    ValSingle(d);
    ValAppend(s, [d]);
  }

  lemma ValSingle(d: int)
    ensures Val([d]) == d
  {
    assert [d][1..] == [];
  }

  lemma ValSplit(s: seq<int>, i: nat)
    requires i <= |s|
    ensures Val(s) == Val(s[..i]) + Pow(BASE, i) * Val(s[i..])
  {
    assert s == s[..i] + s[i..];
    ValAppend(s[..i], s[i..]);
  }

  lemma {:induction false} ValBound(s: seq<int>)
    requires IsDigits(s)
    ensures 0 <= Val(s) < Pow(BASE, |s|)
  {
    if s != [] {
      assert IsDigits(s[1..]);
      ValBound(s[1..]);
    }
  }

  lemma {:induction false} ValZero(s: seq<int>)
    requires forall k :: 0 <= k < |s| ==> s[k] == 0
    ensures Val(s) == 0
  {
    if s != [] {
      ValZero(s[1..]);
    }
  }

  /** The top digit decides the magnitude. */
  lemma ValTop(s: seq<int>)
    requires s != [] && IsDigits(s)
    ensures Pow(BASE, |s| - 1) * s[|s| - 1] <= Val(s) < Pow(BASE, |s| - 1) * (s[|s| - 1] + 1)
  {
    var n := |s| - 1;
    assert s == s[..n] + [s[n]];
    ValSnoc(s[..n], s[n]);
    ValBound(s[..n]);
    hide Pow, Val;
    MulAdd(Pow(BASE, n), s[n], 1);
  }

  /** A number without leading zeros is at least the power of its top digit. */
  lemma AtLeastTopPower(y: seq<int>)
    requires IsDigits(y) && y != [] && y[|y| - 1] != 0
    ensures 0 < Pow(BASE, |y| - 1) <= Val(y)
  {
    hide Val, Pow;
    ValTop(y);
    PowPositive(BASE, |y| - 1);
    MulLe(1, y[|y| - 1], Pow(BASE, |y| - 1));
  }

  /** A digit sequence is determined by its length and its value. */
  lemma {:induction false} ValInjective(s: seq<int>, t: seq<int>)
    requires |s| == |t| && IsDigits(s) && IsDigits(t) && Val(s) == Val(t)
    ensures s == t
  {
    if s != [] {
      assert s[0] == t[0];
      assert IsDigits(s[1..]) && IsDigits(t[1..]);
      ValInjective(s[1..], t[1..]);
      assert s == [s[0]] + s[1..];
      assert t == [t[0]] + t[1..];
    }
  }

  /**
    One step of an upward digit loop. The unfinished part `t` stands as an
    oversized top digit; `d` is split off it and `r` is carried one place up.
   */
  lemma {:induction false} Advance(low: seq<int>, t: int, d: int, r: int)
    requires t == d + BASE * r
    ensures Val(low + [t]) == Val(low + [d] + [r])
  {
    if low == [] {
      assert [d] + [r] == [d, r] && [d, r][1..] == [r];
      assert low + [t] == [t] && low + [d] + [r] == [d, r];
      ValSingle(t);
      ValSingle(r);
    } else {
      assert (low + [t])[1..] == low[1..] + [t];
      assert (low + [d] + [r])[1..] == low[1..] + [d] + [r];
      Advance(low[1..], t, d, r);
    }
  }

  lemma ValTail(s: seq<int>, i: nat)
    requires i < |s|
    ensures Val(s[i..]) == s[i] + BASE * Val(s[i + 1..])
  {
    assert s[i..][1..] == s[i + 1..];
  }

  lemma ValDropZero(s: seq<int>, n: nat)
    requires n < |s| && s[n] == 0
    ensures Val(s[..n + 1]) == Val(s[..n])
  {
    assert s[..n + 1] == s[..n] + [0];
    ValSnoc(s[..n], 0);
  }

  /** Changing the digits of a window `[lo..hi]` changes the value by the window's change at weight BASE^lo. */
  lemma {:induction false} WindowChange(s: seq<int>, t: seq<int>, lo: nat, hi: nat, change: int)
    requires lo <= hi <= |s| == |t| && s[..lo] == t[..lo] && s[hi..] == t[hi..]
    requires Val(t[lo..hi]) == Val(s[lo..hi]) + change
    ensures Val(t) == Val(s) + Pow(BASE, lo) * change
  {
    if lo == 0 {
      ValSplit(s, hi);
      ValSplit(t, hi);
      assert s[0..hi] == s[..hi] && t[0..hi] == t[..hi];
    } else {
      var s1, t1 := s[1..], t[1..];
      assert s[0] == s[..lo][0] && t[0] == t[..lo][0];
      assert s1[..lo - 1] == s[..lo][1..] && t1[..lo - 1] == t[..lo][1..];
      assert s1[hi - 1..] == s[hi..] && t1[hi - 1..] == t[hi..];
      assert s1[lo - 1..hi - 1] == s[lo..hi] && t1[lo - 1..hi - 1] == t[lo..hi];
      WindowChange(s1, t1, lo - 1, hi - 1, change);
      PowStep(BASE, lo - 1);
      assert Val(t) - Val(s) == BASE * (Val(t1) - Val(s1));
      hide Val, Pow;
      MulAssoc(BASE, Pow(BASE, lo - 1), change);
    }
  }
}
