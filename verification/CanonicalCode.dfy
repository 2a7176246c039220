/** Canonical Huffman codes, as sections 3.1.1 and 3.2.2 of RFC 1951 define them. */
module CanonicalCode {
  import opened Bits

  const MAX_BITS := 16

  ghost predicate IsLengths(lens: seq<int>) {
    forall i :: 0 <= i < |lens| ==> 0 <= lens[i] <= MAX_BITS
  }

  /** bl_count: how many codes have length `k`. */
  function Count(lens: seq<int>, k: int): nat {
    if lens == [] then 0
    else Count(lens[..|lens| - 1], k) + if lens[|lens| - 1] == k then 1 else 0
  }

  /** How many earlier symbols have the same code length. */
  function Rank(lens: seq<int>, s: nat): nat
    requires s < |lens|
  {
    Count(lens[..s], lens[s])
  }

  /** next_code: the numerically smallest code of length `k`. */
  function NextCode(lens: seq<int>, k: nat): nat {
    if k <= 1 then 0 else 2 * (NextCode(lens, k - 1) + Count(lens, k - 1))
  }

  /** The code of symbol `s`, most significant bit first. */
  function Code(lens: seq<int>, s: nat): nat
    requires s < |lens| && 0 <= lens[s]
  {
    NextCode(lens, lens[s]) + Rank(lens, s)
  }

  /** The bit stream `stream` (least significant bit first) begins with the code of `s`. */
  predicate StartsWith(lens: seq<int>, stream: int, s: int) {
    0 <= s < |lens| && 0 < lens[s] && Rev(stream, lens[s]) == Code(lens, s)
  }

  /** The Kraft sum in units of 2^-16. */
  function KraftSum(lens: seq<int>): int
    requires IsLengths(lens)
  {
    if lens == [] then 0
    else
      var l := lens[|lens| - 1];
      KraftSum(lens[..|lens| - 1]) + if l == 0 then 0 else Pow2(MAX_BITS - l)
  }

  predicate AllZero(lens: seq<int>) {
    forall i :: 0 <= i < |lens| ==> lens[i] == 0
  }

  /** `g` is the length of the longest code. */
  ghost predicate IsLongest(lens: seq<int>, g: int) {
    1 <= g <= MAX_BITS && Count(lens, g) > 0 && forall k :: g < k <= MAX_BITS ==> Count(lens, k) == 0
  }

  // ---- Counting ----

  lemma CountPrefix(lens: seq<int>, m: nat, k: int)
    requires m < |lens|
    ensures Count(lens[..m + 1], k) == Count(lens[..m], k) + if lens[m] == k then 1 else 0
  {
    assert lens[..m + 1][..m] == lens[..m];
  }

  lemma {:induction false} CountMonotone(lens: seq<int>, m: nat, n: nat, k: int)
    requires m <= n <= |lens|
    ensures Count(lens[..m], k) <= Count(lens[..n], k)
    ensures m < n && lens[m] == k ==> Count(lens[..m], k) < Count(lens[..n], k)
    decreases n
  {
    if m < n {
      CountPrefix(lens, n - 1, k);
      CountMonotone(lens, m, n - 1, k);
    }
  }

  lemma RankBelowCount(lens: seq<int>, s: nat)
    requires s < |lens|
    ensures Rank(lens, s) < Count(lens, lens[s])
  {
    CountMonotone(lens, s, |lens|, lens[s]);
    assert lens[..|lens|] == lens;
  }

  lemma SameRank(lens: seq<int>, s: nat, t: nat)
    requires s < |lens| && t < |lens| && lens[s] == lens[t] && Rank(lens, s) == Rank(lens, t)
    ensures s == t
  {
    if s < t {
      CountMonotone(lens, s, t, lens[s]);
    } else if t < s {
      CountMonotone(lens, t, s, lens[s]);
    }
  }

  lemma {:induction false} CountZero(lens: seq<int>, k: int)
    ensures Count(lens, k) == 0 <==> forall i :: 0 <= i < |lens| ==> lens[i] != k
  {
    if lens != [] {
      CountZero(lens[..|lens| - 1], k);
    }
  }

  // ---- The codes are prefix-free ----

  /** All codes of length `j` lie below all codes of a longer length `k`. */
  lemma {:induction false} NextCodeGrowth(lens: seq<int>, j: nat, k: nat)
    requires 1 <= j < k
    ensures (NextCode(lens, j) + Count(lens, j)) * Pow2(k - j) <= NextCode(lens, k)
    decreases k
  {
    hide Count;
    var v := NextCode(lens, j) + Count(lens, j);
    if k == j + 1 {
      assert Pow2(1) == 2 * Pow2(0) == 2;
    } else {
      NextCodeGrowth(lens, j, k - 1);
      assert v * (2 * Pow2(k - 1 - j)) == 2 * (v * Pow2(k - 1 - j));
    }
  }

  lemma {:induction false} CodesDisjoint(lens: seq<int>, stream: int, s: int, t: int)
    requires StartsWith(lens, stream, s) && StartsWith(lens, stream, t) && lens[s] <= lens[t]
    ensures s == t
  {
    var j, k := lens[s], lens[t];
    RankBelowCount(lens, s);
    if j < k {
      NextCodeGrowth(lens, j, k);
      RevSplit(stream, j, k - j);
      RevBound(stream / Pow2(j), k - j);
      ProductGap(Code(lens, s), NextCode(lens, j) + Count(lens, j), Pow2(k - j));
    } else {
      SameRank(lens, s, t);
    }
  }

  /** At most one code starts a stream. */
  lemma AtMostOne(lens: seq<int>, stream: int, s: int, t: int)
    requires StartsWith(lens, stream, s) && StartsWith(lens, stream, t)
    ensures s == t
  {
    if lens[s] <= lens[t] {
      CodesDisjoint(lens, stream, s, t);
    } else {
      CodesDisjoint(lens, stream, t, s);
    }
  }

  /** Past the last code of the longest length, no code matches. */
  lemma BeyondLast(lens: seq<int>, g: nat, stream: int, s: int)
    requires IsLengths(lens) && 1 <= g && forall k :: g < k <= MAX_BITS ==> Count(lens, k) == 0
    requires Rev(stream, g) >= NextCode(lens, g) + Count(lens, g)
    ensures !StartsWith(lens, stream, s)
  {
    hide Rev, NextCode, Count, Rank;
    if StartsWith(lens, stream, s) {
      RankBelowCount(lens, s);
      if lens[s] < g {
        ShorterIsBelow(lens, g, stream, s);
      }
    }
  }

  /** A stream that starts with a shorter code lies below the first code of length `g`. */
  lemma ShorterIsBelow(lens: seq<int>, g: nat, stream: int, s: int)
    requires StartsWith(lens, stream, s) && lens[s] < g
    ensures Rev(stream, g) < NextCode(lens, g)
  {
    hide Rev, NextCode, Count, Rank, Pow2;
    var k := lens[s];
    RankBelowCount(lens, s);
    NextCodeGrowth(lens, k, g);
    RevSplit(stream, k, g - k);
    RevBound(stream / Pow2(k), g - k);
    ProductGap(Code(lens, s), NextCode(lens, k) + Count(lens, k), Pow2(g - k));
  }

  // ---- The Kraft sum ----

  /** One more code of length `l` moves every later first code up. */
  lemma {:induction false} NextCodeAppend(lens: seq<int>, l: int, k: nat)
    requires 0 <= l
    ensures NextCode(lens + [l], k) == NextCode(lens, k) + if 0 < l < k then Pow2(k - l) else 0
    decreases k
  {
    if k > 1 {
      NextCodeAppend(lens, l, k - 1);
      assert (lens + [l])[..|lens|] == lens;
      if l == k - 1 {
        assert Pow2(1) == 2 * Pow2(0);
      }
    }
  }

  /** The Kraft sum is the end of the code space used by codes of all lengths. */
  lemma {:induction false} KraftIsEndOfCodes(lens: seq<int>)
    requires IsLengths(lens)
    ensures KraftSum(lens) == NextCode(lens, MAX_BITS) + Count(lens, MAX_BITS)
  {
    if lens == [] {
      NoCodes(MAX_BITS);
    } else {
      var n := |lens| - 1;
      KraftIsEndOfCodes(lens[..n]);
      NextCodeAppend(lens[..n], lens[n], MAX_BITS);
      assert lens[..n] + [lens[n]] == lens;
    }
  }

  lemma {:induction false} NoCodes(k: nat)
    ensures NextCode([], k) == 0
  {
    if k > 1 {
      NoCodes(k - 1);
    }
  }
}
