/**
  The code space while `zip_HuftBuild` runs: counts filled up to a complete code, and how much of the space is left.
 */
module HuftSpace {
  import opened Bits
  import opened CanonicalCode
  import opened HuftInvariant

  /** `c` after `c[g] += y`: the counts of the lengths, with dummy codes of length `g` that make the code complete. */
  ghost predicate Filled(lens: seq<int>, c: seq<int>, g: nat) {
    && |c| == MAX_BITS + 1 && 1 <= g <= MAX_BITS
    && (forall k :: 1 <= k < g ==> c[k] == Count(lens, k))
    && c[g] >= Count(lens, g) && c[g] > 0
    && NextCode(lens, g) + c[g] == Pow2(g)
  }

  /** The space the codes longer than `k` take. */
  function Rest(c: seq<int>, k: nat, g: nat): int
    requires g < |c| && g <= MAX_BITS
    decreases g - k
  {
    if k >= g then 0 else c[k + 1] * Pow2(MAX_BITS - (k + 1)) + Rest(c, k + 1, g)
  }

  lemma {:induction false} RestPositive(c: seq<int>, k: nat, g: nat)
    requires g < |c| && g <= MAX_BITS && (forall l :: 1 <= l <= g ==> c[l] >= 0)
    ensures Rest(c, k, g) >= 0
    ensures k < g && c[g] > 0 ==> Rest(c, k, g) > 0
    decreases g - k
  {
    if k < g {
      RestPositive(c, k + 1, g);
      NonNegative(c[k + 1], Pow2(MAX_BITS - (k + 1)));
      if k + 1 == g && c[g] > 0 {
        AtLeastFactor(c[g], Pow2(MAX_BITS - g));
      }
    }
  }

  lemma AtLeastFactor(a: int, b: int)
    requires 0 < a && 0 <= b
    ensures b <= a * b
  {
  }

  /** Codes not yet handed out fill the rest of the space exactly. */
  lemma {:induction false} SpaceLeft(lens: seq<int>, c: seq<int>, k: nat, g: nat)
    requires Filled(lens, c, g) && 1 <= k <= g
    ensures (NextCode(lens, k) + c[k]) * Pow2(MAX_BITS - k) + Rest(c, k, g) == SPACE
    decreases g - k
  {
    hide Count;
    if k == g {
      Pow2Add(g, MAX_BITS - g);
      Sixteen();
    } else {
      SpaceLeft(lens, c, k + 1, g);
      Halve(NextCode(lens, k) + c[k], c[k + 1], Pow2(MAX_BITS - (k + 1)));
    }
  }

  lemma Halve(a: int, b: int, p: int)
    ensures (2 * a + b) * p == a * (2 * p) + b * p
  {
  }

  /** The space not taken when `rem` codes of length `k` are still to come. */
  lemma SpaceAfter(lens: seq<int>, c: seq<int>, k: nat, g: nat, rem: int)
    requires Filled(lens, c, g) && 1 <= k <= g && 0 <= rem <= c[k]
    ensures (NextCode(lens, k) + c[k] - rem) * Pow2(MAX_BITS - k) + rem * Pow2(MAX_BITS - k) + Rest(c, k, g) == SPACE
  {
    SpaceLeft(lens, c, k, g);
    SplitProduct(NextCode(lens, k) + c[k] - rem, rem, Pow2(MAX_BITS - k));
  }

  lemma SplitProduct(a: int, b: int, p: int)
    ensures (a + b) * p == a * p + b * p
  {
  }

  lemma FilledNonNegative(lens: seq<int>, c: seq<int>, g: nat)
    requires Filled(lens, c, g)
    ensures forall l :: 1 <= l <= g ==> c[l] >= 0
  {
  }

  // ---- How many bits the next table gets ----

  /** When all remaining codes have the longest length, they are enough to fill any table. */
  lemma LastLengthFills(pos: int, rem: int, g: nat, w: nat)
    requires w <= g <= MAX_BITS && pos + rem * Pow2(MAX_BITS - g) == SPACE
    requires pos + Pow2(MAX_BITS - w) <= SPACE
    ensures Pow2(g - w) <= rem
  {
    Pow2Add(g - w, MAX_BITS - g);
    if rem < Pow2(g - w) {
      ProductGap(rem, Pow2(g - w), Pow2(MAX_BITS - g));
    }
  }

  /**
    The size of a new table for codes of `k` bits entered after `w`: enough bits for the code, more while
    there are too few codes to use them up, no more than `mm` unless needed, and cut off at the end of block code.
   */
  method ChooseBits(c: seq<int>, k: nat, a: nat, g: nat, w: nat, mm: int, el: int, ghost pos: int) returns (j: nat)
    requires |c| == MAX_BITS + 1 && 1 <= g <= MAX_BITS && (forall l :: 1 <= l <= g ==> c[l] >= 0)
    requires w < k <= g && c[g] > 0
    requires pos + (a + 1) * Pow2(MAX_BITS - k) + Rest(c, k, g) == SPACE && pos + Pow2(MAX_BITS - w) <= SPACE
    ensures 1 <= j <= g - w
    ensures w == 0 && pos == 0 && mm >= g && el >= g ==> j == g
  {
    hide Rest, Pow2;
    TableSizeFacts(c, k, a, g, w, pos);
    var z := g - w;
    if z > mm {
      z := mm;
    }
    j := k - w;
    var f := Pow2(j);
    if f > a + 1 {
      f := f - (a + 1);
      j := WidenTable(c, k, g, w, z, f, pos == 0);
    }
    if w + j > el && w < el {
      j := el - w;
    }
  }

  lemma TableSizeFacts(c: seq<int>, k: nat, a: nat, g: nat, w: nat, pos: int)
    requires |c| == MAX_BITS + 1 && 1 <= g <= MAX_BITS && (forall l :: 1 <= l <= g ==> c[l] >= 0)
    requires w < k <= g && c[g] > 0
    requires pos + (a + 1) * Pow2(MAX_BITS - k) + Rest(c, k, g) == SPACE && pos + Pow2(MAX_BITS - w) <= SPACE
    ensures k == g ==> Pow2(k - w) <= a + 1
    ensures w == 0 && pos == 0 && Pow2(k) > a + 1 ==> (Pow2(k) - (a + 1)) * Pow2(MAX_BITS - k) == Rest(c, k, g)
    ensures w == 0 && pos == 0 && Pow2(k) <= a + 1 ==> k == g
  {
    hide Rest, Pow2;
    if k == g {
      RestEnd(c, g);
      LastLengthFills(pos, a + 1, g, w);
    }
    if w == 0 && pos == 0 {
      if Pow2(k) > a + 1 {
        RootPatterns(Pow2(k) - (a + 1), k, a + 1, Rest(c, k, g));
      } else {
        RootIsFull(c, k, g, a + 1);
      }
    }
  }

  /** If the codes of one length fill the whole space, there are no longer ones. */
  lemma RootIsFull(c: seq<int>, k: nat, g: nat, n: int)
    requires |c| == MAX_BITS + 1 && k <= g <= MAX_BITS && (forall l :: 1 <= l <= g ==> c[l] >= 0) && c[g] > 0
    requires Pow2(k) <= n && n * Pow2(MAX_BITS - k) + Rest(c, k, g) == SPACE
    ensures k == g
  {
    hide Rest;
    Pow2Add(k, MAX_BITS - k);
    Sixteen();
    RestPositive(c, k, g);
    NonNegative(n - Pow2(k), Pow2(MAX_BITS - k));
    SplitProduct(n - Pow2(k), Pow2(k), Pow2(MAX_BITS - k));
  }

  lemma RootPatterns(f: int, k: nat, n: int, rest: int)
    requires k <= MAX_BITS && f == Pow2(k) - n && n * Pow2(MAX_BITS - k) + rest == SPACE
    ensures f * Pow2(MAX_BITS - k) == rest
  {
    Pow2Add(k, MAX_BITS - k);
    Sixteen();
    SplitProduct(f, n, Pow2(MAX_BITS - k));
  }

  /** The `while (++j < z)` loop: try wider tables until there are enough codes to use up the patterns. */
  method WidenTable(c: seq<int>, k: nat, g: nat, w: nat, z: int, f0: int, ghost root: bool) returns (j: nat)
    requires |c| == MAX_BITS + 1 && 1 <= g <= MAX_BITS && (forall l :: 1 <= l <= g ==> c[l] >= 0) && c[g] > 0
    requires w < k < g && z <= g - w
    requires root && w == 0 ==> f0 * Pow2(MAX_BITS - k) == Rest(c, k, g)
    ensures 1 <= j <= g - w
    ensures root && w == 0 && z == g ==> j == g
  {
    j := k - w;
    var f, xp := f0, k;
    j := j + 1;
    while j < z
      invariant k - w + 1 <= j <= g - w && xp == w + j - 1
      invariant root && w == 0 ==> f * Pow2(MAX_BITS - xp) == Rest(c, xp, g)
      invariant root && w == 0 && z == g ==> j <= z
    {
      xp := xp + 1;
      if root && w == 0 {
        WiderRoot(c, xp, g, f);
      }
      f := 2 * f;
      if f <= c[xp] {
        break;
      }
      f := f - c[xp];
      j := j + 1;
    }
  }

  lemma RestEnd(c: seq<int>, g: nat)
    requires g < |c| && g <= MAX_BITS
    ensures Rest(c, g, g) == 0
  {
  }

  /**
    In the first table, the patterns left are what all longer codes need, so they run out only at the longest length.
   */
  lemma WiderRoot(c: seq<int>, xp: nat, g: nat, half: int)
    requires |c| == MAX_BITS + 1 && 1 <= xp <= g <= MAX_BITS && (forall l :: 1 <= l <= g ==> c[l] >= 0) && c[g] > 0
    requires half * Pow2(MAX_BITS - (xp - 1)) == Rest(c, xp - 1, g)
    ensures (2 * half - c[xp]) * Pow2(MAX_BITS - xp) == Rest(c, xp, g)
    ensures xp < g ==> 2 * half > c[xp]
  {
    RestPositive(c, xp, g);
    WiderStep(half, c[xp], Pow2(MAX_BITS - xp), Rest(c, xp, g));
    if xp < g {
      PositiveFactor(2 * half - c[xp], Pow2(MAX_BITS - xp));
    }
  }

  lemma WiderStep(half: int, n: int, p: int, r: int)
    requires half * (2 * p) == n * p + r
    ensures (2 * half - n) * p == r
  {
  }

  lemma PositiveFactor(a: int, p: int)
    requires 0 < p && 0 < a * p
    ensures 0 < a
  {
    if a <= 0 {
      NonNegative(-a, p);
    }
  }
}
