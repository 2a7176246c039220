/**
  The number theory behind long division (Knuth, The Art of Computer Programming,
  volume 2, section 4.3.1): how far a trial quotient digit can be off.
 */
module TrialDigits {
  import opened Digits

  /** The scale factor of the code, `65536 / (v + 1)` rounded down, for a top divisor digit `v`. */
  function ScaleFactor(v: int): int
    requires 0 < v < BASE
  {
    0x1_0000 / (v + 1)
  }

  /** Scaling brings the top divisor digit to at least half the base without overflowing it. */
  lemma ScaleFactorNormalizes(v: int)
    requires 0 < v < BASE
    ensures 1 <= ScaleFactor(v) <= 0x8000
    ensures v * ScaleFactor(v) >= 0x8000
    ensures (v + 1) * ScaleFactor(v) <= 0x1_0000
  {
    var d := ScaleFactor(v);
    var r := 0x1_0000 % (v + 1);
    assert 0x1_0000 == (v + 1) * d + r;
    MulAdd(d, v, 1);
    if d > 0x8000 {
      MulLe(2, v + 1, d);
    }
    if v < 0x8000 {
      HalfBound(v, d);
    } else {
      MulLe(1, d, v);
    }
  }

  /** v*d + d + v >= 2^16 with v >= 1 and d >= 1 forces v*d >= 2^15, because (v - 1) * (d - 1) >= 0. */
  lemma HalfBound(v: int, d: int)
    requires 1 <= v && 1 <= d && v * d + d + v >= 0x1_0000
    ensures v * d >= 0x8000
  {
    MulLe(0, d - 1, v - 1);
    assert (v - 1) * (d - 1) == v * d - d - v + 1;
  }

  /** The estimate of the code for a window whose top two digits are `zt`, `zu`, over a divisor with top digit `v`. */
  function Trial(zt: int, zu: int, v: int): int
    requires v > 0
  {
    if zt == v then 0xffff else (zt * 0x1_0000 + zu) / v
  }

  /**
    A window `w` and a divisor `y`, each split at weight `p` into the digits the
    estimate looks at and a rest; `w` is less than the base times `y`.
   */
  ghost predicate Window(w: int, y: int, p: int, zt: int, zu: int, v: int) {
    && 0x8000 <= v < 0x1_0000 && 0 <= zt < 0x1_0000 && 0 <= zu < 0x1_0000
    && v * p <= y < (v + 1) * p
    && (zt * 0x1_0000 + zu) * p <= w < (zt * 0x1_0000 + zu + 1) * p
    && 0 <= w < 0x1_0000 * y
    && 0 < p
  }

  lemma TopAtMost(w: int, y: int, p: int, zt: int, zu: int, v: int)
    requires Window(w, y, p, zt, zu, v)
    ensures zt <= v
  {
    if zt >= v + 1 {
      MulLe(0x1_0000 * (v + 1), zt * 0x1_0000 + zu, p);
      MulAssoc(0x1_0000, v + 1, p);
    }
  }

  /** The estimate fits in a digit, so masking it with 0xffff changes nothing. */
  lemma TrialInRange(zt: int, zu: int, v: int)
    requires 0 < v < 0x1_0000 && 0 <= zt <= v && 0 <= zu < 0x1_0000
    ensures 0 <= Trial(zt, zu, v) <= 0xffff
    ensures Trial(zt, zu, v) * v <= zt * 0x1_0000 + zu
    ensures zt < v ==> zt * 0x1_0000 + zu < (Trial(zt, zu, v) + 1) * v
  {
    if zt < v {
      var u := zt * 0x1_0000 + zu;
      var q := u / v;
      assert u == v * q + u % v;
      MulAdd(v, q, 1);
      if q > 0xffff {
        MulLe(0x1_0000, q, v);
      }
      if q < 0 {
        MulLe(q, -1, v);
      }
    }
  }

  /** The estimate is never below the true digit `t`. */
  lemma TrialNotBelow(w: int, y: int, p: int, zt: int, zu: int, v: int, t: int)
    requires Window(w, y, p, zt, zu, v) && t * y <= w
    ensures t <= Trial(zt, zu, v)
  {
    TopAtMost(w, y, p, zt, zu, v);
    TrialInRange(zt, zu, v);
    var q := Trial(zt, zu, v);
    if t > q {
      MulLe(0, v * p, 1);
      MulLe(q + 1, t, y);
      if zt < v {
        MulLe(zt * 0x1_0000 + zu + 1, (q + 1) * v, p);
        MulAssoc(q + 1, v, p);
        MulLe(v * p, y, q + 1);
      }
    }
  }

  /** The estimate is at most two above the true digit: `t + 1` divisors already exceed the window. */
  lemma TrialAtMostTwoAbove(w: int, y: int, p: int, zt: int, zu: int, v: int, t: int)
    requires Window(w, y, p, zt, zu, v) && w < (t + 1) * y
    ensures Trial(zt, zu, v) <= t + 2
  {
    TopAtMost(w, y, p, zt, zu, v);
    TrialInRange(zt, zu, v);
    var q := Trial(zt, zu, v);
    if q >= t + 3 {
      PositiveProduct(v, p);
      MulLe(t + 1, q - 2, y);
      assert q >= 2 by {
        if q < 2 {
          MulLe(t + 1, 0, y);
        }
      }
      MulLe(y, (v + 1) * p, q - 2);
      MulAssoc(q - 2, v + 1, p);
      assert (q - 2) * (v + 1) == q * v + q - 2 * v - 2;
      MulLe((q - 2) * (v + 1), zt * 0x1_0000 + zu, p);
    }
  }

  lemma PositiveProduct(a: int, b: int)
    requires 0 < a && 0 < b
    ensures 0 < a * b
  {
  }

  /** Subtracting the estimated multiple borrows at most once: the difference stays above -BASE * p. */
  lemma BorrowsAtMostOnce(w: int, y: int, p: int, zt: int, zu: int, v: int)
    requires Window(w, y, p, zt, zu, v)
    ensures w - Trial(zt, zu, v) * y > -(0x1_0000 * p)
  {
    TopAtMost(w, y, p, zt, zu, v);
    TrialInRange(zt, zu, v);
    var q := Trial(zt, zu, v);
    MulAdd(p, v, 1);
    var yl := y - v * p;
    MulAdd(q, v * p, yl);
    MulAssoc(q, v, p);
    MulLe(q * v, zt * 0x1_0000 + zu, p);
    MulLe(yl, p, q);
    MulLe(q, 0xffff, p);
  }
}
