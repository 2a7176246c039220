/** Positional numerals in bases up to 16, most significant digit first. */
module Numerals {
  import opened Digits

  const DIGIT_CHARS := "0123456789abcdef"

  /** The digit a character stands for in either letter case, or 16 when it stands for none. */
  function DigitValue(c: char): (d: int)
    ensures 0 <= d <= 16
  {
    if '0' <= c <= '9' then c as int - '0' as int
    else if 'a' <= c <= 'f' then c as int - 'a' as int + 10
    else if 'A' <= c <= 'F' then c as int - 'A' as int + 10
    else 16
  }

  predicate IsDigitOf(c: char, base: int) {
    DigitValue(c) < base
  }

  ghost predicate AllDigits(s: string, base: int) {
    forall k :: 0 <= k < |s| ==> IsDigitOf(s[k], base)
  }

  /** The integer a digit string denotes, read from left to right. */
  function Denotes(s: string, base: nat): (n: int) {
    if s == "" then 0 else Denotes(s[..|s| - 1], base) * base + DigitValue(s[|s| - 1])
  }

  /** The digits `s` starts with. */
  function DigitRun(s: string, base: int): (r: string)
    ensures r <= s && AllDigits(r, base)
    ensures |r| < |s| ==> !IsDigitOf(s[|r|], base)
  {
    if s == "" || !IsDigitOf(s[0], base) then "" else [s[0]] + DigitRun(s[1..], base)
  }

  /** A numeral without leading zeros. */
  ghost predicate Canonical(s: string, base: int) {
    s != "" && AllDigits(s, base) && s[0] != '0'
  }

  lemma DigitCharValue(d: int)
    requires 0 <= d < 16
    ensures DigitValue(DIGIT_CHARS[d]) == d && (d != 0 ==> DIGIT_CHARS[d] != '0')
  {
  }

  lemma DenotesSnoc(s: string, c: char, base: nat)
    ensures Denotes(s + [c], base) == Denotes(s, base) * base + DigitValue(c)
  {
    assert (s + [c])[..|s|] == s;
  }

  /** A digit put in front weighs base to the number of digits behind it. */
  lemma {:induction false} DenotesCons(c: char, s: string, base: nat)
    ensures Denotes([c] + s, base) == DigitValue(c) * Pow(base, |s|) + Denotes(s, base)
  {
    if s == "" {
      assert ([c] + s)[..0] == "";
    } else {
      var n := |s| - 1;
      DenotesCons(c, s[..n], base);
      assert ([c] + s)[..n + 1] == [c] + s[..n];
      PowStep(base, n);
      Regroup(DigitValue(c), Pow(base, n), Denotes(s[..n], base), base);
    }
  }

  lemma Regroup(c: int, p: int, v: int, b: int)
    ensures (c * p + v) * b == c * (b * p) + v * b
  {
    MulAdd(b, c * p, v);
    MulAssoc(c, p, b);
  }

  lemma {:induction false} DenotesBound(s: string, base: nat)
    requires 0 < base && AllDigits(s, base)
    ensures 0 <= Denotes(s, base) < Pow(base, |s|)
  {
    if s != "" {
      var n := |s| - 1;
      DenotesBound(s[..n], base);
      PowStep(base, n);
      assert IsDigitOf(s[n], base);
      SnocBound(Denotes(s[..n], base), DigitValue(s[n]), base, Pow(base, n));
    }
  }

  lemma SnocBound(v: int, d: int, base: int, p: int)
    requires 0 <= d < base && 0 <= v < p
    ensures 0 <= v * base + d < base * p
  {
    MulLe(v + 1, p, base);
    MulLe(0, v, base);
  }

  /** Leading zeros do not count. */
  lemma {:induction false} DenotesSkipZeros(s: string, k: nat, base: nat)
    requires k <= |s| && forall m :: 0 <= m < k ==> s[m] == '0'
    ensures Denotes(s, base) == Denotes(s[k..], base)
  {
    if k == 0 {
      assert s[0..] == s;
    } else {
      assert s == ['0'] + s[1..];
      DenotesCons('0', s[1..], base);
      DenotesSkipZeros(s[1..], k - 1, base);
      assert s[1..][k - 1..] == s[k..];
    }
  }

  /** Canonical numerals with lower-case digits are determined by what they denote. */
  lemma CanonicalUnique(s: string, t: string, base: nat)
    requires 1 < base <= 16 && Canonical(s, base) && Canonical(t, base) && LowerCase(s) && LowerCase(t)
    requires Denotes(s, base) == Denotes(t, base)
    ensures s == t
  {
    CanonicalAtLeast(s, base);
    CanonicalAtLeast(t, base);
    DenotesBound(s, base);
    DenotesBound(t, base);
    if |s| < |t| {
      PowMonotone(base, |s|, |t| - 1);
    } else if |t| < |s| {
      PowMonotone(base, |t|, |s| - 1);
    } else {
      SameLengthUnique(s, t, base);
    }
  }

  ghost predicate LowerCase(s: string) {
    forall k :: 0 <= k < |s| ==> !('A' <= s[k] <= 'F')
  }

  lemma CanonicalAtLeast(s: string, base: nat)
    requires 1 < base && Canonical(s, base)
    ensures Pow(base, |s| - 1) <= Denotes(s, base)
  {
    assert s == [s[0]] + s[1..];
    DenotesCons(s[0], s[1..], base);
    assert AllDigits(s[1..], base);
    DenotesBound(s[1..], base);
    PowPositive(base, |s| - 1);
    MulLe(1, DigitValue(s[0]), Pow(base, |s| - 1));
  }

  lemma {:induction false} SameLengthUnique(s: string, t: string, base: nat)
    requires 1 < base <= 16 && AllDigits(s, base) && AllDigits(t, base) && |s| == |t| && LowerCase(s) && LowerCase(t)
    requires Denotes(s, base) == Denotes(t, base)
    ensures s == t
  {
    hide DigitValue;
    if s != "" {
      var n := |s| - 1;
      assert IsDigitOf(s[n], base) && IsDigitOf(t[n], base);
      SameQuotient(Denotes(s[..n], base), Denotes(t[..n], base), DigitValue(s[n]), DigitValue(t[n]), base);
      SameDigit(s[n], t[n]);
      SameLengthUnique(s[..n], t[..n], base);
      assert s == s[..n] + [s[n]] && t == t[..n] + [t[n]];
    }
  }

  lemma SameDigit(c: char, d: char)
    requires DigitValue(c) == DigitValue(d) < 16 && !('A' <= c <= 'F') && !('A' <= d <= 'F')
    ensures c == d
  {
  }

  lemma SameQuotient(a: int, b: int, c: int, d: int, base: int)
    requires 0 <= c < base && 0 <= d < base && a * base + c == b * base + d
    ensures a == b && c == d
  {
    if a < b {
      MulLe(a + 1, b, base);
    }
    if b < a {
      MulLe(b + 1, a, base);
    }
  }
}
