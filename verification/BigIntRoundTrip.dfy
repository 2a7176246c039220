/** Printing a number and parsing the text gives the number back. */
module BigIntRoundTrip {
  import opened Options
  import opened Digits
  import opened Numerals
  import opened BigInts
  import opened BigIntDivMod
  import opened BigIntText

  /** The base to pass to the parser for a text in `base`: none is needed for decimal. */
  predicate PassedFor(passed: int, base: int) {
    PrintBase(base) && (passed == base || (base == 10 && passed == 0))
  }

  lemma {:induction false} WholeRun(s: string, base: int)
    requires AllDigits(s, base)
    ensures DigitRun(s, base) == s
  {
    if s != "" {
      assert AllDigits(s[1..], base);
      WholeRun(s[1..], base);
      assert s == [s[0]] + s[1..];
    }
  }

  /** A canonical numeral has no prefix and decides the base as intended. */
  lemma CanonicalReads(body: string, base: int, passed: int)
    requires PassedFor(passed, base) && Canonical(body, base)
    ensures EffectiveBase(body, passed) == base && DropPrefix(body, base) == body
    ensures body[0] != '@' && body[0] != '-' && body[0] != '+'
  {
    assert IsDigitOf(body[0], base);
  }

  /**
    Every text the printer promises means the number it was printed from; zero comes back positive, and not at all
    when it was printed from two or more zero digits.
   */
  lemma PrintThenInterpret(s: string, sign: bool, mag: int, len: nat, base: int, passed: int)
    requires PassedFor(passed, base) && 0 <= mag && IsTextOf(s, sign, mag, len, base)
    ensures Interpret(s, passed) == if mag == 0 && len > 1 then None else Some(Literal(sign || mag == 0, mag))
  {
    hide Denotes, EffectiveBase, DropPrefix, DigitRun, Canonical;
    if mag != 0 {
      var body := if sign then s else s[1..];
      CanonicalReads(body, base, passed);
      CanonicalIsDigits(body, base);
      WholeRun(body, base);
    } else if len <= 1 {
      ZeroReads(passed, base);
    }
  }

  lemma CanonicalIsDigits(s: string, base: int)
    requires Canonical(s, base)
    ensures AllDigits(s, base) && s != ""
  {
  }

  lemma ZeroReads(passed: int, base: int)
    requires PassedFor(passed, base)
    ensures Interpret("0", passed) == Some(Literal(true, 0))
  {
    var b := EffectiveBase("0", passed);
    assert DropPrefix("0", b) == "0" && "0"[1..] == "";
    assert DigitRun("0", b) == ['0'] + DigitRun("", b) == "0";
    DenotesCons('0', "", b);
    assert ['0'] + "" == "0";
  }

  /** Without leading zeros, equal values have equal digits. */
  lemma NormalUnique(s: seq<int>, t: seq<int>)
    requires IsDigits(s) && IsDigits(t) && Val(s) == Val(t)
    requires (s == [] || s[|s| - 1] != 0) && (t == [] || t[|t| - 1] != 0)
    ensures s == t
  {
    if |s| < |t| {
      EarlyIsSmaller(s, t);
    } else if |t| < |s| {
      EarlyIsSmaller(t, s);
    } else {
      ValInjective(s, t);
    }
  }

  /** `bigint_from_string(x.toStringBase(base), base)` is x again: same sign, same digits. */
  method RoundTrip(x: BigInt, base: int, passed: int) returns (y: BigInt)
    requires x.Valid() && x.Normal() && PassedFor(passed, base)
    ensures fresh(y) && y.Valid() && y.Normal()
    ensures y.digits[..y.len] == x.digits[..x.len]
    ensures y.sign == (x.sign || x.len == 0)
  {
    hide Val, Interpret, IsTextOf;
    var s := ToStringBase(x, base);
    if x.len > 0 {
      AtLeastTopPower(x.digits[..x.len]);
    } else {
      assert x.digits[..0] == [];
      ValEmpty();
    }
    ValBound(x.digits[..x.len]);
    PrintThenInterpret(s, x.sign, x.Mag(), x.len, base, passed);
    var z := FromString(s, passed);
    y := z.value;
    NormalUnique(x.digits[..x.len], y.digits[..y.len]);
  }
}
