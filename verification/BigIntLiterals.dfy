/** What the texts mean that `bigint_from_string` reads: signs, prefixes and digits. */
module BigIntLiterals {
  import opened Options
  import opened Numerals
  import opened BigIntText
  import opened BigIntRoundTrip

  /** The digits are 0 to 9 and a to f in either case, for 0 to 15; no other character is a digit. */
  lemma DigitLetters(d: nat, c: char)
    ensures d < 10 ==> DigitValue("0123456789"[d]) == d
    ensures d < 6 ==> DigitValue("abcdef"[d]) == 10 + d && DigitValue("ABCDEF"[d]) == 10 + d
    ensures DigitValue(c) < 16 <==> '0' <= c <= '9' || 'a' <= c <= 'f' || 'A' <= c <= 'F'
    ensures d < 10 ==> DIGIT_CHARS[d] == "0123456789"[d]
    ensures 10 <= d < 16 ==> DIGIT_CHARS[d] == "abcdef"[d - 10]
  {
  }

  /** `0x` or `0X` and hexadecimal digits, without a base or with base 16. */
  lemma HexLiteral(digits: string, x: char, base: int)
    requires digits != "" && AllDigits(digits, 16) && (x == 'x' || x == 'X') && (base == 0 || base == 16)
    ensures Interpret("0" + [x] + digits, base) == Some(Literal(true, Denotes(digits, 16)))
  {
    hide Denotes, DigitRun;
    var s := "0" + [x] + digits;
    assert s[2..] == digits;
    WholeRun(digits, 16);
  }

  /** `0b` or `0B` and binary digits, without a base or with base 2. */
  lemma BinaryLiteral(digits: string, b: char, base: int)
    requires digits != "" && AllDigits(digits, 2) && (b == 'b' || b == 'B') && (base == 0 || base == 2)
    ensures Interpret("0" + [b] + digits, base) == Some(Literal(true, Denotes(digits, 2)))
  {
    hide Denotes, DigitRun;
    var s := "0" + [b] + digits;
    assert s[2..] == digits;
    WholeRun(digits, 2);
  }

  /** A leading 0 makes it octal. */
  lemma OctalLiteral(digits: string)
    requires AllDigits(digits, 8)
    ensures Interpret("0" + digits, 0) == Some(Literal(true, Denotes(digits, 8)))
  {
    hide Denotes, DigitRun;
    var s := "0" + digits;
    WholeRun(s, 8);
    DenotesSkipZeros(s, 1, 8);
    assert s[1..] == digits;
  }

  /** Otherwise it is decimal. */
  lemma DecimalLiteral(digits: string)
    requires digits != "" && AllDigits(digits, 10) && digits[0] != '0'
    ensures Interpret(digits, 0) == Some(Literal(true, Denotes(digits, 10)))
  {
    hide Denotes, DigitRun;
    WholeRun(digits, 10);
  }

  /** A minus sign turns the sign, a plus sign changes nothing. */
  lemma SignedLiteral(text: string, base: int)
    requires ParseBase(base) && text != "" && text[0] != '-' && text[0] != '+'
    ensures Interpret("+" + text, base) == Interpret(text, base)
    ensures Interpret("-" + text, base)
         == match Interpret(text, base)
            case None => None
            case Some(l) => Some(Literal(!l.sign, l.mag))
  {
    hide Denotes, DigitRun, EffectiveBase, DropPrefix;
    assert ("+" + text)[1..] == text && ("-" + text)[1..] == text;
  }

  /** The first character that is no digit of the base ends the number. */
  lemma {:induction false} LiteralEnds(digits: string, rest: string, base: nat)
    requires AllDigits(digits, base) && (rest == "" || !IsDigitOf(rest[0], base))
    ensures DigitRun(digits + rest, base) == digits
  {
    if digits == "" {
      assert digits + rest == rest;
    } else {
      assert AllDigits(digits[1..], base);
      LiteralEnds(digits[1..], rest, base);
      assert (digits + rest)[1..] == digits[1..] + rest;
    }
  }
}
