/** `des_escape` and `des_unescape`: bytes as upper-case hexadecimal digits; reading skips everything else. */
module DesEscape {
  const HEX: string := "0123456789ABCDEF"

  /** `"0123456789ABCDEF".indexOf(c)` */
  function Digit(c: char): (d: int)
    ensures -1 <= d < 16
  {
    if '0' <= c <= '9' then c as int - '0' as int
    else if 'A' <= c <= 'F' then c as int - 'A' as int + 10
    else -1
  }

  /** `des_hexString[d]` */
  function HexChar(d: nat): (c: char)
    requires d < 16
    ensures Digit(c) == d
  {
    HEX[d]
  }

  /** The digit a character is, if it is one. */
  function Head(c: char): seq<int> {
    if Digit(c) == -1 then [] else [Digit(c)]
  }

  ghost predicate IsBytes(val: seq<int>) {
    forall i :: 0 <= i < |val| ==> 0 <= val[i] < 256
  }

  function Escaped(val: seq<int>): string
    requires IsBytes(val)
  {
    if val == [] then []
    else Escaped(val[..|val| - 1]) + [HexChar(val[|val| - 1] / 16), HexChar(val[|val| - 1] % 16)]
  }

  /** The hexadecimal digits of a text, in order. */
  function Digits(text: string): seq<int> {
    if text == [] then []
    else Head(text[0]) + Digits(text[1..])
  }

  /** Two digits a byte. */
  function Pairs(d: seq<int>): seq<int> {
    if |d| < 2 then [] else [16 * d[0] + d[1]] + Pairs(d[2..])
  }

  function Unescaped(text: string): seq<int> {
    Pairs(Digits(text)) + Extra(text)
  }

  /**
    A digit without a partner counts as the high half of a byte if it is the last character, and is dropped otherwise.
   */
  function Extra(text: string): seq<int> {
    var d := Digits(text);
    if |d| % 2 == 1 && Digit(text[|text| - 1]) != -1 then [16 * d[|d| - 1]] else []
  }

  // ---- Round trip ----

  lemma {:induction false} DigitsAppend(s: string, t: string)
    ensures Digits(s + t) == Digits(s) + Digits(t)
  {
    hide Head;
    if s == [] {
      assert s + t == t;
    } else {
      DigitsAppend(s[1..], t);
      assert (s + t)[1..] == s[1..] + t;
      Reassociate(Head(s[0]), Digits(s[1..]), Digits(t));
    }
  }

  lemma {:induction false} PairsAppend(d: seq<int>, a: int, b: int)
    requires |d| % 2 == 0
    ensures Pairs(d + [a, b]) == Pairs(d) + [16 * a + b]
  {
    if d == [] {
      assert d + [a, b] == [a, b] && [a, b][2..] == [];
    } else {
      hide Pairs;
      PairsAppend(d[2..], a, b);
      assert (d + [a, b])[2..] == d[2..] + [a, b];
      FirstPair(d);
      FirstPair(d + [a, b]);
      Reassociate([16 * d[0] + d[1]], Pairs(d[2..]), [16 * a + b]);
    }
  }

  lemma FirstPair(d: seq<int>)
    requires |d| >= 2
    ensures Pairs(d) == [16 * d[0] + d[1]] + Pairs(d[2..])
  {
  }

  lemma OneDigit(c: char)
    ensures Digits([c]) == if Digit(c) == -1 then [] else [Digit(c)]
  {
    assert [c][1..] == [];
  }

  lemma DigitsOfByte(b: int)
    requires 0 <= b < 256
    ensures Digits([HexChar(b / 16), HexChar(b % 16)]) == [b / 16, b % 16]
  {
    hide HexChar;
    OneDigit(HexChar(b / 16));
    OneDigit(HexChar(b % 16));
    DigitsAppend([HexChar(b / 16)], [HexChar(b % 16)]);
  }

  lemma {:induction false} DigitsOfEscaped(val: seq<int>)
    requires IsBytes(val)
    ensures |Digits(Escaped(val))| == 2 * |val| && Pairs(Digits(Escaped(val))) == val
  {
    hide HexChar, Digits;
    if val == [] {
      NoMoreDigits([]);
    } else {
      var n := |val| - 1;
      DigitsOfEscaped(val[..n]);
      DigitsOfByte(val[n]);
      DigitsAppend(Escaped(val[..n]), [HexChar(val[n] / 16), HexChar(val[n] % 16)]);
      PairsAppend(Digits(Escaped(val[..n])), val[n] / 16, val[n] % 16);
    }
  }

  /** Reading back what was written, even with other characters put in between. */
  lemma EscapeRoundTrip(val: seq<int>, text: string)
    requires IsBytes(val) && Digits(text) == Digits(Escaped(val))
    ensures Unescaped(text) == val
  {
    hide Digit, Digits, Escaped;
    DigitsOfEscaped(val);
    assert val + [] == val;
  }

  // ---- The code ----

  method Escape(val: seq<int>) returns (out: string)
    requires IsBytes(val)
    ensures out == Escaped(val)
  {
    out := "";
    var i := 0;
    while i < |val|
      invariant 0 <= i <= |val| && out == Escaped(val[..i])
    {
      var c := val[i];
      assert val[..i + 1][..i] == val[..i];
      out := out + [HexChar(c / 16)];
      out := out + [HexChar(c % 16)];
      i := i + 1;
    }
    assert val[..|val|] == val;
  }

  lemma DigitsFrom(text: string, i: nat)
    requires i < |text|
    ensures Digits(text[i..]) == Head(text[i]) + Digits(text[i + 1..])
  {
    hide Head;
    assert text[i..][1..] == text[i + 1..];
  }

  /** `do { c = HEX.indexOf(val.substr(i++, 1)) } while (c == -1 && i < len)`; past the end `indexOf("")` is 0. */
  method Scan(text: string, i0: nat) returns (c: int, i: nat)
    requires i0 <= |text|
    ensures i0 == |text| ==> c == 0 && i == |text| + 1
    ensures i0 < |text| && c == -1 ==> Digits(text[i0..]) == []
    ensures i0 < |text| && c != -1 ==>
      i0 < i <= |text| && 0 <= c && c == Digit(text[i - 1]) && Digits(text[i0..]) == [c] + Digits(text[i..])
  {
    hide Digit, Digits;
    i := i0;
    if i == |text| {
      return 0, i + 1;
    }
    DigitsFrom(text, i);
    c := Digit(text[i]);
    i := i + 1;
    while c == -1 && i < |text|
      invariant i0 < i <= |text| && c == Digit(text[i - 1])
      invariant Digits(text[i0..]) == (if c == -1 then [] else [c]) + Digits(text[i..])
    {
      DigitsFrom(text, i);
      c := Digit(text[i]);
      i := i + 1;
    }
    if c == -1 {
      NoMoreDigits(text[i..]);
    }
  }

  lemma NoMoreDigits(s: string)
    requires s == []
    ensures Digits(s) == []
  {
  }

  method Unescape(text: string) returns (out: seq<int>)
    ensures out == Unescaped(text)
  {
    hide Unescaped, Digits, Digit;
    out := [];
    var i := 0;
    assert text[0..] == text;
    NoDigits([]);
    while i < |text|
      invariant 0 <= i <= |text| && out + Unescaped(text[i..]) == Unescaped(text)
      decreases |text| - i
    {
      ghost var s := text[i..];
      var c1, c2, k, next;
      c1, k := Scan(text, i);
      if c1 == -1 {
        NoDigits(s);
        return;
      }
      c2, next := Scan(text, k);
      if c2 == -1 {
        SplitText(text, i, k);
        LoneDigit(s, text[k..], c1);
        return;
      }
      if k == |text| {
        LastDigit(s, c1);
        out := out + [16 * c1 + c2];
        return;
      }
      SplitText(text, i, next);
      TwoDigits(s, text[next..], c1, c2);
      out := out + [16 * c1 + c2];
      i := next;
    }
    NoDigits(text[i..]);
  }

  lemma SplitText(text: string, i: nat, k: nat)
    requires i <= k <= |text|
    ensures text[i..] == text[i..k] + text[k..]
  {
  }

  lemma NoDigits(s: string)
    requires s == [] || Digits(s) == []
    ensures Unescaped(s) == []
  {
    hide Digit;
  }

  /** A digit that is the last character. */
  lemma LastDigit(s: string, a: int)
    requires s != [] && a == Digit(s[|s| - 1]) != -1 && Digits(s) == [a] + Digits([])
    ensures Unescaped(s) == [16 * a + 0]
  {
    hide Digit;
  }

  /** A single digit with other characters after it. */
  lemma LoneDigit(s: string, t: string, a: int)
    requires t != [] && |t| <= |s| && s[|s| - |t|..] == t && Digits(s) == [a] + Digits(t) && Digits(t) == []
    ensures Unescaped(s) == []
  {
    hide Digit;
    LastIsNoDigit(t);
    assert s[|s| - 1] == t[|t| - 1];
  }

  lemma TwoDigits(s: string, t: string, a: int, b: int)
    requires |t| < |s| && s[|s| - |t|..] == t && Digits(s) == [a] + ([b] + Digits(t))
    ensures Unescaped(s) == [16 * a + b] + Unescaped(t)
  {
    hide Pairs, Extra, Digits;
    var d, e := Digits(s), Digits(t);
    TwoInFront(d, a, b, e);
    PairsOf(a, b, e);
    SameExtra(s, t);
    Reassociate([16 * a + b], Pairs(e), Extra(t));
  }

  lemma TwoInFront(d: seq<int>, a: int, b: int, e: seq<int>)
    requires d == [a] + ([b] + e)
    ensures d == [a, b] + e && d[2..] == e
  {
  }

  lemma Reassociate(x: seq<int>, y: seq<int>, z: seq<int>)
    ensures x + (y + z) == (x + y) + z
  {
  }

  lemma PairsOf(a: int, b: int, e: seq<int>)
    ensures Pairs([a, b] + e) == [16 * a + b] + Pairs(e)
  {
    assert ([a, b] + e)[2..] == e;
  }

  lemma SameExtra(s: string, t: string)
    requires |t| < |s| && s[|s| - |t|..] == t && |Digits(s)| == |Digits(t)| + 2 && Digits(s)[2..] == Digits(t)
    ensures Extra(s) == Extra(t)
  {
    hide Digit, Digits;
    NoMoreDigits([]);
    var d, e := Digits(s), Digits(t);
    if |e| % 2 == 1 {
      assert s[|s| - 1] == t[|t| - 1];
      assert d[2..][|e| - 1] == d[|e| + 1];
    }
  }

  /** Without digits, the last character is none. */
  lemma LastIsNoDigit(t: string)
    requires t != [] && Digits(t) == []
    ensures Digit(t[|t| - 1]) == -1
  {
    hide Digit, Digits;
    var n := |t| - 1;
    OneDigit(t[n]);
    DigitsAppend(t[..n], [t[n]]);
    assert t == t[..n] + [t[n]];
  }

  // ---- The form ----

  /** Digit `d` is the character at its place, and no other character is a digit: lower-case letters are skipped. */
  lemma HexCharacters(d: nat, c: char)
    requires d < 16
    ensures HexChar(d) == "0123456789ABCDEF"[d]
    ensures Digit(c) >= 0 <==> '0' <= c <= '9' || 'A' <= c <= 'F'
    ensures Digit(c) >= 0 ==> HexChar(Digit(c)) == c
  {
  }

  /** Byte `k` is written at `2 * k`, its high digit first. */
  lemma {:induction false} EscapedAt(val: seq<int>, k: nat)
    requires IsBytes(val) && k < |val|
    ensures |Escaped(val)| == 2 * |val|
    ensures Escaped(val)[2 * k] == HexChar(val[k] / 16) && Escaped(val)[2 * k + 1] == HexChar(val[k] % 16)
  {
    hide HexChar;
    var n := |val| - 1;
    if n > 0 {
      EscapedAt(val[..n], if k < n then k else 0);
    }
  }
}
