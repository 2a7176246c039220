/** manager/js/base64.js. Strings are sequences of character codes. */
module Base64 {
  import Digits

  ghost predicate IsBytes(s: seq<int>) {
    forall i :: 0 <= i < |s| ==> 0 <= s[i] < 256
  }

  const EQUALS := 61

  /** `base64EncodeChars.charAt(v)` */
  function EncodeChar(v: int): (c: int)
    requires 0 <= v < 64
    ensures 0 <= c < 128 && c != EQUALS
  {
    if v < 26 then 65 + v
    else if v < 52 then 97 + (v - 26)
    else if v < 62 then 48 + (v - 52)
    else if v == 62 then 43
    else 47
  }

  /** `base64DecodeChars[c]` for a code below 256; there is no entry from 128 on, and `undefined` counts as 0. */
  function DecodeChar(c: int): (v: int)
    ensures -1 <= v < 64
  {
    if 65 <= c <= 90 then c - 65
    else if 97 <= c <= 122 then c - 97 + 26
    else if 48 <= c <= 57 then c - 48 + 52
    else if c == 43 then 62
    else if c == 47 then 63
    else if c >= 128 then 0
    else -1
  }

  lemma DecodeEncode(v: int)
    requires 0 <= v < 64
    ensures DecodeChar(EncodeChar(v)) == v && EncodeChar(v) % 256 == EncodeChar(v)
  {
  }

  // ---- What encoding and decoding compute ----

  /** The characters for the last one or two bytes, and for three. */
  function One(a: int): seq<int>
    requires 0 <= a < 256
  {
    [EncodeChar(a / 4), EncodeChar(a % 4 * 16), EQUALS, EQUALS]
  }

  function Two(a: int, b: int): seq<int>
    requires 0 <= a < 256 && 0 <= b < 256
  {
    [EncodeChar(a / 4), EncodeChar(a % 4 * 16 + b / 16), EncodeChar(b % 16 * 4), EQUALS]
  }

  function Three(a: int, b: int, c: int): seq<int>
    requires 0 <= a < 256 && 0 <= b < 256 && 0 <= c < 256
  {
    [EncodeChar(a / 4), EncodeChar(a % 4 * 16 + b / 16), EncodeChar(b % 16 * 4 + c / 64), EncodeChar(c % 64)]
  }

  function Encoded(s: seq<int>): seq<int> {
    if s == [] then []
    else if |s| == 1 then One(s[0] % 256)
    else if |s| == 2 then Two(s[0] % 256, s[1] % 256)
    else Three(s[0] % 256, s[1] % 256, s[2] % 256) + Encoded(s[3..])
  }

  /** The byte that sextet number `have` of a group completes, if any. */
  function Completed(have: nat, prev: int, v: int): (b: seq<int>)
    requires have < 4
    ensures |b| <= 1
  {
    if have == 0 then []
    else if have == 1 then [prev * 4 + v / 16]
    else if have == 2 then [prev % 16 * 16 + v / 4]
    else [prev % 4 * 64 + v]
  }

  /** Decoding with `have` sextets of a group read, the last one being `prev`. */
  function Decoded(t: seq<int>, have: nat, prev: int): seq<int>
    requires have < 4 && 0 <= prev < 64
  {
    if t == [] then []
    else
      var c := t[0] % 256;
      if have >= 2 && c == EQUALS then []
      else
        var v := DecodeChar(c);
        if v == -1 then Decoded(t[1..], have, prev)
        else Completed(have, prev, v) + Decoded(t[1..], (have + 1) % 4, if have == 3 then 0 else v)
  }

  // ---- Round trip ----

  /** One sextet of a text. */
  lemma ReadSextet(v: int, t: seq<int>, have: nat, prev: int)
    requires 0 <= v < 64 && have < 4 && 0 <= prev < 64
    ensures Decoded([EncodeChar(v)] + t, have, prev)
         == Completed(have, prev, v) + Decoded(t, (have + 1) % 4, if have == 3 then 0 else v)
  {
    hide EncodeChar, DecodeChar, Completed;
    DecodeEncode(v);
    assert ([EncodeChar(v)] + t)[1..] == t;
  }

  lemma ReadPad(t: seq<int>, have: nat, prev: int)
    requires 2 <= have < 4 && 0 <= prev < 64
    ensures Decoded([EQUALS] + t, have, prev) == []
  {
    hide DecodeChar, Completed;
    assert ([EQUALS] + t)[0] % 256 == EQUALS;
  }

  lemma ReadGroup(a: int, b: int, c: int, t: seq<int>)
    requires 0 <= a < 256 && 0 <= b < 256 && 0 <= c < 256
    ensures Decoded(Three(a, b, c) + t, 0, 0) == [a, b, c] + Decoded(t, 0, 0)
  {
    hide EncodeChar, Decoded;
    var v1, v2, v3, v4 := a / 4, a % 4 * 16 + b / 16, b % 16 * 4 + c / 64, c % 64;
    var t4 := [EncodeChar(v4)] + t;
    var t3 := [EncodeChar(v3)] + t4;
    var t2 := [EncodeChar(v2)] + t3;
    assert Three(a, b, c) + t == [EncodeChar(v1)] + t2;
    ReadSextet(v1, t2, 0, 0);
    ReadSextet(v2, t3, 1, v1);
    ReadSextet(v3, t4, 2, v2);
    ReadSextet(v4, t, 3, v3);
    Bytes(a, b, c);
    assert [a] + ([b] + ([c] + Decoded(t, 0, 0))) == [a, b, c] + Decoded(t, 0, 0);
  }

  lemma Bytes(a: int, b: int, c: int)
    requires 0 <= a < 256 && 0 <= b < 256 && 0 <= c < 256
    ensures a / 4 * 4 + (a % 4 * 16 + b / 16) / 16 == a
    ensures (a % 4 * 16 + b / 16) % 16 * 16 + (b % 16 * 4 + c / 64) / 4 == b
    ensures (b % 16 * 4 + c / 64) % 4 * 64 + c % 64 == c
  {
  }

  lemma LastOne(a: int)
    requires 0 <= a < 256
    ensures Decoded(One(a), 0, 0) == [a]
  {
    hide EncodeChar, Decoded;
    var t2 := [EncodeChar(a % 4 * 16)] + [EQUALS, EQUALS];
    assert One(a) == [EncodeChar(a / 4)] + t2;
    ReadSextet(a / 4, t2, 0, 0);
    ReadSextet(a % 4 * 16, [EQUALS, EQUALS], 1, a / 4);
    assert [EQUALS, EQUALS] == [EQUALS] + [EQUALS];
    ReadPad([EQUALS], 2, a % 4 * 16);
    Bytes(a, 0, 0);
  }

  lemma LastTwo(a: int, b: int)
    requires 0 <= a < 256 && 0 <= b < 256
    ensures Decoded(Two(a, b), 0, 0) == [a, b]
  {
    hide EncodeChar, Decoded;
    var t3 := [EncodeChar(b % 16 * 4)] + [EQUALS];
    var t2 := [EncodeChar(a % 4 * 16 + b / 16)] + t3;
    assert Two(a, b) == [EncodeChar(a / 4)] + t2;
    ReadSextet(a / 4, t2, 0, 0);
    ReadSextet(a % 4 * 16 + b / 16, t3, 1, a / 4);
    ReadSextet(b % 16 * 4, [EQUALS], 2, a % 4 * 16 + b / 16);
    assert [EQUALS] == [EQUALS] + [];
    ReadPad([], 3, b % 16 * 4);
    Bytes(a, b, 0);
  }

  lemma FirstThree(s: seq<int>)
    requires |s| >= 3
    ensures [s[0], s[1], s[2]] + s[3..] == s
  {
  }

  lemma SmallByte(c: int)
    requires 0 <= c < 256
    ensures c % 256 == c
  {
  }

  lemma {:induction false} Base64RoundTrip(s: seq<int>)
    requires IsBytes(s)
    ensures Decoded(Encoded(s), 0, 0) == s
    decreases |s|
  {
    hide One, Two, Three, Decoded;
    if s == [] {
      NothingDecoded(0, 0);
    } else if |s| == 1 {
      SmallByte(s[0]);
      LastOne(s[0]);
    } else if |s| == 2 {
      SmallByte(s[0]);
      SmallByte(s[1]);
      LastTwo(s[0], s[1]);
    } else {
      SmallByte(s[0]);
      SmallByte(s[1]);
      SmallByte(s[2]);
      ReadGroup(s[0], s[1], s[2], Encoded(s[3..]));
      Base64RoundTrip(s[3..]);
      FirstThree(s);
    }
  }

  lemma NothingDecoded(have: nat, prev: int)
    requires have < 4 && 0 <= prev < 64
    ensures Decoded([], have, prev) == []
  {
  }

  /** ASCII characters that are neither in the alphabet nor `=`, such as line ends. */
  predicate Ignored(c: int) {
    0 <= c < 128 && DecodeChar(c) == -1 && c != EQUALS
  }

  function Clean(t: seq<int>): seq<int> {
    if t == [] then [] else (if Ignored(t[0]) then [] else [t[0]]) + Clean(t[1..])
  }

  /** One character of a text. */
  lemma DecodedStep(c: int, t: seq<int>, have: nat, prev: int)
    requires have < 4 && 0 <= prev < 64
    ensures have >= 2 && c % 256 == EQUALS ==> Decoded([c] + t, have, prev) == []
    ensures !(have >= 2 && c % 256 == EQUALS) && DecodeChar(c % 256) == -1 ==>
      Decoded([c] + t, have, prev) == Decoded(t, have, prev)
    ensures !(have >= 2 && c % 256 == EQUALS) && DecodeChar(c % 256) != -1 ==>
      Decoded([c] + t, have, prev)
        == Completed(have, prev, DecodeChar(c % 256))
         + Decoded(t, (have + 1) % 4, if have == 3 then 0 else DecodeChar(c % 256))
  {
    hide DecodeChar, Completed;
    assert ([c] + t)[1..] == t;
  }

  /** Section 6.8 of RFC 2045: what is not in the alphabet is ignored. */
  lemma {:induction false} JunkIsIgnored(t: seq<int>, have: nat, prev: int)
    requires have < 4 && 0 <= prev < 64
    ensures Decoded(Clean(t), have, prev) == Decoded(t, have, prev)
    decreases |t|
  {
    hide DecodeChar, Completed, Decoded;
    if t != [] {
      var v := DecodeChar(t[0] % 256);
      assert t == [t[0]] + t[1..];
      DecodedStep(t[0], t[1..], have, prev);
      DecodedStep(t[0], Clean(t[1..]), have, prev);
      assert Ignored(t[0]) ==> [] + Clean(t[1..]) == Clean(t[1..]);
      if v == -1 {
        JunkIsIgnored(t[1..], have, prev);
      } else {
        JunkIsIgnored(t[1..], (have + 1) % 4, if have == 3 then 0 else v);
      }
    }
  }

  /** A text that holds an encoding with ignored characters in between decodes to the same bytes. */
  lemma JunkRoundTrip(s: seq<int>, t: seq<int>)
    requires IsBytes(s) && Clean(t) == Encoded(s)
    ensures Decoded(t, 0, 0) == s
  {
    JunkIsIgnored(t, 0, 0);
    Base64RoundTrip(s);
  }

  // ---- The code ----

  /** The characters of a full group; the masks make the codes bytes. */
  method PutThree(out0: seq<int>, c1: int, c2: int, c3: int) returns (out: seq<int>)
    requires 0 <= c1 < 256
    ensures out == out0 + Three(c1, c2 % 256, c3 % 256)
  {
    hide EncodeChar;
    NibbleOf(c2);
    NibbleOf(c3);
    out := out0 + [EncodeChar(c1 / 4)];
    out := out + [EncodeChar(c1 % 4 * 16 + c2 % 256 / 16)];
    out := out + [EncodeChar(c2 % 16 * 4 + c3 % 256 / 64)];
    out := out + [EncodeChar(c3 % 64)];
  }

  method PutTwo(out0: seq<int>, c1: int, c2: int) returns (out: seq<int>)
    requires 0 <= c1 < 256
    ensures out == out0 + Two(c1, c2 % 256)
  {
    hide EncodeChar;
    NibbleOf(c2);
    out := out0 + [EncodeChar(c1 / 4)];
    out := out + [EncodeChar(c1 % 4 * 16 + c2 % 256 / 16)];
    out := out + [EncodeChar(c2 % 16 * 4)];
    out := out + [EQUALS];
  }

  method PutOne(out0: seq<int>, c1: int) returns (out: seq<int>)
    requires 0 <= c1 < 256
    ensures out == out0 + One(c1)
  {
    hide EncodeChar;
    out := out0 + [EncodeChar(c1 / 4)];
    out := out + [EncodeChar(c1 % 4 * 16)];
    out := out + [EQUALS, EQUALS];
  }

  method Base64Encode(str: seq<int>) returns (out: seq<int>)
    ensures out == Encoded(str)
  {
    hide One, Two, Three;
    out := [];
    var i := 0;
    assert str[0..] == str;
    while i < |str|
      invariant 0 <= i <= |str| && out + Encoded(str[i..]) == Encoded(str)
    {
      ghost var rest := str[i..];
      var c1 := str[i] % 256;
      i := i + 1;
      if i == |str| {
        out := PutOne(out, c1);
        return;
      }
      var c2 := str[i];
      i := i + 1;
      if i == |str| {
        out := PutTwo(out, c1, c2);
        return;
      }
      var c3 := str[i];
      i := i + 1;
      assert rest[3..] == str[i..];
      Assoc(out, Three(c1, c2 % 256, c3 % 256), Encoded(str[i..]));
      out := PutThree(out, c1, c2, c3);
    }
    assert str[i..] == [];
    NothingMore(out);
  }

  /** Masking the code first does not matter. */
  lemma NibbleOf(c: int)
    ensures c % 256 % 16 == c % 16
    ensures c % 256 % 64 == c % 64
  {
    var q, r := c / 256, c % 256;
    RemainderIs(c, 16 * q + r / 16, 16, r % 16);
    RemainderIs(c, 4 * q + r / 64, 64, r % 64);
  }

  lemma RemainderIs(c: int, q: int, d: int, r: int)
    requires 0 <= r < d && c == d * q + r
    ensures c % d == r
  {
    Digits.QuotientUnique(c, d, q, r);
  }

  lemma DecodedFrom(str: seq<int>, i: nat, have: nat, prev: int)
    requires i < |str| && have < 4 && 0 <= prev < 64
    ensures have >= 2 && str[i] % 256 == EQUALS ==> Decoded(str[i..], have, prev) == []
    ensures !(have >= 2 && str[i] % 256 == EQUALS) ==>
      var v := DecodeChar(str[i] % 256);
      Decoded(str[i..], have, prev)
        == if v == -1 then Decoded(str[i + 1..], have, prev)
           else Completed(have, prev, v) + Decoded(str[i + 1..], (have + 1) % 4, if have == 3 then 0 else v)
  {
    hide DecodeChar, Completed, Decoded;
    assert str[i..] == [str[i]] + str[i + 1..];
    DecodedStep(str[i], str[i + 1..], have, prev);
  }

  /** `do { c = base64DecodeChars[...] } while (i < len && c == -1)`; for the last two of a group `=` ends it all. */
  method NextSextet(str: seq<int>, i0: nat, have: nat, ghost prev: int) returns (c: int, i: nat)
    requires i0 <= |str| && have < 4 && 0 <= prev < 64
    ensures -1 <= c < 64
    ensures c == -1 ==> Decoded(str[i0..], have, prev) == []
    ensures c != -1 ==> i0 < i <= |str|
    ensures c != -1 ==>
      Decoded(str[i0..], have, prev)
        == Completed(have, prev, c) + Decoded(str[i..], (have + 1) % 4, if have == 3 then 0 else c)
  {
    hide DecodeChar, Completed, Decoded;
    i, c := i0, -1;
    while i < |str|
      invariant i0 <= i <= |str|
      invariant Decoded(str[i0..], have, prev) == Decoded(str[i..], have, prev)
      decreases |str| - i
    {
      DecodedFrom(str, i, have, prev);
      c := str[i] % 256;
      i := i + 1;
      if have >= 2 && c == EQUALS {
        c := -1;
        return;
      }
      c := DecodeChar(c);
      if c != -1 {
        return;
      }
    }
    assert str[i..] == [];
    NothingDecoded(have, prev);
    c := -1;
  }

  method Base64Decode(str: seq<int>) returns (out: seq<int>)
    ensures out == Decoded(str, 0, 0)
  {
    hide Decoded, DecodeChar, Completed;
    out := [];
    var i := 0;
    assert str[0..] == str;
    while i < |str|
      invariant 0 <= i <= |str| && out + Decoded(str[i..], 0, 0) == Decoded(str, 0, 0)
      decreases |str| - i
    {
      var c1, c2, c3, c4;
      c1, i := NextSextet(str, i, 0, 0);
      if c1 == -1 {
        NothingMore(out);
        return;
      }
      Groups(0, 0, c1);
      NoByte(Decoded(str[i..], 1, c1));
      c2, i := NextSextet(str, i, 1, c1);
      if c2 == -1 {
        NothingMore(out);
        return;
      }
      Groups(1, c1, c2);
      Assoc(out, [c1 * 4 + c2 / 16], Decoded(str[i..], 2, c2));
      out := out + [c1 * 4 + c2 / 16];
      c3, i := NextSextet(str, i, 2, c2);
      if c3 == -1 {
        NothingMore(out);
        return;
      }
      Groups(2, c2, c3);
      Assoc(out, [c2 % 16 * 16 + c3 / 4], Decoded(str[i..], 3, c3));
      out := out + [c2 % 16 * 16 + c3 / 4];
      c4, i := NextSextet(str, i, 3, c3);
      if c4 == -1 {
        NothingMore(out);
        return;
      }
      Groups(3, c3, c4);
      Assoc(out, [c3 % 4 * 64 + c4], Decoded(str[i..], 0, 0));
      out := out + [c3 % 4 * 64 + c4];
    }
    assert str[i..] == [];
    NothingDecoded(0, 0);
    NothingMore(out);
  }

  lemma Groups(have: nat, prev: int, v: int)
    requires have < 4
    ensures have == 0 ==> Completed(have, prev, v) == []
    ensures have == 1 ==> Completed(have, prev, v) == [prev * 4 + v / 16]
    ensures have == 2 ==> Completed(have, prev, v) == [prev % 16 * 16 + v / 4]
    ensures have == 3 ==> Completed(have, prev, v) == [prev % 4 * 64 + v]
  {
  }

  lemma NothingMore(a: seq<int>)
    ensures a + [] == a
  {
  }

  lemma Assoc(a: seq<int>, b: seq<int>, c: seq<int>)
    ensures a + (b + c) == (a + b) + c
  {
  }

  lemma NoByte(s: seq<int>)
    ensures [] + s == s
  {
  }
}
