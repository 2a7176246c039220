/** manager/js/utf.js, and the pipeline of `strencode` and `strdecode` in manager/js/functions.js. */
module Utf {
  import opened Base64

  /** A string of 16-bit code units, lone surrogates included. */
  ghost predicate IsUnits(s: seq<int>) {
    forall i :: 0 <= i < |s| ==> 0 <= s[i] < 65536
  }

  // ---- What the conversions compute ----

  /** One, two or three bytes; 0 takes two. */
  function Bytes8(c: int): (b: seq<int>)
    requires 0 <= c < 65536
    ensures IsBytes(b) && 1 <= |b| <= 3
  {
    if 1 <= c <= 0x7F then [c]
    else if c > 0x7FF then [0xE0 + c / 4096, 0x80 + c / 64 % 64, 0x80 + c % 64]
    else [0xC0 + c / 64, 0x80 + c % 64]
  }

  function To8(s: seq<int>): (t: seq<int>)
    requires IsUnits(s)
    ensures IsBytes(t)
  {
    if s == [] then [] else Bytes8(s[0]) + To8(s[1..])
  }

  /** `charCodeAt`, which past the end counts as 0 in bitwise operators. */
  function At(t: seq<int>, i: nat): int {
    if i < |t| then t[i] else 0
  }

  function From(t: seq<int>, i: nat): seq<int> {
    if i < |t| then t[i..] else []
  }

  /** Continuation bytes and bytes from 0xF0 on give nothing where a character should start. */
  function To16(t: seq<int>): seq<int>
    decreases |t|
  {
    if t == [] then []
    else
      var c := t[0];
      if 0 <= c / 16 <= 7 then [c] + To16(t[1..])
      else if c / 16 == 12 || c / 16 == 13 then [c % 32 * 64 + At(t, 1) % 64] + To16(From(t, 2))
      else if c / 16 == 14 then [c % 16 * 4096 + At(t, 1) % 64 * 64 + At(t, 2) % 64] + To16(From(t, 3))
      else To16(t[1..])
  }

  // ---- Round trip ----

  lemma FromAfter(b: seq<int>, t: seq<int>)
    ensures From(b + t, |b|) == t
    ensures forall i :: 0 <= i < |b| ==> At(b + t, i) == b[i]
  {
  }

  lemma OneByte(c: int, t: seq<int>)
    requires 1 <= c <= 0x7F
    ensures To16([c] + t) == [c] + To16(t)
  {
    assert ([c] + t)[1..] == t;
  }

  lemma TwoBytes(c: int, t: seq<int>)
    requires c == 0 || 0x7F < c <= 0x7FF
    ensures To16([0xC0 + c / 64, 0x80 + c % 64] + t) == [c] + To16(t)
  {
    hide From, At;
    FromAfter([0xC0 + c / 64, 0x80 + c % 64], t);
    assert (0xC0 + c / 64) % 32 == c / 64;
  }

  lemma ThreeBytes(c: int, t: seq<int>)
    requires 0x7FF < c < 65536
    ensures To16([0xE0 + c / 4096, 0x80 + c / 64 % 64, 0x80 + c % 64] + t) == [c] + To16(t)
  {
    hide From, At;
    var b := [0xE0 + c / 4096, 0x80 + c / 64 % 64, 0x80 + c % 64];
    FromAfter(b, t);
    ThreeParts(c);
  }

  lemma ThreeParts(c: int)
    requires 0 <= c < 65536
    ensures (0xE0 + c / 4096) / 16 == 14 && (0xE0 + c / 4096) % 16 == c / 4096
    ensures (0x80 + c / 64 % 64) % 64 == c / 64 % 64 && (0x80 + c % 64) % 64 == c % 64
    ensures c / 4096 * 4096 + c / 64 % 64 * 64 + c % 64 == c
  {
  }

  lemma FirstUnit(c: int, t: seq<int>)
    requires 0 <= c < 65536
    ensures To16(Bytes8(c) + t) == [c] + To16(t)
  {
    hide To16;
    if 1 <= c <= 0x7F {
      OneByte(c, t);
    } else if c > 0x7FF {
      ThreeBytes(c, t);
    } else {
      TwoBytes(c, t);
    }
  }

  lemma {:induction false} UtfRoundTrip(s: seq<int>)
    requires IsUnits(s)
    ensures To16(To8(s)) == s
  {
    hide Bytes8, To16;
    if s == [] {
      NothingConverted();
    } else {
      FirstUnit(s[0], To8(s[1..]));
      UtfRoundTrip(s[1..]);
    }
  }

  lemma NothingConverted()
    ensures To16([]) == []
  {
  }

  // ---- The code ----

  /** The branches of `utf16to8` for one code unit. */
  method Put8(out0: seq<int>, c: int) returns (out: seq<int>)
    requires 0 <= c < 65536
    ensures out == out0 + Bytes8(c)
  {
    out := out0;
    if c >= 1 && c <= 0x7F {
      out := out + [c];
    } else if c > 0x7FF {
      out := out + [0xE0 + c / 4096 % 16];
      out := out + [0x80 + c / 64 % 64];
      out := out + [0x80 + c % 64];
    } else {
      out := out + [0xC0 + c / 64 % 32];
      out := out + [0x80 + c % 64];
    }
  }

  method Utf16to8(str: seq<int>) returns (out: seq<int>)
    requires IsUnits(str)
    ensures out == To8(str)
  {
    hide Bytes8;
    out := [];
    var i := 0;
    assert str[0..] == str;
    while i < |str|
      invariant 0 <= i <= |str| && out + To8(str[i..]) == To8(str)
    {
      assert str[i..][1..] == str[i + 1..];
      Assoc(out, Bytes8(str[i]), To8(str[i + 1..]));
      out := Put8(out, str[i]);
      i := i + 1;
    }
  }

  /** One character of `utf8to16`, starting at `i0`. */
  method Get16(str: seq<int>, i0: nat) returns (c: seq<int>, i: nat)
    requires i0 < |str|
    ensures i0 < i && To16(From(str, i0)) == c + To16(From(str, i))
  {
    ghost var rest := From(str, i0);
    i := i0;
    var first := str[i];
    i := i + 1;
    c := [];
    assert rest[1..] == From(str, i);
    if 0 <= first / 16 <= 7 {
      c := [str[i - 1]];
    } else if first / 16 == 12 || first / 16 == 13 {
      var char2 := At(str, i);
      i := i + 1;
      c := [first % 32 * 64 + char2 % 64];
      assert From(rest, 2) == From(str, i) && At(rest, 1) == char2;
    } else if first / 16 == 14 {
      var char2 := At(str, i);
      i := i + 1;
      var char3 := At(str, i);
      i := i + 1;
      c := [first % 16 * 4096 + char2 % 64 * 64 + char3 % 64];
      assert From(rest, 3) == From(str, i) && At(rest, 1) == char2 && At(rest, 2) == char3;
    }
  }

  method Utf8to16(str: seq<int>) returns (out: seq<int>)
    ensures out == To16(str)
  {
    hide To16;
    out := [];
    var i := 0;
    assert From(str, 0) == str;
    NothingConverted();
    while i < |str|
      invariant 0 <= i && out + To16(From(str, i)) == To16(str)
      decreases |str| - i
    {
      var c, next;
      c, next := Get16(str, i);
      Assoc(out, c, To16(From(str, next)));
      out := out + c;
      i := next;
    }
  }

  method StrEncode(str: seq<int>) returns (out: seq<int>)
    requires IsUnits(str)
    ensures out == Encoded(To8(str))
  {
    var t := Utf16to8(str);
    out := Base64Encode(t);
  }

  method StrDecode(str: seq<int>) returns (out: seq<int>)
    ensures out == To16(Decoded(str, 0, 0))
  {
    var t := Base64Decode(str);
    out := Utf8to16(t);
  }

  /** Decoding an encoded string gives it back, for every sequence of code units; line ends in between do not matter. */
  method StrRoundTrip(str: seq<int>, sent: seq<int>) returns (code: seq<int>, out: seq<int>)
    requires IsUnits(str)
    ensures code == Encoded(To8(str))
    ensures Clean(sent) == code || sent == code ==> out == str
  {
    code := StrEncode(str);
    out := StrDecode(sent);
    Base64RoundTrip(To8(str));
    UtfRoundTrip(str);
    if Clean(sent) == code {
      JunkRoundTrip(To8(str), sent);
    }
  }
}
