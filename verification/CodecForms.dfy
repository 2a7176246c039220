/** What base64 and UTF-8 text looks like, by the tables of RFC 2045 and RFC 3629 and not by what decodes it. */
module CodecForms {
  import opened Base64
  import opened Utf

  // ---- base64: section 6.8 of RFC 2045 ----

  /** Sextet `v` is the letter, digit or sign at its place in the alphabet. */
  lemma AlphabetCodes(v: int)
    requires 0 <= v < 64
    ensures v < 26 ==> EncodeChar(v) as char == "ABCDEFGHIJKLMNOPQRSTUVWXYZ"[v]
    ensures 26 <= v < 52 ==> EncodeChar(v) as char == "abcdefghijklmnopqrstuvwxyz"[v - 26]
    ensures 52 <= v < 62 ==> EncodeChar(v) as char == "0123456789"[v - 52]
    ensures v == 62 ==> EncodeChar(v) as char == '+'
    ensures v == 63 ==> EncodeChar(v) as char == '/'
  {
  }

  /** A 7-bit code decodes to the sextet whose character it is, and to none if it is outside the alphabet. */
  lemma OnlyAlphabet(c: int)
    requires 0 <= c < 128
    ensures DecodeChar(c) == -1 <==> forall v :: 0 <= v < 64 ==> EncodeChar(v) != c
    ensures DecodeChar(c) >= 0 ==> EncodeChar(DecodeChar(c)) == c
  {
  }

  /** Three bytes are 24 bits, and four characters of six bits each, the first byte highest. */
  lemma ThreeBytesForm(a: int, b: int, c: int)
    requires 0 <= a < 256 && 0 <= b < 256 && 0 <= c < 256
    ensures exists w, x, y, z ::
      && 0 <= w < 64 && 0 <= x < 64 && 0 <= y < 64 && 0 <= z < 64
      && Three(a, b, c) == Chars(w, x) + Chars(y, z)
      && ((w * 64 + x) * 64 + y) * 64 + z == (a * 256 + b) * 256 + c
  {
    var w, x, y, z := a / 4, a % 4 * 16 + b / 16, b % 16 * 4 + c / 64, c % 64;
    assert Three(a, b, c) == Chars(w, x) + Chars(y, z);
    assert ((w * 64 + x) * 64 + y) * 64 + z == (a * 256 + b) * 256 + c;
  }

  function Chars(v: int, w: int): seq<int>
    requires 0 <= v < 64 && 0 <= w < 64
  {
    [EncodeChar(v), EncodeChar(w)]
  }

  /** Two bytes: three characters, the last two bits zero, and one `=`. */
  lemma TwoBytesForm(a: int, b: int)
    requires 0 <= a < 256 && 0 <= b < 256
    ensures exists w, x, y ::
      && 0 <= w < 64 && 0 <= x < 64 && 0 <= y < 64
      && Two(a, b) == Chars(w, x) + [EncodeChar(y), '=' as int]
      && (w * 64 + x) * 64 + y == (a * 256 + b) * 4
  {
    var w, x, y := a / 4, a % 4 * 16 + b / 16, b % 16 * 4;
    assert Two(a, b) == Chars(w, x) + [EncodeChar(y), '=' as int];
    assert (w * 64 + x) * 64 + y == (a * 256 + b) * 4;
  }

  /** One byte: two characters, the last four bits zero, and two `=`. */
  lemma OneByteForm(a: int)
    requires 0 <= a < 256
    ensures exists w, x ::
      && 0 <= w < 64 && 0 <= x < 64
      && One(a) == Chars(w, x) + ['=' as int, '=' as int]
      && w * 64 + x == a * 16
  {
    var w, x := a / 4, a % 4 * 16;
    assert One(a) == Chars(w, x) + ['=' as int, '=' as int];
    assert w * 64 + x == a * 16;
  }

  /** The groups of three bytes in order, and then what is left. */
  lemma {:induction false} GroupAt(s: seq<int>, k: nat)
    requires IsBytes(s) && 3 * k < |s|
    ensures |Encoded(s)| == 4 * ((|s| + 2) / 3) >= 4 * k + 4
    ensures var group := Encoded(s)[4 * k..4 * k + 4];
      && (|s| - 3 * k >= 3 ==> group == Three(s[3 * k], s[3 * k + 1], s[3 * k + 2]))
      && (|s| - 3 * k == 2 ==> group == Two(s[3 * k], s[3 * k + 1]))
      && (|s| - 3 * k == 1 ==> group == One(s[3 * k]))
    decreases |s|
  {
    hide One, Two, Three, Encoded;
    FirstGroup(s);
    if |s| > 3 {
      var rest := s[3..];
      GroupAt(rest, if k > 0 then k - 1 else 0);
      if k > 0 {
        assert Encoded(s)[4 * k..4 * k + 4] == Encoded(rest)[4 * (k - 1)..4 * (k - 1) + 4];
      }
    }
  }

  lemma FirstGroup(s: seq<int>)
    requires IsBytes(s) && s != []
    ensures |s| == 1 ==> Encoded(s) == One(s[0])
    ensures |s| == 2 ==> Encoded(s) == Two(s[0], s[1])
    ensures |s| >= 3 ==> Encoded(s) == Three(s[0], s[1], s[2]) + Encoded(s[3..])
    ensures |s| == 3 ==> Encoded(s[3..]) == []
    ensures |s| >= 3 ==> |Three(s[0], s[1], s[2])| == 4
    ensures |s| == 1 ==> |One(s[0])| == 4
    ensures |s| == 2 ==> |Two(s[0], s[1])| == 4
  {
    forall i | 0 <= i < |s|
      ensures s[i] % 256 == s[i]
    {
      SmallByte(s[i]);
    }
  }

  // ---- UTF-8: section 3 of RFC 3629 ----

  /**
    A unit from 1 to 0x7F is its own byte. Others begin with 110 or 1110 and go on with bytes that begin with 10; the
    payload bits in order are the unit, in as few bytes as possible, but for 0, which takes two.
   */
  lemma UnitForm(c: int)
    requires 0 <= c < 65536
    ensures |Bytes8(c)| == if 1 <= c < 0x80 then 1 else if c < 0x800 then 2 else 3
    ensures |Bytes8(c)| == 1 ==> Bytes8(c) == [c]
    ensures |Bytes8(c)| == 2 ==>
      var b := Bytes8(c); IsLead(b[0], 6, 32) && IsMore(b[1]) && b[0] % 32 * 64 + b[1] % 64 == c
    ensures |Bytes8(c)| == 3 ==>
      var b := Bytes8(c);
      IsLead(b[0], 14, 16) && IsMore(b[1]) && IsMore(b[2]) && (b[0] % 16 * 64 + b[1] % 64) * 64 + b[2] % 64 == c
  {
  }

  /** The high bits of a byte are `mark`, above `span` payload values. */
  predicate IsLead(b: int, mark: int, span: int)
    requires span > 0
  {
    b / span == mark
  }

  predicate IsMore(b: int) {
    b / 64 == 2
  }

  /** The bytes of a string are those of its units, one after the other. */
  lemma {:induction false} UnitAt(s: seq<int>, k: nat)
    requires IsUnits(s) && k < |s|
    ensures IsUnits(s[..k]) && To8(s[..k]) + Bytes8(s[k]) <= To8(s)
  {
    hide Bytes8;
    if k > 0 {
      UnitAt(s[1..], k - 1);
      assert s[..k][1..] == s[1..][..k - 1];
      Follows(Bytes8(s[0]), To8(s[1..][..k - 1]), Bytes8(s[k]), To8(s[1..]));
    }
  }

  lemma Follows(a: seq<int>, b: seq<int>, c: seq<int>, t: seq<int>)
    requires b + c <= t
    ensures (a + b) + c <= a + t
  {
    assert (a + b) + c == a + (b + c);
  }
}
