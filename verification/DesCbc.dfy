/**
  `des_cbc_encrypt` and `des_cbc_decrypt`: chained blocks, a length byte in the last one, and keys of several parts.
 */
module DesCbc {
  import opened Des

  /** The words `des_set_key` computes from eight key codes; `des_odd_key_parity` is part of it. */
  type Schedule = s: seq<bv32> | |s| == 32 witness seq(32, _ => 0)
  type KeySetup = seq<int> -> Schedule

  // ---- Bytes ----

  function XorByte(a: bv8, b: bv8): bv8 {
    a ^ b
  }

  function XorBytes(a: seq<bv8>, b: seq<bv8>): (c: seq<bv8>)
    requires |a| == |b|
    ensures |c| == |a|
  {
    seq(|a|, i requires 0 <= i < |a| => XorByte(a[i], b[i]))
  }

  lemma XorByteTwice(a: bv8, b: bv8)
    ensures XorByte(XorByte(a, b), b) == a
  {
  }

  lemma XorBytesTwice(a: seq<bv8>, b: seq<bv8>)
    requires |a| == |b|
    ensures XorBytes(XorBytes(a, b), b) == a
  {
    hide XorByte;
    forall i | 0 <= i < |a|
      ensures XorBytes(XorBytes(a, b), b)[i] == a[i]
    {
      XorByteTwice(a[i], b[i]);
    }
  }

  /** The length byte, and how it is read back. */
  function LengthByte(n: nat): bv8
    requires n < 8
  {
    n as bv8
  }

  function LengthOf(b: bv8): (n: nat)
    ensures n < 8
  {
    ((b & 0x7) as bv3) as nat
  }

  lemma LengthRoundTrip(n: nat)
    requires n < 8
    ensures LengthOf(LengthByte(n)) == n
  {
    if n == 0 {
    } else if n == 1 {
    } else if n == 2 {
    } else if n == 3 {
    } else if n == 4 {
    } else if n == 5 {
    } else if n == 6 {
    } else {
      assert n == 7;
    }
  }

  function Zeros(): (z: seq<bv8>)
    ensures |z| == 8
  {
    [0, 0, 0, 0, 0, 0, 0, 0]
  }

  // ---- What encryption and decryption compute ----

  function LastBlock(str: seq<bv8>, pads: seq<bv8>): (b: seq<bv8>)
    requires |str| < 8 && |pads| == 7
    ensures |b| == 8
  {
    str + pads[..7 - |str|] + [LengthByte(|str|)]
  }

  lemma EightLess(n: int)
    ensures (n - 8) / 8 + 1 == n / 8
  {
  }

  function Encrypted(sp: SBoxes, ks: Schedule, prev: seq<bv8>, str: seq<bv8>, pads: seq<bv8>): (out: seq<bv8>)
    requires |prev| == 8 && |pads| == 7
    ensures |out| == 8 * (|str| / 8 + 1)
    decreases |str|
  {
    hide Convert, XorBytes, LastBlock;
    if |str| >= 8 then
      EightLess(|str|);
      var c := Convert(sp, ks, XorBytes(str[..8], prev), true);
      c + Encrypted(sp, ks, c, str[8..], pads)
    else Convert(sp, ks, XorBytes(LastBlock(str, pads), prev), true)
  }

  /** The next eight bytes; past the end `charCodeAt` gives a value that counts as 0 in bitwise operators. */
  function Block(str: seq<bv8>): (b: seq<bv8>)
    ensures |b| == 8
  {
    if |str| >= 8 then str[..8] else str + Zeros()[|str|..]
  }

  function Decrypted(sp: SBoxes, ks: Schedule, prev: seq<bv8>, str: seq<bv8>): seq<bv8>
    requires |prev| == 8
    decreases |str|
  {
    var b := XorBytes(Convert(sp, ks, Block(str), false), prev);
    if |str| > 8 then b + Decrypted(sp, ks, str[..8], str[8..])
    else b[..LengthOf(b[7])]
  }

  /** Decryption undoes encryption, for every schedule, all S-boxes, every string of bytes and all padding. */
  lemma {:induction false} CbcRoundTrip(sp: SBoxes, ks: Schedule, prev: seq<bv8>, str: seq<bv8>, pads: seq<bv8>)
    requires |prev| == 8 && |pads| == 7
    ensures Decrypted(sp, ks, prev, Encrypted(sp, ks, prev, str, pads)) == str
    decreases |str|
  {
    hide Convert, XorBytes, LengthByte, LengthOf, Zeros;
    if |str| >= 8 {
      var x := XorBytes(str[..8], prev);
      var c := Convert(sp, ks, x, true);
      var rest := Encrypted(sp, ks, c, str[8..], pads);
      ConvertUndone(sp, ks, x);
      XorBytesTwice(str[..8], prev);
      CbcRoundTrip(sp, ks, c, str[8..], pads);
      assert (c + rest)[..8] == c && (c + rest)[8..] == rest;
      assert str[..8] + str[8..] == str;
    } else {
      var x := XorBytes(LastBlock(str, pads), prev);
      ConvertUndone(sp, ks, x);
      XorBytesTwice(LastBlock(str, pads), prev);
      LengthRoundTrip(|str|);
      assert Convert(sp, ks, x, true)[..8] == Convert(sp, ks, x, true);
      assert LastBlock(str, pads)[..|str|] == str;
    }
  }

  // ---- Keys of several parts ----

  /** `des_split_key` */
  function Parts(key: seq<int>): (p: seq<seq<int>>)
    ensures |p| == (|key| + 7) / 8
  {
    seq((|key| + 7) / 8,
        i requires 0 <= i < (|key| + 7) / 8 => key[8 * i..if 8 * i + 8 <= |key| then 8 * i + 8 else |key|])
  }

  /** `des_str2arr` */
  function KeyCodes(key: seq<int>): (a: seq<int>)
    ensures |a| == 8
  {
    if |key| >= 8 then key[..8] else key + seq(8 - |key|, _ => 0)
  }

  function EncryptedAll(sp: SBoxes, setup: KeySetup, parts: seq<seq<int>>, str: seq<bv8>, pads: seq<seq<bv8>>): seq<bv8>
    requires |pads| == |parts| && forall i :: 0 <= i < |pads| ==> |pads[i]| == 7
    decreases |parts|
  {
    if parts == [] then str
    else
      EncryptedAll(sp, setup, parts[1..], Encrypted(sp, setup(KeyCodes(parts[0])), Zeros(), str, pads[0]), pads[1..])
  }

  function DecryptedAll(sp: SBoxes, setup: KeySetup, parts: seq<seq<int>>, str: seq<bv8>): seq<bv8>
    decreases |parts|
  {
    if parts == [] then str
    else Decrypted(sp, setup(KeyCodes(parts[0])), Zeros(), DecryptedAll(sp, setup, parts[1..], str))
  }

  /** The parts of a key are applied in order and undone in reverse order. */
  lemma {:induction false} AllRoundTrip(sp: SBoxes, setup: KeySetup, parts: seq<seq<int>>, str: seq<bv8>,
      pads: seq<seq<bv8>>)
    requires |pads| == |parts| && forall i :: 0 <= i < |pads| ==> |pads[i]| == 7
    ensures DecryptedAll(sp, setup, parts, EncryptedAll(sp, setup, parts, str, pads)) == str
    decreases |parts|
  {
    hide Encrypted, Decrypted, KeyCodes, Zeros;
    if parts != [] {
      var ks := setup(KeyCodes(parts[0]));
      var c := Encrypted(sp, ks, Zeros(), str, pads[0]);
      AllRoundTrip(sp, setup, parts[1..], c, pads[1..]);
      CbcRoundTrip(sp, ks, Zeros(), str, pads[0]);
    }
  }

  /** The passes a key stands for: one for each part of a long key, a single one otherwise. */
  function Passes(key: seq<int>): (p: seq<seq<int>>)
    ensures |p| >= 1
  {
    if |key| > 8 then Parts(key) else [key]
  }

  // ---- The code ----

  /** A random character takes part in `^=` as the number it spells, which is 0 unless it is a digit. */
  function PadByte(code: int): bv8 {
    if 48 <= code < 58 then (code - 48) as bv8 else 0
  }

  function PadBytes(codes: seq<int>): (p: seq<bv8>)
    ensures |p| == |codes|
  {
    seq(|codes|, i requires 0 <= i < |codes| => PadByte(codes[i]))
  }

  /** `input[j] = str.charCodeAt(i + j); input[j] ^= tin[j]` for the first `n` bytes. */
  method XorIn(input: array<bv8>, tin: array<bv8>, str: seq<bv8>, i: nat, n: nat)
    requires input.Length == tin.Length == 8 && input != tin && n <= 8 && i + n <= |str|
    modifies input
    ensures forall k :: 0 <= k < n ==> input[k] == XorByte(str[i + k], tin[k])
  {
    hide XorByte;
    var j := 0;
    while j < n
      invariant 0 <= j <= n
      invariant forall k :: 0 <= k < j ==> input[k] == XorByte(str[i + k], tin[k])
    {
      input[j] := str[i + j];
      input[j] := XorByte(input[j], tin[j]);
      j := j + 1;
    }
  }

  method CopyBlock(to: array<bv8>, from: array<bv8>)
    requires to.Length == from.Length == 8
    modifies to
    ensures to[..] == old(from[..])
  {
    var j := 0;
    while j < 8
      invariant 0 <= j <= 8 && (to != from ==> from[..] == old(from[..])) && (to == from ==> to[..] == old(from[..]))
      invariant forall k :: 0 <= k < j ==> to[k] == old(from[k])
    {
      to[j] := from[j];
      j := j + 1;
    }
  }

  /** The last block: what is left of the string, padding and the length. */
  method FillLast(input: array<bv8>, tin: array<bv8>, str: seq<bv8>, i: nat, codes: seq<int>)
    requires input.Length == tin.Length == 8 && input != tin && i <= |str| < i + 8 && |codes| == 7
    modifies input
    ensures input[..] == XorBytes(LastBlock(str[i..], PadBytes(codes)), tin[..])
  {
    hide XorByte, LengthByte, PadByte;
    var rem := |str| - i;
    XorIn(input, tin, str, i, rem);
    var j, m := rem, 7 - rem;
    while m > 0
      invariant 0 <= m && j == 7 - m && rem <= j
      invariant forall k :: 0 <= k < rem ==> input[k] == XorByte(str[i + k], tin[k])
      invariant forall k :: rem <= k < j ==> input[k] == XorByte(PadByte(codes[k - rem]), tin[k])
    {
      input[j] := XorByte(PadByte(codes[j - rem]), tin[j]);
      m := m - 1;
      j := j + 1;
    }
    input[7] := LengthByte(rem);
    input[7] := XorByte(input[7], tin[7]);
    ghost var last := LastBlock(str[i..], PadBytes(codes));
    forall k | 0 <= k < 8
      ensures input[k] == XorByte(last[k], tin[k])
    {
      if k < rem {
      } else if k < 7 {
        assert last[k] == PadByte(codes[k - rem]);
      }
    }
  }

  lemma FirstEncrypted(sp: SBoxes, ks: Schedule, prev: seq<bv8>, str: seq<bv8>, pads: seq<bv8>)
    requires |prev| == 8 && |pads| == 7 && |str| >= 8
    ensures var c := Convert(sp, ks, XorBytes(str[..8], prev), true);
      Encrypted(sp, ks, prev, str, pads) == c + Encrypted(sp, ks, c, str[8..], pads)
  {
    hide Convert, XorBytes, LastBlock;
  }

  lemma Regroup(a: seq<bv8>, b: seq<bv8>, c: seq<bv8>)
    ensures a + (b + c) == (a + b) + c
  {
  }

  method EncryptPart(cipher: Cipher, setup: KeySetup, key: seq<int>, str: seq<bv8>, codes: seq<int>)
      returns (out: seq<bv8>)
    requires |codes| == 7
    modifies cipher
    ensures out == Encrypted(cipher.sp, setup(KeyCodes(key)), Zeros(), str, PadBytes(codes))
  {
    hide Convert, XorBytes, LastBlock, Zeros, KeyCodes;
    ghost var ks := setup(KeyCodes(key));
    cipher.ks := setup(KeyCodes(key));
    var input := new bv8[8](_ => 0);
    var tin := new bv8[8](_ => 0);
    ZeroBlock(tin[..]);
    out := [];
    var i := 0;
    assert str[0..] == str;
    while i < |str| - 7
      invariant 0 <= i <= |str| && cipher.ks == ks && fresh(input) && fresh(tin)
      invariant out + Encrypted(cipher.sp, ks, tin[..], str[i..], PadBytes(codes))
             == Encrypted(cipher.sp, ks, Zeros(), str, PadBytes(codes))
    {
      ghost var prev, rest := tin[..], str[i..];
      XorIn(input, tin, str, i, 8);
      XorBlock(input[..], rest[..8], prev);
      cipher.ConvertBlock(input, true);
      CopyBlock(tin, input);
      assert rest[8..] == str[i + 8..];
      FirstEncrypted(cipher.sp, ks, prev, rest, PadBytes(codes));
      Regroup(out, tin[..], Encrypted(cipher.sp, ks, tin[..], rest[8..], PadBytes(codes)));
      out := out + input[..];
      i := i + 8;
    }
    FillLast(input, tin, str, i, codes);
    cipher.ConvertBlock(input, true);
    out := out + input[..];
  }

  lemma ZeroBlock(b: seq<bv8>)
    requires |b| == 8 && forall k :: 0 <= k < 8 ==> b[k] == 0
    ensures b == Zeros()
  {
  }

  lemma XorBlock(x: seq<bv8>, a: seq<bv8>, b: seq<bv8>)
    requires |x| == |a| == |b| && forall k :: 0 <= k < |a| ==> x[k] == XorByte(a[k], b[k])
    ensures x == XorBytes(a, b)
  {
    hide XorByte;
  }

  /** `tin[j] = input[j] = str.charCodeAt(i + j)` */
  method LoadBlock(input: array<bv8>, tin: array<bv8>, str: seq<bv8>, i: nat)
    requires input.Length == tin.Length == 8 && input != tin && i <= |str|
    modifies input, tin
    ensures input[..] == tin[..] == Block(str[i..])
  {
    var j := 0;
    while j < 8
      invariant 0 <= j <= 8
      invariant forall k :: 0 <= k < j ==> input[k] == tin[k] == if i + k < |str| then str[i + k] else 0
    {
      input[j] := if i + j < |str| then str[i + j] else 0;
      tin[j] := input[j];
      j := j + 1;
    }
  }

  /** `input[j] ^= inxor[j]; inxor[j] = tin[j]` */
  method Unchain(input: array<bv8>, inxor: array<bv8>, tin: array<bv8>)
    requires input.Length == inxor.Length == tin.Length == 8 && input != inxor && input != tin && inxor != tin
    modifies input, inxor
    ensures input[..] == XorBytes(old(input[..]), old(inxor[..])) && inxor[..] == tin[..]
  {
    hide XorByte;
    var j := 0;
    while j < 8
      invariant 0 <= j <= 8
      invariant forall k :: 0 <= k < j ==> input[k] == XorByte(old(input[k]), old(inxor[k])) && inxor[k] == tin[k]
      invariant forall k :: j <= k < 8 ==> input[k] == old(input[k]) && inxor[k] == old(inxor[k])
    {
      input[j] := XorByte(input[j], inxor[j]);
      inxor[j] := tin[j];
      j := j + 1;
    }
  }

  lemma FirstDecrypted(sp: SBoxes, ks: Schedule, prev: seq<bv8>, str: seq<bv8>)
    requires |prev| == 8 && |str| > 8
    ensures Decrypted(sp, ks, prev, str)
         == XorBytes(Convert(sp, ks, Block(str), false), prev) + Decrypted(sp, ks, str[..8], str[8..])
  {
    hide Convert, XorBytes, Block;
  }

  method DecryptPart(cipher: Cipher, setup: KeySetup, key: seq<int>, str: seq<bv8>) returns (out: seq<bv8>)
    modifies cipher
    ensures out == Decrypted(cipher.sp, setup(KeyCodes(key)), Zeros(), str)
  {
    hide Convert, XorBytes, Block, Zeros, KeyCodes, LengthOf;
    ghost var ks := setup(KeyCodes(key));
    cipher.ks := setup(KeyCodes(key));
    var input := new bv8[8](_ => 0);
    var tin := new bv8[8](_ => 0);
    var inxor := new bv8[8](_ => 0);
    ZeroBlock(inxor[..]);
    out := [];
    var i := 0;
    assert str[0..] == str;
    while i < |str| - 8
      invariant 0 <= i <= |str| && cipher.ks == ks && fresh(input) && fresh(tin) && fresh(inxor)
      invariant out + Decrypted(cipher.sp, ks, inxor[..], str[i..]) == Decrypted(cipher.sp, ks, Zeros(), str)
    {
      ghost var prev, rest := inxor[..], str[i..];
      LoadBlock(input, tin, str, i);
      FullBlock(rest);
      cipher.ConvertBlock(input, false);
      Unchain(input, inxor, tin);
      assert rest[8..] == str[i + 8..];
      FirstDecrypted(cipher.sp, ks, prev, rest);
      Regroup(out, input[..], Decrypted(cipher.sp, ks, inxor[..], rest[8..]));
      out := out + input[..];
      i := i + 8;
    }
    LoadBlock(input, tin, str, i);
    cipher.ConvertBlock(input, false);
    Unchain(input, inxor, tin);
    out := out + input[..LengthOf(input[7])];
  }

  lemma FullBlock(str: seq<bv8>)
    requires |str| >= 8
    ensures Block(str) == str[..8]
  {
  }

  /** `des_cbc_encrypt`; the random padding of each pass is a parameter. */
  method Encrypt(cipher: Cipher, setup: KeySetup, key: seq<int>, str: seq<bv8>, codes: seq<seq<int>>)
      returns (out: seq<bv8>)
    requires |codes| == |Passes(key)| && forall i :: 0 <= i < |codes| ==> |codes[i]| == 7
    modifies cipher
    ensures var pads := seq(|codes|, i requires 0 <= i < |codes| => PadBytes(codes[i]));
      out == EncryptedAll(cipher.sp, setup, Passes(key), str, pads)
    ensures |key| <= 8 ==> |out| == 8 * (|str| / 8 + 1)
  {
    hide Encrypted, KeyCodes, Zeros, PadBytes, Parts;
    ghost var pads := seq(|codes|, i requires 0 <= i < |codes| => PadBytes(codes[i]));
    if |key| > 8 {
      var parts := Parts(key);
      out := str;
      var i := 0;
      while i < |parts|
        invariant 0 <= i <= |parts|
        invariant EncryptedAll(cipher.sp, setup, parts[i..], out, pads[i..])
          == EncryptedAll(cipher.sp, setup, parts, str, pads)
      {
        assert parts[i..][1..] == parts[i + 1..] && pads[i..][1..] == pads[i + 1..];
        out := EncryptPart(cipher, setup, parts[i], out, codes[i]);
        i := i + 1;
      }
    } else {
      out := EncryptPart(cipher, setup, key, str, codes[0]);
      OnePass(cipher.sp, setup, key, str, pads);
    }
  }

  lemma OnePass(sp: SBoxes, setup: KeySetup, key: seq<int>, str: seq<bv8>, pads: seq<seq<bv8>>)
    requires |pads| == 1 && |pads[0]| == 7
    ensures EncryptedAll(sp, setup, [key], str, pads) == Encrypted(sp, setup(KeyCodes(key)), Zeros(), str, pads[0])
    ensures |Encrypted(sp, setup(KeyCodes(key)), Zeros(), str, pads[0])| == 8 * (|str| / 8 + 1)
    ensures DecryptedAll(sp, setup, [key], str) == Decrypted(sp, setup(KeyCodes(key)), Zeros(), str)
  {
    hide Encrypted, Decrypted, KeyCodes, Zeros;
    assert [key][1..] == [];
  }

  /** `des_cbc_decrypt` */
  method Decrypt(cipher: Cipher, setup: KeySetup, key: seq<int>, str: seq<bv8>) returns (out: seq<bv8>)
    modifies cipher
    ensures out == DecryptedAll(cipher.sp, setup, Passes(key), str)
  {
    hide Decrypted, KeyCodes, Zeros, Parts;
    if |key| > 8 {
      var parts := Parts(key);
      out := str;
      var i := |parts| - 1;
      while i >= 0
        invariant -1 <= i < |parts|
        invariant out == DecryptedAll(cipher.sp, setup, parts[i + 1..], str)
      {
        assert parts[i..][1..] == parts[i + 1..];
        out := DecryptPart(cipher, setup, parts[i], out);
        i := i - 1;
      }
      assert parts[0..] == parts;
    } else {
      out := DecryptPart(cipher, setup, key, str);
      OnePass(cipher.sp, setup, key, str, [[0, 0, 0, 0, 0, 0, 0]]);
    }
  }

  /** Encrypting and then decrypting with the same key gives the string back, whatever the random padding was. */
  method RoundTrip(cipher: Cipher, setup: KeySetup, key: seq<int>, str: seq<bv8>, codes: seq<seq<int>>)
      returns (secret: seq<bv8>, out: seq<bv8>)
    requires |codes| == |Passes(key)| && forall i :: 0 <= i < |codes| ==> |codes[i]| == 7
    modifies cipher
    ensures out == str
    ensures |key| <= 8 ==> |secret| == 8 * (|str| / 8 + 1)
  {
    hide Encrypted, Decrypted, EncryptedAll, DecryptedAll, Passes, PadBytes;
    secret := Encrypt(cipher, setup, key, str, codes);
    out := Decrypt(cipher, setup, key, secret);
    AllRoundTrip(cipher.sp, setup, Passes(key), str, seq(|codes|, i requires 0 <= i < |codes| => PadBytes(codes[i])));
  }

  // ---- What the parts are ----

  lemma ByteParts(n: nat, b: bv8)
    ensures n < 8 ==> LengthByte(n) as int == n
    ensures LengthOf(b) == (b & 7) as int
  {
  }

  /** Block `b` exclusive-or-ed with nothing is `b`, and with itself nothing. */
  lemma XorWithZeros(b: seq<bv8>)
    requires |b| == 8
    ensures XorBytes(b, Zeros()) == b && XorBytes(b, b) == Zeros()
  {
  }

  /** A digit pads as its number, any other character as 0. */
  lemma PadDigit(d: nat, code: int)
    ensures d < 10 ==> PadByte('0' as int + d) as int == d
    ensures !('0' as int <= code <= '9' as int) ==> PadByte(code) == 0
  {
  }

  /** The last block: the rest of the text, padding, and the length of the rest. */
  lemma LastBlockAt(str: seq<bv8>, pads: seq<bv8>, k: nat)
    requires |str| < 8 && |pads| == 7 && k < 8
    ensures LastBlock(str, pads)[k]
         == if k == 7 then LengthByte(|str|) else if k < |str| then str[k] else pads[k - |str|]
  {
  }

  /** The first eight codes of a key, filled up with zeros. */
  lemma KeyCodeAt(key: seq<int>, k: nat)
    requires k < 8
    ensures KeyCodes(key)[k] == if k < |key| then key[k] else 0
  {
  }

  /** The parts of a key are eight characters each, the last one what is left, and together they are the key. */
  lemma PartAt(key: seq<int>, i: nat)
    requires i < |Parts(key)|
    ensures |Parts(key)[i]| == (if i < |Parts(key)| - 1 then 8 else |key| - 8 * i) && 1 <= |Parts(key)[i]| <= 8
    ensures forall k :: 0 <= k < |Parts(key)[i]| ==> Parts(key)[i][k] == key[8 * i + k]
  {
  }

  /** Block by block: every full block of text is chained to the block of output before it and converted. */
  lemma {:induction false} ChainedAt(sp: SBoxes, ks: Schedule, prev: seq<bv8>, str: seq<bv8>, pads: seq<bv8>, i: nat)
    requires |prev| == 8 && |pads| == 7 && 8 * i + 8 <= |str|
    ensures var out := Encrypted(sp, ks, prev, str, pads);
      && 8 * i + 16 <= |out|
      && out[8 * i..8 * i + 8]
         == Convert(sp, ks, XorBytes(str[8 * i..8 * i + 8], if i == 0 then prev else out[8 * i - 8..8 * i]), true)
    decreases i
  {
    hide Convert, XorBytes, LastBlock;
    var c := Convert(sp, ks, XorBytes(str[..8], prev), true);
    var out, rest := Encrypted(sp, ks, prev, str, pads), Encrypted(sp, ks, c, str[8..], pads);
    FirstEncrypted(sp, ks, prev, str, pads);
    assert out[..8] == c && out[8..] == rest;
    if i > 0 {
      ChainedAt(sp, ks, c, str[8..], pads, i - 1);
      Behind(str, 8 * i - 8, 8 * i);
      Behind(out, 8 * i - 8, 8 * i);
      if i > 1 {
        Behind(out, 8 * i - 16, 8 * i - 8);
      }
    }
  }

  /** What is left of the text is padded, chained and converted as the last block. */
  lemma {:induction false} LastChained(sp: SBoxes, ks: Schedule, prev: seq<bv8>, str: seq<bv8>, pads: seq<bv8>, m: nat)
    requires |prev| == 8 && |pads| == 7 && m % 8 == 0 && m <= |str| < m + 8
    ensures |Encrypted(sp, ks, prev, str, pads)| == m + 8
    ensures var out := Encrypted(sp, ks, prev, str, pads);
      out[m..] == Last(sp, ks, if m == 0 then prev else out[m - 8..m], str[m..], pads)
    decreases m
  {
    hide Convert, XorBytes, LastBlock, Last;
    if m == 0 {
      OnlyBlock(sp, ks, prev, str, pads);
      assert str[0..] == str && Encrypted(sp, ks, prev, str, pads)[0..] == Encrypted(sp, ks, prev, str, pads);
    } else {
      var c := Convert(sp, ks, XorBytes(str[..8], prev), true);
      var out, rest := Encrypted(sp, ks, prev, str, pads), Encrypted(sp, ks, c, str[8..], pads);
      FirstEncrypted(sp, ks, prev, str, pads);
      LastChained(sp, ks, c, str[8..], pads, m - 8);
      assert out[..8] == c && out[8..] == rest;
      assert str[8..][m - 8..] == str[m..] && rest[m - 8..] == out[m..];
      if m > 8 {
        Behind(out, m - 16, m - 8);
      } else {
        assert out[m - 8..m] == c;
      }
    }
  }

  function Last(sp: SBoxes, ks: Schedule, prev: seq<bv8>, rest: seq<bv8>, pads: seq<bv8>): seq<bv8>
    requires |prev| == 8 && |pads| == 7 && |rest| < 8
  {
    Convert(sp, ks, XorBytes(LastBlock(rest, pads), prev), true)
  }

  lemma OnlyBlock(sp: SBoxes, ks: Schedule, prev: seq<bv8>, str: seq<bv8>, pads: seq<bv8>)
    requires |prev| == 8 && |pads| == 7 && |str| < 8
    ensures Encrypted(sp, ks, prev, str, pads) == Last(sp, ks, prev, str, pads)
  {
    hide Convert, XorBytes, LastBlock;
  }

  lemma Behind(s: seq<bv8>, a: nat, b: nat)
    requires a <= b <= |s| - 8
    ensures s[8..][a..b] == s[a + 8..b + 8]
  {
  }
}
