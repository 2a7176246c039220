/** The bit buffer of the decoder: `zip_NEEDBITS`, `zip_GETBITS`, `zip_DUMPBITS` and `zip_GET_BYTE`. */
module BitReader {
  import Digits
  import opened Bits
  import opened Deflate
  import opened JsNumbers

  // ---- Bitwise or on two's complement numbers ----

  function Or(x: int, y: int): int
    decreases (if x < 0 then -x else x) + if y < 0 then -y else y
  {
    if (x == 0 || x == -1) && (y == 0 || y == -1) then (if x == -1 || y == -1 then -1 else 0)
    else 2 * Or(x / 2, y / 2) + if x % 2 == 1 || y % 2 == 1 then 1 else 0
  }

  lemma {:induction false} OrZero(y: int)
    ensures Or(0, y) == y
    decreases if y < 0 then -y else y
  {
    if y != 0 && y != -1 {
      OrZero(y / 2);
    }
  }

  /** Or-ing in bits above all the bits there are is adding. */
  lemma {:induction false} OrAbove(x: int, y: int, n: nat)
    requires 0 <= x < Pow2(n)
    ensures Or(x, y * Pow2(n)) == x + y * Pow2(n)
  {
    if n == 0 {
      OrZero(y);
    } else {
      OrAbove(x / 2, y, n - 1);
      EvenProduct(y, Pow2(n - 1));
      if (x == 0 || x == -1) && (y * Pow2(n) == 0 || y * Pow2(n) == -1) {
      } else {
        assert Or(x, y * Pow2(n)) == 2 * Or(x / 2, y * Pow2(n) / 2) + x % 2;
      }
    }
  }

  lemma EvenProduct(y: int, p: int)
    ensures y * (2 * p) % 2 == 0 && y * (2 * p) / 2 == y * p
  {
    assert y * (2 * p) == 2 * (y * p);
  }

  /** Or-ing ones in above the sign changes nothing. */
  lemma {:induction false} OrOnes(x: int, n: nat)
    requires -Pow2(n) <= x < 0
    ensures Or(x, -1 * Pow2(n)) == x
    decreases n
  {
    if n > 0 {
      OrOnes(x / 2, n - 1);
    }
  }

  // ---- The input ----

  /** The bits not loaded yet. `zip_GET_BYTE` returns -1 at the end of the data, so they end in ones for ever. */
  function Unread(data: seq<int>, pos: nat): int
    requires pos <= |data|
    decreases |data| - pos
  {
    if pos == |data| then -1 else data[pos] % 256 + 256 * Unread(data, pos + 1)
  }

  lemma UnreadStep(data: seq<int>, pos: nat)
    requires pos <= |data|
    ensures pos == |data| ==> Unread(data, pos) == -1
    ensures pos < |data| ==> Unread(data, pos) == data[pos] % 256 + 256 * Unread(data, pos + 1)
  {
  }

  lemma LoadByte(buf: int, byte: int, len: nat, above: int)
    requires 0 <= buf < Pow2(len) && 0 <= byte < 256
    ensures 0 <= buf + byte * Pow2(len) < Pow2(len + 8)
    ensures buf + (byte + 256 * above) * Pow2(len) == (buf + byte * Pow2(len)) + above * Pow2(len + 8)
  {
    hide Pow2;
    PowersOfTwo();
    Pow2Add(len, 8);
    LoadArithmetic(buf, byte, Pow2(len), above);
  }

  lemma LoadArithmetic(buf: int, byte: int, p: int, above: int)
    requires 0 <= buf < p && 0 <= byte < 256
    ensures 0 <= buf + byte * p < p * 256
    ensures buf + (byte + 256 * above) * p == (buf + byte * p) + above * (p * 256)
  {
    ByteProduct(byte, p);
    AboveProduct(byte, above, p);
  }

  lemma ByteProduct(byte: int, p: int)
    requires 0 <= byte < 256 && 0 <= p
    ensures 0 <= byte * p <= 255 * p
  {
  }

  lemma AboveProduct(byte: int, above: int, p: int)
    ensures (byte + 256 * above) * p == byte * p + above * (p * 256)
  {
  }

  lemma SmallBuffer(n: nat)
    requires n <= 23
    ensures Pow2(n) <= 8388608
  {
    Pow2Monotone(n, 23);
    PowersOfTwo();
    Pow2Add(10, 13);
  }

  lemma PeekBuffer(buf: int, above: int, len: nat, n: nat)
    requires n <= len
    ensures (buf + above * Pow2(len)) % Pow2(n) == buf % Pow2(n)
    ensures (buf + above * Pow2(len)) / Pow2(n) == buf / Pow2(n) + above * Pow2(len - n)
  {
    hide Pow2;
    Pow2Add(n, len - n);
    DivMod(buf, Pow2(n));
    Regroup(buf / Pow2(n), Pow2(n), above, Pow2(len - n));
    Digits.QuotientUnique(buf + above * Pow2(len), Pow2(n), buf / Pow2(n) + above * Pow2(len - n), buf % Pow2(n));
  }

  lemma Regroup(q: int, p: int, a: int, r: int)
    ensures q * p + a * (p * r) == (q + a * r) * p
  {
    assert (a * r) * p == a * (p * r);
  }

  lemma ShiftedBuffer(buf: int, len: nat, n: nat)
    requires n <= len
    ensures 0 <= buf < Pow2(len) ==> 0 <= buf / Pow2(n) < Pow2(len - n)
    ensures -Pow2(len) <= buf < 0 ==> -Pow2(len - n) <= buf / Pow2(n) < 0
  {
    hide Pow2;
    Pow2Add(n, len - n);
    DivMod(buf, Pow2(n));
    QuotientRange(buf / Pow2(n), Pow2(n), Pow2(len - n), buf % Pow2(n));
  }

  lemma QuotientRange(q: int, p: int, r: int, m: int)
    requires 0 <= m < p && 0 < r
    ensures 0 <= q * p + m < p * r ==> 0 <= q < r
    ensures -(p * r) <= q * p + m < 0 ==> -r <= q < 0
  {
    if q >= r {
      if q > r { ProductGap(r, q, p); }
      assert r * p == p * r;
    }
    if q < -r {
      ProductGap(q, -r, p);
      assert (-r) * p == -(p * r);
    }
    if q < 0 {
      ProductGap(q, 0, p);
    }
  }

  class Reader {
    var data: seq<int>
    var pos: nat
    var buf: int
    var len: nat
    /** How many bits have been dropped. */
    ghost var used: nat

    constructor (data: seq<int>)
      ensures Valid() && fresh(this)
      ensures Rest() == Stream(Unread(data, 0), 0)
    {
      this.data := data;
      pos, buf, len, used := 0, 0, 0, 0;
      new;
      assert Pow2(0) == 1;
    }

    /** Loaded bits are non-negative until the end of the data, then the buffer ends in ones. Bytes are loaded whole. */
    ghost predicate Valid()
      reads this
    {
      && pos <= |data| && len <= 23 && (used + len) % 8 == 0
      && (0 <= buf < Pow2(len) || (pos == |data| && -Pow2(len) <= buf < 0))
    }

    /** All bits still to come. */
    ghost function Rest(): Stream
      requires Valid()
      reads this
    {
      Stream(if buf < 0 then buf else buf + Unread(data, pos) * Pow2(len), used)
    }

    method GetByte() returns (b: int)
      requires Valid()
      modifies this`pos
      ensures old(pos) == |data| ==> b == -1 && pos == old(pos)
      ensures old(pos) < |data| ==> b == data[old(pos)] % 256 && pos == old(pos) + 1
    {
      if |data| == pos {
        return -1;
      }
      b := data[pos] % 256;
      pos := pos + 1;
    }

    /** Loading whole bytes until `n` bits are there does not change what is to come. */
    method NeedBits(n: nat)
      requires Valid() && n <= 16
      modifies this
      ensures Valid() && len >= n && Rest() == old(Rest()) && data == old(data)
    {
      while len < n
        invariant Valid() && Rest() == old(Rest()) && data == old(data)
        decreases n - len
      {
        LoadOne();
      }
    }

    /** One round of the loop; on 32-bit numbers nothing is lost. */
    method LoadOne()
      requires Valid() && len < 16
      modifies this
      ensures Valid() && len == old(len) + 8 && Rest() == old(Rest()) && data == old(data)
    {
      hide Pow2, Or, ToInt32, Unread;
      UnreadStep(data, pos);
      ghost var above := if pos < |data| then Unread(data, pos + 1) else -1;
      var b := GetByte();
      if buf < 0 {
        OrOnes(buf, len);
      } else {
        OrAbove(buf, b, len);
      }
      Loaded(buf, b, len, above);
      buf := ToInt32(Or(buf, b * Pow2(len)));
      len := len + 8;
    }

    /** `zip_bit_buf & zip_MASK_BITS[n]`. */
    function GetBits(n: nat): (v: int)
      requires Valid() && n <= len
      reads this
      ensures v == Peek(Rest(), n)
    {
      PeekBuffer(buf, Unread(data, pos), len, n);
      buf % Pow2(n)
    }

    /** `zip_bit_buf >>= n`. */
    method DumpBits(n: nat)
      requires Valid() && n <= len
      modifies this
      ensures Valid() && Rest() == Drop(old(Rest()), n) && data == old(data) && len == old(len) - n
    {
      hide Pow2;
      PeekBuffer(buf, Unread(data, pos), len, n);
      ShiftedBuffer(buf, len, n);
      buf := buf / Pow2(n);
      len := len - n;
      used := used + n;
    }

    /** The three steps together. */
    method TakeBits(n: nat) returns (v: int)
      requires Valid() && n <= 16
      modifies this
      ensures Valid() && v == Peek(old(Rest()), n) && Rest() == Drop(old(Rest()), n) && data == old(data)
    {
      NeedBits(n);
      v := GetBits(n);
      DumpBits(n);
    }
  }

  lemma Loaded(buf: int, b: int, len: nat, above: int)
    requires len < 16
    requires (0 <= buf < Pow2(len) && (0 <= b < 256 || b == -1)) || (-Pow2(len) <= buf < 0 && b == -1)
    ensures 0 <= buf && 0 <= b ==>
      (var x := buf + b * Pow2(len);
       0 <= x < Pow2(len + 8) && ToInt32(x) == x && x + above * Pow2(len + 8) == buf + (b + 256 * above) * Pow2(len))
    ensures 0 <= buf && b == -1 ==>
      (var x := buf + b * Pow2(len); -Pow2(len + 8) <= x < 0 && ToInt32(x) == x)
    ensures buf < 0 ==> -Pow2(len + 8) <= buf && ToInt32(buf) == buf
  {
    hide Pow2;
    SmallBuffer(len + 8);
    Pow2Monotone(len, len + 8);
    if 0 <= buf && 0 <= b {
      LoadByte(buf, b, len, above);
    }
  }
}
