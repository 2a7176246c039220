/**
  Where every bit of a block goes: the permutations and the round function of des.js against the tables of FIPS 46-3.
 */
module DesBits {
  import opened Words
  import opened Des

  // ---- Single bits ----

  function OneBit(x: bv32, i: bv6): bool
    requires i < 32
  {
    (x >> i) & 1 == 1
  }

  lemma XorBit(a: bv32, b: bv32, i: bv6)
    requires i < 32
    ensures OneBit(Xor(a, b), i) <==> OneBit(a, i) != OneBit(b, i)
  {
    hide OneBit;
    BitOfXor(a, b, a ^ b, i);
  }

  lemma BitOfXor(a: bv32, b: bv32, c: bv32, i: bv6)
    requires i < 32 && c == a ^ b
    ensures OneBit(c, i) <==> OneBit(a, i) != OneBit(b, i)
  {
  }

  lemma AndBit(a: bv32, b: bv32, i: bv6)
    requires i < 32
    ensures OneBit(And(a, b), i) <==> OneBit(a, i) && OneBit(b, i)
  {
  }

  lemma OrBit(a: bv32, b: bv32, i: bv6)
    requires i < 32
    ensures OneBit(Or(a, b), i) <==> OneBit(a, i) || OneBit(b, i)
  {
  }

  /** How the shifts and the mask of an exchange move a bit. */
  ghost predicate StepBits(x: bv32, i: bv6, n: bv6, mask: bv32)
    requires i < 32 && n <= 16
  {
    && (OneBit(mask, i) <==> i & n == 0)
    && (i & n == 0 ==> i + n < 32 && i + n == i ^ n && OneBit(Sar(x, n), i) == OneBit(x, i + n))
    && (i & n != 0 ==> n <= i && i - n == i ^ n)
    && (OneBit(Shl(x, n), i) <==> n <= i && OneBit(x, i - n))
  }

  lemma Bits4(x: bv32, i: bv6)
    requires i < 32
    ensures StepBits(x, i, 4, 0x0f0f0f0f)
  {
  }

  lemma Bits16(x: bv32, i: bv6)
    requires i < 32
    ensures StepBits(x, i, 16, 0x0000ffff)
  {
  }

  lemma Bits2(x: bv32, i: bv6)
    requires i < 32
    ensures StepBits(x, i, 2, 0x33333333)
  {
  }

  lemma Bits8(x: bv32, i: bv6)
    requires i < 32
    ensures StepBits(x, i, 8, 0x00ff00ff)
  {
  }

  lemma Bits1(x: bv32, i: bv6)
    requires i < 32
    ensures StepBits(x, i, 1, 0x55555555)
  {
  }

  lemma AllSteps(x: bv32, i: bv6, n: bv6, mask: bv32)
    requires IsStep(n, mask) && i < 32
    ensures n <= 16 && StepBits(x, i, n, mask)
  {
    hide StepBits;
    Bits4(x, i);
    Bits16(x, i);
    Bits2(x, i);
    Bits8(x, i);
    Bits1(x, i);
  }

  // ---- Exchanges ----

  /** Bit `i` of a block: the low five bits of `i` count within a half, the sixth selects the right half. */
  function Bit(h: Halves, i: bv6): bool {
    if i < 32 then OneBit(h.l, i) else OneBit(h.r, i - 32)
  }

  /** The place the bit at `i` comes from in an exchange by `n`: places with and without `n` change halves. */
  function Turn(i: bv6, n: bv6): bv6 {
    if (i & 32 == 0) == (i & n == 0) then i ^ 32 ^ n else i
  }

  /** The bits that differ, as they are put into both halves. */
  lemma DifferBit(a: bv32, b: bv32, n: bv6, mask: bv32, i: bv6)
    requires IsStep(n, mask) && i < 32
    ensures n <= 16 && (i & n == 0 ==> i + n < 32)
    ensures OneBit(Differ(a, b, n, mask), i) <==> i & n == 0 && OneBit(b, i + n) != OneBit(a, i)
  {
    hide Xor, And, Sar, OneBit;
    AllSteps(b, i, n, mask);
    AndBit(Xor(Sar(b, n), a), mask, i);
    XorBit(Sar(b, n), a, i);
  }

  lemma ExchangeLeft(a: bv32, b: bv32, n: bv6, mask: bv32, i: bv6)
    requires IsStep(n, mask) && i < 32
    ensures n <= 16 && i ^ n < 32
    ensures OneBit(Exchange(a, b, n, mask).l, i) == if i & n == 0 then OneBit(b, i ^ n) else OneBit(a, i)
  {
    hide Xor, And, Sar, Shl, Differ, OneBit;
    var t := Differ(a, b, n, mask);
    InHalf(i, n, mask);
    DifferBit(a, b, n, mask, i);
    AllSteps(b, i, n, mask);
    XorBit(a, t, i);
  }

  lemma ExchangeRight(a: bv32, b: bv32, n: bv6, mask: bv32, i: bv6)
    requires IsStep(n, mask) && i < 32
    ensures n <= 16 && i ^ n < 32
    ensures OneBit(Exchange(a, b, n, mask).r, i) == if i & n != 0 then OneBit(a, i ^ n) else OneBit(b, i)
  {
    hide Xor, And, Sar, Shl, Differ, OneBit;
    var t := Differ(a, b, n, mask);
    InHalf(i, n, mask);
    AllSteps(t, i, n, mask);
    XorBit(b, Shl(t, n), i);
    if n <= i {
      DifferBit(a, b, n, mask, i - n);
    }
  }

  lemma InHalf(i: bv6, n: bv6, mask: bv32)
    requires i < 32 && IsStep(n, mask)
    ensures n <= 16 && i ^ n < 32
    ensures n <= i && (i - n) & n == 0 <==> i & n != 0
    ensures i & n != 0 ==> n <= i && i - n == i ^ n && i - n + n == i
  {
  }

  /** An exchange moves bits as `Turn` says. */
  lemma ExchangeBit(a: bv32, b: bv32, n: bv6, mask: bv32, i: bv6)
    requires IsStep(n, mask)
    ensures n <= 32 && Bit(Exchange(a, b, n, mask), i) == Bit(Halves(a, b), Turn(i, n))
  {
    hide Exchange, OneBit;
    Places(i, n, mask);
    if i < 32 {
      ExchangeLeft(a, b, n, mask, i);
    } else {
      ExchangeRight(a, b, n, mask, i - 32);
    }
  }

  lemma Places(i: bv6, n: bv6, mask: bv32)
    requires IsStep(n, mask)
    ensures i < 32 ==> Turn(i, n) == if i & n == 0 then (i ^ n) + 32 else i
    ensures i >= 32 ==> var j := i - 32; Turn(i, n) == if j & n != 0 then j ^ n else i
    ensures i < 32 ==> i ^ n < 32 && (i ^ n) + 32 >= 32 && (i ^ n) + 32 - 32 == i ^ n
    ensures i >= 32 ==> (i - 32) ^ n < 32
  {
  }

  // ---- The permutations ----

  lemma SwapBit(h: Halves, i: bv6)
    ensures Bit(Swap(h), i) == Bit(h, i ^ 32)
  {
    hide OneBit;
    OtherHalf(i);
  }

  lemma OtherHalf(i: bv6)
    ensures i < 32 ==> i ^ 32 >= 32 && (i ^ 32) - 32 == i
    ensures i >= 32 ==> i ^ 32 == i - 32 < 32
  {
  }

  /** The same for an exchange of the right half with the left one. */
  function TurnBack(i: bv6, n: bv6): bv6 {
    Turn(i ^ 32, n) ^ 32
  }

  lemma ExchangeBackBit(h: Halves, n: bv6, mask: bv32, i: bv6)
    requires IsStep(n, mask)
    ensures n <= 32 && Bit(Swap(Exchange(h.r, h.l, n, mask)), i) == Bit(h, TurnBack(i, n))
  {
    hide Exchange, Bit, Turn;
    SwapBit(Exchange(h.r, h.l, n, mask), i);
    ExchangeBit(h.r, h.l, n, mask, i ^ 32);
    SwapBit(h, Turn(i ^ 32, n));
  }

  /** Bit `p` of a block in the numbering of FIPS 46-3: from 1, the high bit of each byte first. */
  function Place(p: bv8): bv6
    requires 1 <= p <= 64
  {
    ((p - 1) as bv6) ^ 7
  }

  /**
    The table IP of FIPS 46-3, from 0: 58, 50, ..., 2, then 60, ..., 4, and so on; the last four rows begin with 57.
   */
  function InitialTable(q: bv6): (p: bv8)
    ensures 1 <= p <= 64
  {
    var row, col := (q >> 3) as bv8, (q & 7) as bv8;
    (if row < 4 then 58 + 2 * row else 57 + 2 * (row - 4)) - 8 * col
  }

  /** The table of the inverse permutation, from 0: 40, 8, 48, 16, ..., then 39, 7, and so on. */
  function FinalTable(q: bv6): (p: bv8)
    ensures 1 <= p <= 64
  {
    var row, col := (q >> 3) as bv8, (q & 7) as bv8;
    (if col & 1 == 0 then 40 else 8) + 8 * (col >> 1) - row
  }

  /** Every bit after `doIP`, counted from the low bit of the left half, is the one the table IP names. */
  lemma InitialBits(h: Halves, q: bv6)
    ensures Bit(IP(h), q) == Bit(h, Place(InitialTable(q)))
  {
    hide Exchange, Bit, Turn, TurnBack, Place, InitialTable;
    var h1 := Exchange(h.l, h.r, 4, 0x0f0f0f0f);
    var h2 := Swap(Exchange(h1.r, h1.l, 16, 0x0000ffff));
    var h3 := Exchange(h2.l, h2.r, 2, 0x33333333);
    var h4 := Swap(Exchange(h3.r, h3.l, 8, 0x00ff00ff));
    var h5 := Exchange(h4.l, h4.r, 1, 0x55555555);
    SwapBit(h5, q);
    var i4 := Turn(q ^ 32, 1);
    ExchangeBit(h4.l, h4.r, 1, 0x55555555, q ^ 32);
    var i3 := TurnBack(i4, 8);
    ExchangeBackBit(h3, 8, 0x00ff00ff, i4);
    var i2 := Turn(i3, 2);
    ExchangeBit(h2.l, h2.r, 2, 0x33333333, i3);
    var i1 := TurnBack(i2, 16);
    ExchangeBackBit(h1, 16, 0x0000ffff, i2);
    ExchangeBit(h.l, h.r, 4, 0x0f0f0f0f, i1);
    InitialPlaces(q);
  }

  lemma InitialPlaces(q: bv6)
    ensures Turn(TurnBack(Turn(TurnBack(Turn(q ^ 32, 1), 8), 2), 16), 4) == Place(InitialTable(q))
  {
  }

  /**
    Every bit after `doFP` is the one the inverse table names in the block made of the right half and then the left.
   */
  lemma FinalBits(h: Halves, q: bv6)
    ensures Bit(FP(h), q ^ 7) == Bit(Swap(h), (FinalTable(q) - 1) as bv6)
  {
    hide Exchange, Bit, Turn, TurnBack, FinalTable;
    var h1 := Exchange(h.l, h.r, 1, 0x55555555);
    var h2 := Swap(Exchange(h1.r, h1.l, 8, 0x00ff00ff));
    var h3 := Exchange(h2.l, h2.r, 2, 0x33333333);
    var h4 := Swap(Exchange(h3.r, h3.l, 16, 0x0000ffff));
    var i4 := Turn(q ^ 7, 4);
    ExchangeBit(h4.l, h4.r, 4, 0x0f0f0f0f, q ^ 7);
    var i3 := TurnBack(i4, 16);
    ExchangeBackBit(h3, 16, 0x0000ffff, i4);
    var i2 := Turn(i3, 2);
    ExchangeBit(h2.l, h2.r, 2, 0x33333333, i3);
    var i1 := TurnBack(i2, 8);
    ExchangeBackBit(h1, 8, 0x00ff00ff, i2);
    ExchangeBit(h.l, h.r, 1, 0x55555555, i1);
    SwapBit(h, (FinalTable(q) - 1) as bv6);
    FinalPlaces(q);
  }

  lemma FinalPlaces(q: bv6)
    ensures Turn(TurnBack(Turn(TurnBack(Turn(q ^ 7, 4), 16), 2), 8), 1) == ((FinalTable(q) - 1) as bv6) ^ 32
  {
  }

  // ---- Bytes ----

  /** Byte `i / 8` of the block holds bit `i` at `i % 8`. */
  lemma LoadBit(b: seq<bv8>, i: bv6)
    requires |b| == 8
    ensures Bit(Load(b), i) == ((b[(i >> 3) as int] >> (i & 7)) & 1 == 1)
  {
    hide Word, OneBit;
    var k := i >> 3;
    ByteNumber(i);
    if k < 4 {
      WordBit(b[0], b[1], b[2], b[3], i);
    } else {
      WordBit(b[4], b[5], b[6], b[7], i - 32);
    }
  }

  lemma ByteNumber(i: bv6)
    ensures (i >> 3) as int < 8 && (i < 32 <==> i >> 3 < 4)
    ensures i >= 32 ==> (i - 32) >> 3 == (i >> 3) - 4 && (i - 32) & 7 == i & 7
  {
  }

  lemma WordBit(b0: bv8, b1: bv8, b2: bv8, b3: bv8, i: bv6)
    requires i < 32
    ensures OneBit(Word(b0, b1, b2, b3), i)
      <==> ((if i < 8 then b0 else if i < 16 then b1 else if i < 24 then b2 else b3) >> (i & 7)) & 1 == 1
  {
  }

  // ---- The round function ----

  /** Table `b` is indexed by six bits of the half, from the one before `4 * b` on, and six of the schedule word. */
  ghost predicate IsIndex(v: bv6, x: bv32, k: bv32, b: bv6)
    requires b < 8
  {
    forall c: bv6 :: c < 6 ==> IndexBit(v, x, k, b, c)
  }

  predicate IndexBit(v: bv6, x: bv32, k: bv32, b: bv6, c: bv6)
    requires b < 8 && c < 6
  {
    BitAt(v, c) == (OneBit(x, (4 * b + c - 1) & 31) != OneBit(k, (4 * b + c) & 31))
  }

  function BitAt(v: bv6, c: bv6): bool
    requires c < 6
  {
    (v >> c) & 1 == 1
  }

  lemma SixBit(x: bv32, n: bv6, c: bv6)
    requires n <= 24 && c < 6
    ensures BitAt(Six(x, n), c) == OneBit(x, n + c)
  {
  }

  lemma RotatedLeft(x: bv32, i: bv6)
    requires i < 32
    ensures OneBit(Rotl1(x), i) == OneBit(x, (i - 1) & 31)
  {
    hide Or, Shl, And, Sar, OneBit;
    OrBit(Shl(x, 1), And(Sar(x, 31), 1), i);
    AndBit(Sar(x, 31), 1, i);
    LeftParts(x, i);
  }

  lemma LeftParts(x: bv32, i: bv6)
    requires i < 32
    ensures OneBit(Shl(x, 1), i) <==> i >= 1 && OneBit(x, i - 1)
    ensures OneBit(1, i) <==> i == 0
    ensures OneBit(Sar(x, 31), 0) == OneBit(x, 31)
    ensures (i - 1) & 31 == if i == 0 then 31 else i - 1
  {
    hide OneBit, Shl, Sar;
    LeftShl(x, i);
    LeftMask(x, i);
    LeftSar(x, i);
    LeftPlace(x, i);
  }

  lemma LeftShl(x: bv32, i: bv6)
    requires i < 32
    ensures OneBit(Shl(x, 1), i) <==> i >= 1 && OneBit(x, i - 1)
  {
  }

  lemma LeftMask(x: bv32, i: bv6)
    requires i < 32
    ensures OneBit(1, i) <==> i == 0
  {
  }

  lemma LeftSar(x: bv32, i: bv6)
    requires i < 32
    ensures OneBit(Sar(x, 31), 0) == OneBit(x, 31)
  {
  }

  lemma LeftPlace(x: bv32, i: bv6)
    requires i < 32
    ensures (i - 1) & 31 == if i == 0 then 31 else i - 1
  {
  }

  lemma RotatedRight(x: bv32, i: bv6)
    requires i < 32
    ensures OneBit(Rotr4(x), i) == OneBit(x, (i + 4) & 31)
  {
    hide Or, Shl, And, Sar, OneBit;
    OrBit(And(Sar(x, 4), 0x0fffffff), Shl(x, 28), i);
    AndBit(Sar(x, 4), 0x0fffffff, i);
    RightParts(x, i);
  }

  lemma RightParts(x: bv32, i: bv6)
    requires i < 32
    ensures OneBit(Shl(x, 28), i) <==> i >= 28 && OneBit(x, i - 28)
    ensures OneBit(0x0fffffff, i) <==> i < 28
    ensures i < 28 ==> OneBit(Sar(x, 4), i) == OneBit(x, i + 4)
    ensures (i + 4) & 31 == if i < 28 then i + 4 else i - 28
  {
    hide OneBit, Shl, Sar;
    RightShl(x, i);
    RightMask(x, i);
    RightSar(x, i);
    RightPlace(x, i);
  }

  lemma RightShl(x: bv32, i: bv6)
    requires i < 32
    ensures OneBit(Shl(x, 28), i) <==> i >= 28 && OneBit(x, i - 28)
  {
  }

  lemma RightMask(x: bv32, i: bv6)
    requires i < 32
    ensures OneBit(0x0fffffff, i) <==> i < 28
  {
  }

  lemma RightSar(x: bv32, i: bv6)
    requires i < 32
    ensures i < 28 ==> OneBit(Sar(x, 4), i) == OneBit(x, i + 4)
  {
  }

  lemma RightPlace(x: bv32, i: bv6)
    requires i < 32
    ensures (i + 4) & 31 == if i < 28 then i + 4 else i - 28
  {
  }

  lemma EvenIndex(x: bv32, k: bv32, b: bv6)
    requires b < 8 && b & 1 == 0
    ensures 4 * b <= 24 && IsIndex(Six(Xor(Rotl1(x), k), 4 * b), x, k, b)
  {
    hide Six, Rotl1, Xor, OneBit, BitAt;
    var y := Xor(Rotl1(x), k);
    var v := Six(y, 4 * b);
    forall c: bv6 | c < 6
      ensures IndexBit(v, x, k, b, c)
    {
      SixBit(y, 4 * b, c);
      XorBit(Rotl1(x), k, 4 * b + c);
      RotatedLeft(x, 4 * b + c);
    }
  }

  lemma OddIndex(x: bv32, k: bv32, b: bv6)
    requires b < 8 && b & 1 == 1
    ensures 4 * b - 4 <= 24 && IsIndex(Six(Rotr4(Xor(Rotl1(x), k)), 4 * b - 4), x, k, b)
  {
    hide Six, Rotl1, Rotr4, Xor, OneBit, BitAt;
    var y := Xor(Rotl1(x), k);
    var v := Six(Rotr4(y), 4 * b - 4);
    forall c: bv6 | c < 6
      ensures IndexBit(v, x, k, b, c)
    {
      SixBit(Rotr4(y), 4 * b - 4, c);
      RotatedRight(y, 4 * b - 4 + c);
      XorBit(Rotl1(x), k, (4 * b + c) & 31);
      RotatedLeft(x, (4 * b + c) & 31);
    }
  }

  /** The entries of the eight tables, put together. */
  function Merged(sp: SBoxes, v: seq<bv6>): bv32
    requires |v| == 8
  {
    sp(0, v[0]) | sp(1, v[1]) | sp(2, v[2]) | sp(3, v[3]) | sp(4, v[4]) | sp(5, v[5]) | sp(6, v[6]) | sp(7, v[7])
  }

  lemma LookupsMerged(sp: SBoxes, t: bv32, u: bv32)
    ensures Lookups(sp, t, u)
         == Merged(sp, [Six(u, 0), Six(t, 0), Six(u, 8), Six(t, 8), Six(u, 16), Six(t, 16), Six(u, 24), Six(t, 24)])
  {
    hide Six;
    OrEight(sp(0, Six(u, 0)), sp(1, Six(t, 0)), sp(2, Six(u, 8)), sp(3, Six(t, 8)),
            sp(4, Six(u, 16)), sp(5, Six(t, 16)), sp(6, Six(u, 24)), sp(7, Six(t, 24)));
  }

  /**
    A round looks up all eight tables, as E and the S-boxes of FIPS 46-3 do: even ones with the first schedule word, odd
    ones with the second.
   */
  lemma RoundLookups(sp: SBoxes, x: bv32, k0: bv32, k1: bv32) returns (v: seq<bv6>)
    ensures |v| == 8
    ensures forall b: nat :: b < 8 ==> IsIndex(v[b], x, if b % 2 == 0 then k0 else k1, b as bv6)
    ensures F(sp, x, k0, k1) == Merged(sp, v)
  {
    hide IsIndex, Six, Rotl1, Rotr4, Xor, Lookups, Merged;
    var u, t := Xor(Rotl1(x), k0), Rotr4(Xor(Rotl1(x), k1));
    v := [Six(u, 0), Six(t, 0), Six(u, 8), Six(t, 8), Six(u, 16), Six(t, 16), Six(u, 24), Six(t, 24)];
    LookupsMerged(sp, t, u);
    EvenIndex(x, k0, 0);
    OddIndex(x, k1, 1);
    EvenIndex(x, k0, 2);
    OddIndex(x, k1, 3);
    EvenIndex(x, k0, 4);
    OddIndex(x, k1, 5);
    EvenIndex(x, k0, 6);
    OddIndex(x, k1, 7);
  }

  lemma OrEight(a: bv32, b: bv32, c: bv32, d: bv32, e: bv32, f: bv32, g: bv32, h: bv32)
    ensures b | d | f | h | a | c | e | g == a | b | c | d | e | f | g | h
  {
  }

  // ---- Sixteen rounds ----

  /** The rounds of FIPS 46-3: the right half moves to the left, and is mixed into the left one with the next key. */
  function Feistel(sp: SBoxes, keys: seq<(bv32, bv32)>, h: Halves): Halves {
    if keys == [] then h
    else
      var n := |keys| - 1;
      var g := Feistel(sp, keys[..n], h);
      Halves(g.r, Xor(g.l, F(sp, g.r, keys[n].0, keys[n].1)))
  }

  /** Two schedule words for each round, in order, from round `n` on. */
  function Keys(ks: seq<bv32>, n: nat): (keys: seq<(bv32, bv32)>)
    requires 2 * n <= |ks|
  {
    seq(n, i requires 0 <= i < n => (ks[2 * i], ks[2 * i + 1]))
  }

  lemma FeistelMore(sp: SBoxes, keys: seq<(bv32, bv32)>, k: (bv32, bv32), h: Halves)
    ensures var g := Feistel(sp, keys, h);
      Feistel(sp, keys + [k], h) == Halves(g.r, Xor(g.l, F(sp, g.r, k.0, k.1)))
  {
    hide F, Xor;
    assert (keys + [k])[..|keys|] == keys;
  }

  /** The loop of encryption is sixteen rounds with the words of the schedule in order. */
  lemma {:induction false} EncryptingRounds(sp: SBoxes, ks: seq<bv32>, h: Halves, i: nat)
    requires |ks| == 32 && i <= 32 && i % 4 == 0
    ensures Forward(sp, ks, Feistel(sp, Keys(ks, i / 2), h), i) == Feistel(sp, Keys(ks, 16), h)
    decreases 32 - i
  {
    hide Double, Feistel;
    if i < 32 {
      var n := i / 2;
      TwoRounds(sp, ks, h, n);
      EncryptingRounds(sp, ks, h, i + 4);
    }
  }

  lemma TwoRounds(sp: SBoxes, ks: seq<bv32>, h: Halves, n: nat)
    requires 2 * n + 4 <= |ks|
    ensures Double(sp, ks, Feistel(sp, Keys(ks, n), h), 2 * n) == Feistel(sp, Keys(ks, n + 2), h)
  {
    hide F, Xor, Feistel;
    assert Keys(ks, n + 1) == Keys(ks, n) + [(ks[2 * n], ks[2 * n + 1])];
    assert Keys(ks, n + 2) == Keys(ks, n + 1) + [(ks[2 * n + 2], ks[2 * n + 3])];
    FeistelMore(sp, Keys(ks, n), (ks[2 * n], ks[2 * n + 1]), h);
    FeistelMore(sp, Keys(ks, n + 1), (ks[2 * n + 2], ks[2 * n + 3]), h);
  }

  /** The loop of decryption is sixteen rounds with the pairs of words in reverse order. */
  lemma {:induction false} DecryptingRounds(sp: SBoxes, ks: seq<bv32>, h: Halves, i: nat)
    requires |ks| == 32 && i <= 32 && i % 4 == 0
    ensures Backward(sp, ks, Feistel(sp, Reverse(Keys(ks, 16))[..16 - i / 2], h), i)
         == Feistel(sp, Reverse(Keys(ks, 16)), h)
    decreases i
  {
    hide DoubleBack, Feistel;
    if i == 0 {
      assert Reverse(Keys(ks, 16))[..16] == Reverse(Keys(ks, 16));
    } else {
      TwoRoundsBack(sp, ks, h, i);
      DecryptingRounds(sp, ks, h, i - 4);
    }
  }

  lemma TwoRoundsBack(sp: SBoxes, ks: seq<bv32>, h: Halves, i: nat)
    requires |ks| == 32 && 4 <= i <= 32 && i % 4 == 0
    ensures var keys, m := Reverse(Keys(ks, 16)), 16 - i / 2;
      DoubleBack(sp, ks, Feistel(sp, keys[..m], h), i - 2) == Feistel(sp, keys[..m + 2], h)
  {
    hide F, Xor, Feistel;
    var keys, m := Reverse(Keys(ks, 16)), 16 - i / 2;
    assert keys[..m + 1] == keys[..m] + [(ks[i - 2], ks[i - 1])];
    assert keys[..m + 2] == keys[..m + 1] + [(ks[i - 4], ks[i - 3])];
    FeistelMore(sp, keys[..m], (ks[i - 2], ks[i - 1]), h);
    FeistelMore(sp, keys[..m + 1], (ks[i - 4], ks[i - 3]), h);
  }

  /** A block is converted by IP, sixteen rounds with the keys in order or in reverse, and FP. */
  lemma BlockConversion(sp: SBoxes, ks: seq<bv32>, b: seq<bv8>, encrypt: bool)
    requires |ks| == 32 && |b| == 8
    ensures var keys := if encrypt then Keys(ks, 16) else Reverse(Keys(ks, 16));
      Load(Convert(sp, ks, b, encrypt)) == FP(Feistel(sp, keys, IP(Load(b))))
  {
    hide IP, FP, Load, Store, F, Xor, Forward, Backward;
    var h := IP(Load(b));
    LoadStore(FP(if encrypt then Forward(sp, ks, h, 0) else Backward(sp, ks, h, 32)));
    if encrypt {
      assert Keys(ks, 0) == [];
      EncryptingRounds(sp, ks, h, 0);
    } else {
      assert Reverse(Keys(ks, 16))[..0] == [];
      DecryptingRounds(sp, ks, h, 32);
    }
  }

  function Reverse(keys: seq<(bv32, bv32)>): seq<(bv32, bv32)> {
    seq(|keys|, i requires 0 <= i < |keys| => keys[|keys| - 1 - i])
  }
}
