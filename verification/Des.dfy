/**
  One block of DES as manager/js/des.js computes it: 32-bit words, bit-swap permutations and sixteen Feistel rounds.
  The key schedule and the S-boxes are parameters, because nothing proved here depends on their contents.
 */
module Des {
  import opened Words

  /** Entry `e` of `des_SP0` to `des_SP7`. */
  type SBoxes = (nat, bv6) -> bv32

  datatype Halves = Halves(l: bv32, r: bv32)

  function Swap(h: Halves): Halves {
    Halves(h.r, h.l)
  }

  // ---- The bit-swap permutations ----

  /** What `t=((b>>n)^a)&mask` picks out: the masked bits in which `a` and the shifted `b` differ. */
  function Differ(a: bv32, b: bv32, n: bv6, mask: bv32): bv32
    requires n <= 32
  {
    And(Xor(Sar(b, n), a), mask)
  }

  /** `b^=(t<<n); a^=t` then exchanges them. */
  function Exchange(a: bv32, b: bv32, n: bv6, mask: bv32): Halves
    requires n <= 32
  {
    var t := Differ(a, b, n, mask);
    Halves(Xor(a, t), Xor(b, Shl(t, n)))
  }

  /** `doIP` */
  function IP(h: Halves): Halves {
    var h1 := Exchange(h.l, h.r, 4, 0x0f0f0f0f);
    var h2 := Swap(Exchange(h1.r, h1.l, 16, 0x0000ffff));
    var h3 := Exchange(h2.l, h2.r, 2, 0x33333333);
    var h4 := Swap(Exchange(h3.r, h3.l, 8, 0x00ff00ff));
    var h5 := Exchange(h4.l, h4.r, 1, 0x55555555);
    Swap(h5)
  }

  /** `doFP` */
  function FP(h: Halves): Halves {
    var h1 := Exchange(h.l, h.r, 1, 0x55555555);
    var h2 := Swap(Exchange(h1.r, h1.l, 8, 0x00ff00ff));
    var h3 := Exchange(h2.l, h2.r, 2, 0x33333333);
    var h4 := Swap(Exchange(h3.r, h3.l, 16, 0x0000ffff));
    Exchange(h4.l, h4.r, 4, 0x0f0f0f0f)
  }

  /** The shifts and masks of the five steps. */
  predicate IsStep(n: bv6, mask: bv32) {
    || (n == 4 && mask == 0x0f0f0f0f) || (n == 16 && mask == 0x0000ffff) || (n == 2 && mask == 0x33333333)
    || (n == 8 && mask == 0x00ff00ff) || (n == 1 && mask == 0x55555555)
  }

  /** Under the mask, shifting right distributes over exclusive or, and undoes shifting left. */
  ghost predicate MaskedShift(b: bv32, c: bv32, x: bv32, n: bv6, mask: bv32)
    requires n <= 32
  {
    && And(Sar(Xor(b, c), n), mask) == Xor(And(Sar(b, n), mask), And(Sar(c, n), mask))
    && And(Sar(Shl(And(x, mask), n), n), mask) == And(x, mask)
  }

  lemma Masked4(b: bv32, c: bv32, x: bv32)
    ensures MaskedShift(b, c, x, 4, 0x0f0f0f0f)
  {
  }

  lemma Masked16(b: bv32, c: bv32, x: bv32)
    ensures MaskedShift(b, c, x, 16, 0x0000ffff)
  {
  }

  lemma Masked2(b: bv32, c: bv32, x: bv32)
    ensures MaskedShift(b, c, x, 2, 0x33333333)
  {
  }

  lemma Masked8(b: bv32, c: bv32, x: bv32)
    ensures MaskedShift(b, c, x, 8, 0x00ff00ff)
  {
  }

  lemma Masked1(b: bv32, c: bv32, x: bv32)
    ensures MaskedShift(b, c, x, 1, 0x55555555)
  {
  }

  lemma Masked(b: bv32, c: bv32, x: bv32, n: bv6, mask: bv32)
    requires IsStep(n, mask)
    ensures n <= 32 && MaskedShift(b, c, x, n, mask)
  {
    hide MaskedShift;
    Masked4(b, c, x);
    Masked16(b, c, x);
    Masked2(b, c, x);
    Masked8(b, c, x);
    Masked1(b, c, x);
  }

  /** After the exchange the same bits differ. */
  lemma SameDifference(a: bv32, b: bv32, n: bv6, mask: bv32)
    requires IsStep(n, mask)
    ensures n <= 32
    ensures var t := Differ(a, b, n, mask); Differ(Xor(a, t), Xor(b, Shl(t, n)), n, mask) == t
  {
    hide Xor, And, Sar, Shl;
    var x := Xor(Sar(b, n), a);
    var t := And(x, mask);
    var p, q := And(Sar(b, n), mask), And(a, mask);
    Masked(b, Shl(t, n), x, n, mask);
    AndXor(Sar(Xor(b, Shl(t, n)), n), Xor(a, t), mask);
    AndXor(a, t, mask);
    AndAnd(x, mask);
    XorFour(p, q, t);
    AndXor(Sar(b, n), a, mask);
  }

  /** Doing one exchange again undoes it. */
  lemma ExchangeTwice(a: bv32, b: bv32, n: bv6, mask: bv32)
    requires IsStep(n, mask)
    ensures n <= 32 && var h := Exchange(a, b, n, mask); Exchange(h.l, h.r, n, mask) == Halves(a, b)
  {
    hide Xor, Differ, Shl;
    SameDifference(a, b, n, mask);
    var t := Differ(a, b, n, mask);
    XorTwice(a, t);
    XorTwice(b, Shl(t, n));
  }

  /** The final permutation reverses the initial one, up to exchanging the halves. */
  lemma FinalAfterInitial(h: Halves)
    ensures FP(Swap(IP(h))) == h
  {
    hide Exchange;
    var h1 := Exchange(h.l, h.r, 4, 0x0f0f0f0f);
    var h2 := Swap(Exchange(h1.r, h1.l, 16, 0x0000ffff));
    var h3 := Exchange(h2.l, h2.r, 2, 0x33333333);
    var h4 := Swap(Exchange(h3.r, h3.l, 8, 0x00ff00ff));
    ExchangeTwice(h4.l, h4.r, 1, 0x55555555);
    ExchangeTwice(h3.r, h3.l, 8, 0x00ff00ff);
    ExchangeTwice(h2.l, h2.r, 2, 0x33333333);
    ExchangeTwice(h1.r, h1.l, 16, 0x0000ffff);
    ExchangeTwice(h.l, h.r, 4, 0x0f0f0f0f);
  }

  /** And the initial permutation reverses the final one, also up to exchanging the halves. */
  lemma InitialAfterFinal(h: Halves)
    ensures IP(FP(h)) == Swap(h)
  {
    hide Exchange;
    var h1 := Exchange(h.l, h.r, 1, 0x55555555);
    var h2 := Swap(Exchange(h1.r, h1.l, 8, 0x00ff00ff));
    var h3 := Exchange(h2.l, h2.r, 2, 0x33333333);
    var h4 := Swap(Exchange(h3.r, h3.l, 16, 0x0000ffff));
    ExchangeTwice(h4.l, h4.r, 4, 0x0f0f0f0f);
    ExchangeTwice(h3.r, h3.l, 16, 0x0000ffff);
    ExchangeTwice(h2.l, h2.r, 2, 0x33333333);
    ExchangeTwice(h1.r, h1.l, 8, 0x00ff00ff);
    ExchangeTwice(h.l, h.r, 1, 0x55555555);
  }

  // ---- Rounds ----

  /** `(x<<1)|((x>>31)&0x1)` */
  function Rotl1(x: bv32): bv32 {
    Or(Shl(x, 1), And(Sar(x, 31), 1))
  }

  /** `((x>>4)&0x0fffffff)|(x<<28)` */
  function Rotr4(x: bv32): bv32 {
    Or(And(Sar(x, 4), 0x0fffffff), Shl(x, 28))
  }

  function Six(x: bv32, n: bv6): bv6
    requires n <= 32
  {
    (Sar(x, n) & 0x3f) as bv6
  }

  /** What a round mixes into the other half. */
  function F(sp: SBoxes, x: bv32, k0: bv32, k1: bv32): bv32 {
    var u := Xor(Rotl1(x), k0);
    var t := Rotr4(Xor(Rotl1(x), k1));
    Lookups(sp, t, u)
  }

  function Lookups(sp: SBoxes, t: bv32, u: bv32): bv32 {
    sp(1, Six(t, 0)) | sp(3, Six(t, 8)) | sp(5, Six(t, 16)) | sp(7, Six(t, 24))
    | sp(0, Six(u, 0)) | sp(2, Six(u, 8)) | sp(4, Six(u, 16)) | sp(6, Six(u, 24))
  }

  /** Two rounds with the four schedule words from `i` on. */
  function Double(sp: SBoxes, ks: seq<bv32>, h: Halves, i: nat): Halves
    requires i + 4 <= |ks|
  {
    var l := Xor(h.l, F(sp, h.r, ks[i], ks[i + 1]));
    Halves(l, Xor(h.r, F(sp, l, ks[i + 2], ks[i + 3])))
  }

  /** All rounds of encryption from word `i` on. */
  function Forward(sp: SBoxes, ks: seq<bv32>, h: Halves, i: nat): Halves
    requires |ks| == 32 && i <= 32 && i % 4 == 0
    decreases 32 - i
  {
    if i == 32 then h else Forward(sp, ks, Double(sp, ks, h, i), i + 4)
  }

  /** Two rounds of decryption, with words `i`, `i + 1` and then `i - 2`, `i - 1`. */
  function DoubleBack(sp: SBoxes, ks: seq<bv32>, h: Halves, i: nat): Halves
    requires 2 <= i && i + 2 <= |ks|
  {
    var l := Xor(h.l, F(sp, h.r, ks[i], ks[i + 1]));
    Halves(l, Xor(h.r, F(sp, l, ks[i - 2], ks[i - 1])))
  }

  /** All rounds of decryption with the words before `i`. */
  function Backward(sp: SBoxes, ks: seq<bv32>, h: Halves, i: nat): Halves
    requires |ks| == 32 && i <= 32 && i % 4 == 0
    decreases i
  {
    if i == 0 then h else Backward(sp, ks, DoubleBack(sp, ks, h, i - 2), i - 4)
  }

  lemma DoubleUndone(sp: SBoxes, ks: seq<bv32>, h: Halves, i: nat)
    requires |ks| == 32 && i + 4 <= 32
    ensures DoubleBack(sp, ks, Swap(Double(sp, ks, h, i)), i + 2) == Swap(h)
  {
    hide F, Xor;
    var l := Xor(h.l, F(sp, h.r, ks[i], ks[i + 1]));
    XorTwice(h.r, F(sp, l, ks[i + 2], ks[i + 3]));
    XorTwice(h.l, F(sp, h.r, ks[i], ks[i + 1]));
  }

  /** Backward rounds undo forward rounds when the halves are exchanged before and after. */
  lemma {:induction false} RoundsUndone(sp: SBoxes, ks: seq<bv32>, h: Halves, i: nat)
    requires |ks| == 32 && i <= 32 && i % 4 == 0
    ensures Backward(sp, ks, Swap(Forward(sp, ks, h, i)), 32) == Backward(sp, ks, Swap(h), i)
    decreases 32 - i
  {
    hide Double, DoubleBack;
    if i < 32 {
      RoundsUndone(sp, ks, Double(sp, ks, h, i), i + 4);
      DoubleUndone(sp, ks, h, i);
    }
  }

  // ---- Blocks of bytes ----

  function Word(b0: bv8, b1: bv8, b2: bv8, b3: bv8): bv32 {
    (b0 as bv32) | ((b1 as bv32) << 8) | ((b2 as bv32) << 16) | ((b3 as bv32) << 24)
  }

  function ByteOf(x: bv32, n: bv6): bv8
    requires n <= 32
  {
    (Sar(x, n) & 0xff) as bv8
  }

  function Load(b: seq<bv8>): Halves
    requires |b| == 8
  {
    Halves(Word(b[0], b[1], b[2], b[3]), Word(b[4], b[5], b[6], b[7]))
  }

  function Store(h: Halves): (b: seq<bv8>)
    ensures |b| == 8
  {
    [ByteOf(h.l, 0), ByteOf(h.l, 8), ByteOf(h.l, 16), ByteOf(h.l, 24),
     ByteOf(h.r, 0), ByteOf(h.r, 8), ByteOf(h.r, 16), ByteOf(h.r, 24)]
  }

  lemma WordBytes(b0: bv8, b1: bv8, b2: bv8, b3: bv8)
    ensures var w := Word(b0, b1, b2, b3);
      ByteOf(w, 0) == b0 && ByteOf(w, 8) == b1 && ByteOf(w, 16) == b2 && ByteOf(w, 24) == b3
  {
  }

  lemma BytesWord(x: bv32)
    ensures Word(ByteOf(x, 0), ByteOf(x, 8), ByteOf(x, 16), ByteOf(x, 24)) == x
  {
  }

  lemma StoreLoad(b: seq<bv8>)
    requires |b| == 8
    ensures Store(Load(b)) == b
  {
    hide Word, ByteOf;
    WordBytes(b[0], b[1], b[2], b[3]);
    WordBytes(b[4], b[5], b[6], b[7]);
  }

  lemma LoadStore(h: Halves)
    ensures Load(Store(h)) == h
  {
    hide Word, ByteOf;
    BytesWord(h.l);
    BytesWord(h.r);
  }

  /** `des_convert` */
  function Convert(sp: SBoxes, ks: seq<bv32>, b: seq<bv8>, encrypt: bool): (c: seq<bv8>)
    requires |ks| == 32 && |b| == 8
    ensures |c| == 8
  {
    var h := IP(Load(b));
    Store(FP(if encrypt then Forward(sp, ks, h, 0) else Backward(sp, ks, h, 32)))
  }

  /** Decrypting a block undoes encrypting it, for every schedule and all S-boxes. */
  lemma ConvertUndone(sp: SBoxes, ks: seq<bv32>, b: seq<bv8>)
    requires |ks| == 32 && |b| == 8
    ensures Convert(sp, ks, Convert(sp, ks, b, true), false) == b
  {
    hide IP, FP, Load, Store, Forward, Backward;
    var h := IP(Load(b));
    var e := Forward(sp, ks, h, 0);
    LoadStore(FP(e));
    InitialAfterFinal(e);
    RoundsUndone(sp, ks, h, 0);
    BackwardNone(sp, ks, Swap(h));
    FinalAfterInitial(Load(b));
    StoreLoad(b);
  }

  lemma BackwardNone(sp: SBoxes, ks: seq<bv32>, h: Halves)
    requires |ks| == 32
    ensures Backward(sp, ks, h, 0) == h
  {
  }

  // ---- The code ----

  class Cipher {
    const sp: SBoxes
    /** `des_l` and `des_r` */
    var l: bv32
    var r: bv32
    /** `des_ks` */
    var ks: seq<bv32>

    constructor (sp: SBoxes)
      ensures this.sp == sp
    {
      this.sp := sp;
    }

    method DoIP()
      modifies `l, `r
      ensures Halves(l, r) == IP(old(Halves(l, r)))
    {
      hide Sar, Shl, And, Xor;
      var l0, r0 := l, r;
      var t := And(Xor(Sar(r0, 4), l0), 0x0f0f0f0f);
      r0 := Xor(r0, Shl(t, 4));
      l0 := Xor(l0, t);
      t := And(Xor(Sar(l0, 16), r0), 0x0000ffff);
      l0 := Xor(l0, Shl(t, 16));
      r0 := Xor(r0, t);
      t := And(Xor(Sar(r0, 2), l0), 0x33333333);
      r0 := Xor(r0, Shl(t, 2));
      l0 := Xor(l0, t);
      t := And(Xor(Sar(l0, 8), r0), 0x00ff00ff);
      l0 := Xor(l0, Shl(t, 8));
      r0 := Xor(r0, t);
      t := And(Xor(Sar(r0, 1), l0), 0x55555555);
      r0 := Xor(r0, Shl(t, 1));
      l0 := Xor(l0, t);
      t := l0;
      l0 := r0;
      r0 := t;
      l, r := l0, r0;
    }

    method DoFP()
      modifies `l, `r
      ensures Halves(l, r) == FP(old(Halves(l, r)))
    {
      hide Sar, Shl, And, Xor;
      var l0, r0 := l, r;
      var t := And(Xor(Sar(r0, 1), l0), 0x55555555);
      r0 := Xor(r0, Shl(t, 1));
      l0 := Xor(l0, t);
      t := And(Xor(Sar(l0, 8), r0), 0x00ff00ff);
      l0 := Xor(l0, Shl(t, 8));
      r0 := Xor(r0, t);
      t := And(Xor(Sar(r0, 2), l0), 0x33333333);
      r0 := Xor(r0, Shl(t, 2));
      l0 := Xor(l0, t);
      t := And(Xor(Sar(l0, 16), r0), 0x0000ffff);
      l0 := Xor(l0, Shl(t, 16));
      r0 := Xor(r0, t);
      t := And(Xor(Sar(r0, 4), l0), 0x0f0f0f0f);
      r0 := Xor(r0, Shl(t, 4));
      l0 := Xor(l0, t);
      l, r := l0, r0;
    }

    /** One round of the unrolled loops: what is mixed into the other half. */
    method Round(x: bv32, k0: bv32, k1: bv32) returns (f: bv32)
      ensures f == F(sp, x, k0, k1)
    {
      hide Sar, Shl, And, Or, Xor, Lookups;
      var t := Or(Shl(x, 1), And(Sar(x, 31), 1));
      var u := Xor(t, k0);
      t := Xor(t, k1);
      t := Or(And(Sar(t, 4), 0x0fffffff), Shl(t, 28));
      f := Lookups(sp, t, u);
    }

    /** The first round of the encryption loop is written with two more masks. */
    method MaskedRound(x: bv32, k0: bv32, k1: bv32) returns (f: bv32)
      ensures f == F(sp, x, k0, k1)
    {
      hide Sar, Shl, And, Or, Xor, Lookups;
      var t := Or(Shl(And(x, 0x7fffffff), 1), And(Sar(x, 31), 1));
      TopBitGoes(x);
      var u := Xor(t, k0);
      t := Xor(t, k1);
      HighBitsGo(t);
      t := Or(And(Sar(t, 4), 0x0fffffff), Shl(And(t, 0x0000000f), 28));
      f := Lookups(sp, t, u);
    }

    method Encrypting(l0: bv32, r0: bv32) returns (l1: bv32, r1: bv32)
      requires |ks| == 32
      ensures Halves(l1, r1) == Forward(sp, ks, Halves(l0, r0), 0)
    {
      hide F, Xor;
      l1, r1 := l0, r0;
      var i := 0;
      while i < 32
        invariant 0 <= i <= 32 && i % 4 == 0
        invariant Forward(sp, ks, Halves(l0, r0), 0) == Forward(sp, ks, Halves(l1, r1), i)
      {
        var f := MaskedRound(r1, ks[i], ks[i + 1]);
        l1 := Xor(l1, f);
        f := Round(l1, ks[i + 2], ks[i + 3]);
        r1 := Xor(r1, f);
        i := i + 4;
      }
    }

    method Decrypting(l0: bv32, r0: bv32) returns (l1: bv32, r1: bv32)
      requires |ks| == 32
      ensures Halves(l1, r1) == Backward(sp, ks, Halves(l0, r0), 32)
    {
      hide F, Xor;
      l1, r1 := l0, r0;
      var i := 30;
      while i > 0
        invariant -2 <= i <= 30 && (i + 2) % 4 == 0
        invariant Backward(sp, ks, Halves(l0, r0), 32) == Backward(sp, ks, Halves(l1, r1), i + 2)
      {
        var f := Round(r1, ks[i], ks[i + 1]);
        l1 := Xor(l1, f);
        f := Round(l1, ks[i - 2], ks[i - 1]);
        r1 := Xor(r1, f);
        i := i - 4;
      }
    }

    method GetBytes(input: array<bv8>)
      requires input.Length == 8
      modifies `l, `r
      ensures Halves(l, r) == Load(input[..])
    {
      hide Word;
      l := Word(input[0], input[1], input[2], input[3]);
      r := Word(input[4], input[5], input[6], input[7]);
    }

    method PutBytes(input: array<bv8>)
      requires input.Length == 8
      modifies input
      ensures input[..] == Store(Halves(l, r))
    {
      hide ByteOf;
      input[0] := ByteOf(l, 0);
      input[1] := ByteOf(l, 8);
      input[2] := ByteOf(l, 16);
      input[3] := ByteOf(l, 24);
      input[4] := ByteOf(r, 0);
      input[5] := ByteOf(r, 8);
      input[6] := ByteOf(r, 16);
      input[7] := ByteOf(r, 24);
    }

    /** `des_convert`: eight bytes in place. */
    method ConvertBlock(input: array<bv8>, encrypt: bool)
      requires |ks| == 32 && input.Length == 8
      modifies `l, `r, input
      ensures input[..] == Convert(sp, ks, old(input[..]), encrypt)
    {
      hide IP, FP, Forward, Backward, Load, Store;
      GetBytes(input);
      DoIP();
      if encrypt {
        l, r := Encrypting(l, r);
      } else {
        l, r := Decrypting(l, r);
      }
      DoFP();
      PutBytes(input);
    }
  }

  /** The bits the first round masks off are shifted out anyway. */
  lemma TopBitGoes(x: bv32)
    ensures Shl(And(x, 0x7fffffff), 1) == Shl(x, 1)
  {
  }

  lemma HighBitsGo(x: bv32)
    ensures Shl(And(x, 0x0000000f), 28) == Shl(x, 28)
  {
  }
}
