/**
  The compressed data format of RFC 1951, read the simple way: one code, one token, one byte
  at a time, over an unbounded bit stream. The decoder is proved against these functions.
 */
module Deflate {
  import Digits
  import opened Bits
  import opened CanonicalCode
  import opened HuffmanTables
  import opened HuftInvariant

  const WSIZE := 32768

  /** `zip_cplens` and `zip_cplext`: lengths of the symbols from 257 on and their extra bits. */
  const COPY_LENGTHS: seq<int> :=
    [3, 4, 5, 6, 7, 8, 9, 10, 11, 13, 15, 17, 19, 23, 27, 31, 35, 43, 51, 59, 67, 83, 99, 115, 131, 163, 195, 227,
     258, 0, 0]
  const LENGTH_EXTRA: seq<int> :=
    [0, 0, 0, 0, 0, 0, 0, 0, 1, 1, 1, 1, 2, 2, 2, 2, 3, 3, 3, 3, 4, 4, 4, 4, 5, 5, 5, 5, 0, 99, 99]
  /** `zip_cpdist` and `zip_cpdext`. */
  const COPY_DISTANCES: seq<int> :=
    [1, 2, 3, 4, 5, 7, 9, 13, 17, 25, 33, 49, 65, 97, 129, 193, 257, 385, 513, 769, 1025, 1537, 2049, 3073, 4097,
     6145, 8193, 12289, 16385, 24577]
  const DISTANCE_EXTRA: seq<int> :=
    [0, 0, 0, 0, 1, 1, 2, 2, 3, 3, 4, 4, 5, 5, 6, 6, 7, 7, 8, 8, 9, 9, 10, 10, 11, 11, 12, 12, 13, 13]
  /** `zip_border`: the order in which code length code lengths are sent. */
  const BORDER: seq<int> := [16, 17, 18, 0, 8, 7, 9, 6, 10, 5, 11, 4, 12, 3, 13, 2, 14, 1, 15]

  function Border(j: nat): (i: nat)
    requires j < 19
    ensures i < 19
  {
    BORDER[j]
  }

  // ---- Bits ----

  /** What is left of the stream, least significant bit first, and how many bits were used before. */
  datatype Stream = Stream(s: int, used: nat)

  function Drop(b: Stream, n: nat): Stream {
    Stream(b.s / Pow2(n), b.used + n)
  }

  function Peek(b: Stream, n: nat): (v: int)
    ensures 0 <= v < Pow2(n)
  {
    ModRange(b.s, Pow2(n));
    b.s % Pow2(n)
  }

  /** The number of bits before the stream repeats one bit for ever. */
  function Len(s: int): nat
    decreases if s < 0 then -s else s
  {
    if s == 0 || s == -1 then 0 else 1 + Len(s / 2)
  }

  lemma {:induction false} LenDrop(s: int, n: nat)
    ensures Len(s / Pow2(n)) <= Len(s)
    ensures n > 0 && Len(s) > 0 ==> Len(s / Pow2(n)) < Len(s)
    decreases n
  {
    if n == 0 {
      assert Pow2(0) == 1;
    } else {
      HalfThenDrop(s, n - 1);
      LenDrop(s / 2, n - 1);
    }
  }

  // ---- Code sets ----

  /** A code set the decoder works with: complete, or a single code of one bit. */
  ghost predicate Acceptable(lens: seq<int>) {
    && IsLengths(lens) && !AllZero(lens)
    && (KraftSum(lens) == SPACE || (KraftSum(lens) < SPACE && IsLongest(lens, 1)))
  }

  datatype Symbol = Symbol(s: nat) | NoSymbol

  /** The symbol whose canonical code the stream starts with. */
  ghost function SymbolAt(lens: seq<int>, stream: int): (r: Symbol)
    ensures r.Symbol? ==> StartsWith(lens, stream, r.s)
    ensures r.NoSymbol? ==> forall s :: !StartsWith(lens, stream, s)
  {
    if s: nat :| StartsWith(lens, stream, s) then Symbol(s) else NoSymbol
  }

  lemma SymbolIs(lens: seq<int>, stream: int, s: int)
    requires StartsWith(lens, stream, s)
    ensures SymbolAt(lens, stream) == Symbol(s)
  {
    var r := SymbolAt(lens, stream);
    if r.Symbol? {
      AtMostOne(lens, stream, s, r.s);
    }
  }

  lemma SymbolIsNot(lens: seq<int>, stream: int)
    requires forall s :: !StartsWith(lens, stream, s)
    ensures SymbolAt(lens, stream) == NoSymbol
  {
  }

  /** The code lengths of section 3.2.6. */
  function FixedLit(): (lens: seq<int>)
    ensures |lens| == 288 && IsLengths(lens)
  {
    Copies(144, 8) + Copies(112, 9) + Copies(24, 7) + Copies(8, 8)
  }

  function FixedDist(): (lens: seq<int>)
    ensures |lens| == 30 && IsLengths(lens)
  {
    Copies(30, 5)
  }

  function Copies(n: nat, v: int): (r: seq<int>)
    ensures |r| == n && forall i :: 0 <= i < n ==> r[i] == v
  {
    seq(n, _ => v)
  }

  // ---- Tokens ----

  datatype Token =
    | Literal(b: int, rest: Stream)
    | EndOfBlock(rest: Stream)
    | Match(len: int, dist: int, rest: Stream)
    | BadCode

  /** One symbol, with its extra bits and the distance after a length: section 3.2.5. */
  ghost function ReadToken(lit: seq<int>, dist: seq<int>, bits: Stream): (t: Token)
    requires |lit| <= 288 && |dist| <= 30
    ensures t.Match? ==> 3 <= t.len <= 258 && 1 <= t.dist <= WSIZE
    ensures !t.BadCode? ==> Len(t.rest.s) <= Len(bits.s)
  {
    match SymbolAt(lit, bits.s)
    case NoSymbol => BadCode
    case Symbol(s) =>
      var b := Drop(bits, lit[s]);
      LenDrop(bits.s, lit[s]);
      if s < 256 then Literal(s, b)
      else if s == 256 then EndOfBlock(b)
      else if LENGTH_EXTRA[s - 257] == INVALID then BadCode
      else ReadMatch(s, dist, b)
  }

  ghost function ReadMatch(s: nat, dist: seq<int>, bits: Stream): (t: Token)
    requires 257 <= s <= 285 && |dist| <= 30
    ensures t.Match? ==> 3 <= t.len <= 258 && 1 <= t.dist <= WSIZE
    ensures t.Match? || t.BadCode?
    ensures t.Match? ==> Len(t.rest.s) <= Len(bits.s)
  {
    ExtraLength(s - 257);
    var e := LENGTH_EXTRA[s - 257];
    var len := COPY_LENGTHS[s - 257] + Peek(bits, e);
    var b := Drop(bits, e);
    LenDrop(bits.s, e);
    match SymbolAt(dist, b.s)
    case NoSymbol => BadCode
    case Symbol(d) =>
      ExtraDistance(d);
      var c := Drop(b, dist[d]);
      LenDrop(b.s, dist[d]);
      var f := DISTANCE_EXTRA[d];
      LenDrop(c.s, f);
      Match(len, COPY_DISTANCES[d] + Peek(c, f), Drop(c, f))
  }

  lemma ExtraLength(i: nat)
    requires i < 29
    ensures 0 <= LENGTH_EXTRA[i] <= 5 && COPY_LENGTHS[i] >= 3
    ensures COPY_LENGTHS[i] + Pow2(LENGTH_EXTRA[i]) - 1 <= 258
  {
    PowersOfTwo();
  }

  lemma ExtraDistance(i: nat)
    requires i < 30
    ensures 0 <= DISTANCE_EXTRA[i] <= 13 && COPY_DISTANCES[i] >= 1
    ensures COPY_DISTANCES[i] + Pow2(DISTANCE_EXTRA[i]) - 1 <= WSIZE
  {
    PowersOfTwo();
  }

  lemma PowersOfTwo()
    ensures Pow2(0) == 1 && Pow2(1) == 2 && Pow2(2) == 4 && Pow2(3) == 8 && Pow2(4) == 16 && Pow2(5) == 32
    ensures Pow2(6) == 64 && Pow2(7) == 128 && Pow2(8) == 256 && Pow2(9) == 512 && Pow2(10) == 1024
    ensures Pow2(11) == 2048 && Pow2(12) == 4096 && Pow2(13) == 8192
  {
    assert Pow2(0) == 1;
    assert Pow2(1) == 2 * Pow2(0);
    assert Pow2(2) == 2 * Pow2(1);
    assert Pow2(3) == 2 * Pow2(2);
    assert Pow2(4) == 2 * Pow2(3);
    assert Pow2(5) == 2 * Pow2(4);
    assert Pow2(6) == 2 * Pow2(5);
    assert Pow2(7) == 2 * Pow2(6);
    assert Pow2(8) == 2 * Pow2(7);
    assert Pow2(9) == 2 * Pow2(8);
    assert Pow2(10) == 2 * Pow2(9);
    assert Pow2(11) == 2 * Pow2(10);
    assert Pow2(12) == 2 * Pow2(11);
    assert Pow2(13) == 2 * Pow2(12);
  }

  // ---- Dynamic trees: section 3.2.7 ----

  /** The symbol of the code length code; a code set of a single code reads either bit as that code. */
  ghost function LengthSymbol(cl: seq<int>, stream: int): (s: nat)
    requires Acceptable(cl)
    ensures s < |cl| && 1 <= cl[s]
  {
    match SymbolAt(cl, stream)
    case Symbol(s) => s
    case NoSymbol =>
      SingleCode(cl, stream);
      OnlySymbol(cl)
  }

  ghost function OnlySymbol(cl: seq<int>): (s: nat)
    requires IsLengths(cl) && IsLongest(cl, 1)
    ensures s < |cl| && cl[s] == 1
  {
    CountZero(cl, 1);
    var s: nat :| s < |cl| && cl[s] == 1; s
  }

  /** The three-bit lengths of the code length code, in the order of `zip_border`. */
  function CodeLengths(bits: Stream, nb: nat, j: nat, cl: seq<int>): (r: (seq<int>, Stream))
    requires j <= 19 && nb <= 19 && |cl| >= 19
    ensures |r.0| == |cl| && Len(r.1.s) <= Len(bits.s)
    ensures forall i :: 0 <= i < |cl| ==> r.0[i] == cl[i] || 0 <= r.0[i] < 8
    decreases 19 - j
  {
    if j == 19 then (cl, bits)
    else if j < nb then
      LenDrop(bits.s, 3);
      assert Pow2(3) == 8 by { PowersOfTwo(); }
      CodeLengths(Drop(bits, 3), nb, j + 1, cl[Border(j) := Peek(bits, 3)])
    else CodeLengths(bits, nb, j + 1, cl[Border(j) := 0])
  }

  datatype Lengths = Lengths(lens: seq<int>, rest: Stream) | BadLengths

  /** What one symbol of the code length code says: how often to repeat which length, and after how many extra bits. */
  datatype Repeat = Repeat(times: nat, value: int, extra: nat)

  function RepeatOf(s: nat, bits: Stream, last: int): (r: Repeat)
    ensures r.times >= 1
    ensures s < 16 ==> r == Repeat(1, s, 0)
    ensures 0 <= last < 16 ==> 0 <= r.value < 16
  {
    if s < 16 then Repeat(1, s, 0)
    else if s == 16 then Repeat(3 + Peek(bits, 2), last, 2)
    else if s == 17 then Repeat(3 + Peek(bits, 3), 0, 3)
    else Repeat(11 + Peek(bits, 7), 0, 7)
  }

  ghost predicate Small(s: seq<int>) {
    forall i :: 0 <= i < |s| ==> 0 <= s[i] < 16
  }

  ghost function ReadLengths(cl: seq<int>, bits: Stream, n: nat, read: seq<int>, last: int): (r: Lengths)
    requires Acceptable(cl) && |read| <= n && 0 <= last < 16 && Small(read)
    ensures r.Lengths? ==> |r.lens| == n && Len(r.rest.s) <= Len(bits.s) && Small(r.lens)
    decreases n - |read|
  {
    if |read| == n then Lengths(read, bits)
    else
      var s := LengthSymbol(cl, bits.s);
      var b := Drop(bits, cl[s]);
      var rep := RepeatOf(s, b, last);
      LenDrop(bits.s, cl[s]);
      LenDrop(b.s, rep.extra);
      if |read| + rep.times > n then BadLengths
      else ReadLengths(cl, Drop(b, rep.extra), n, read + Copies(rep.times, rep.value), rep.value)
  }

  lemma SingleCode(cl: seq<int>, stream: int)
    requires Acceptable(cl) && forall s :: !StartsWith(cl, stream, s)
    ensures IsLongest(cl, 1) && KraftSum(cl) < SPACE
  {
    if KraftSum(cl) == SPACE {
      CompleteCovers(cl, stream);
    }
  }

  /** Every stream starts with a code of a complete set. */
  lemma CompleteCovers(cl: seq<int>, stream: int)
    requires IsLengths(cl) && KraftSum(cl) == SPACE
    ensures exists s :: StartsWith(cl, stream, s)
  {
    hide Rev, Pow2, KraftSum, NextCode, Count, Rank;
    KraftIsEndOfCodes(cl);
    RevBound(stream, MAX_BITS);
    Sixteen();
    CoveredTo(cl, stream, MAX_BITS);
  }

  /** The patterns of `k` bits below the end of the codes of `k` bits start with codes. */
  lemma {:induction false} CoveredTo(cl: seq<int>, stream: int, k: nat)
    requires IsLengths(cl) && 1 <= k <= MAX_BITS && Rev(stream, k) < EndOfCodes(cl, k)
    ensures exists s :: StartsWith(cl, stream, s)
  {
    hide Rev, Pow2, Count, Rank;
    if Rev(stream, k) >= NextCode(cl, k) {
      NthSymbol(cl, k, Rev(stream, k) - NextCode(cl, k));
      var s :| 0 <= s < |cl| && cl[s] == k && Rank(cl, s) == Rev(stream, k) - NextCode(cl, k);
      assert StartsWith(cl, stream, s);
    } else {
      RevBound(stream, k);
      LastBit(stream, k);
      CoveredTo(cl, stream, k - 1);
    }
  }

  lemma LastBit(stream: int, k: nat)
    requires k >= 1
    ensures 2 * Rev(stream, k - 1) <= Rev(stream, k)
  {
    hide Rev;
    RevSplit(stream, k - 1, 1);
    RevBound(stream / Pow2(k - 1), 1);
    assert Pow2(1) == 2 * Pow2(0) == 2;
  }

  lemma {:induction false} NthSymbol(lens: seq<int>, k: int, r: int)
    requires 0 <= r < Count(lens, k)
    ensures exists s :: 0 <= s < |lens| && lens[s] == k && Rank(lens, s) == r
  {
    var n := |lens| - 1;
    if lens[n] == k && r == Count(lens[..n], k) {
      assert Rank(lens, n) == r;
    } else {
      NthSymbol(lens[..n], k, r);
      var s :| 0 <= s < n && lens[..n][s] == k && Rank(lens[..n], s) == r;
      assert lens[..n][..s] == lens[..s];
      assert Rank(lens, s) == r;
    }
  }

  datatype Trees = Trees(lit: seq<int>, dist: seq<int>, rest: Stream) | BadTrees | NullTree

  /** Which code sets the decoder accepts after a dynamic header; a null literal tree only fails when it is used. */
  ghost function CheckTrees(lens: seq<int>, nl: nat, rest: Stream): (t: Trees)
    requires nl <= |lens| && IsLengths(lens)
  {
    var lit, dist := lens[..nl], lens[nl..];
    if !AllZero(lit) && !Acceptable(lit) then BadTrees
    else if AllZero(dist) && nl > 257 then BadTrees
    else if !AllZero(dist) && !Acceptable(dist) then BadTrees
    else if AllZero(lit) then NullTree
    else Trees(lit, dist, rest)
  }

  /** The counts of literal/length codes, distance codes and code length codes. */
  datatype HeaderCounts = HeaderCounts(nl: nat, nd: nat, nb: nat)

  function TreeCounts(bits: Stream): (c: HeaderCounts)
    ensures 257 <= c.nl && 1 <= c.nd && 4 <= c.nb <= 19
  {
    PowersOfTwo();
    HeaderCounts(257 + Peek(bits, 5), 1 + Peek(Drop(bits, 5), 5), 4 + Peek(Drop(Drop(bits, 5), 5), 4))
  }

  ghost function TreeLengths(cl: seq<int>, nl: nat, nd: nat, bits: Stream): (t: Trees)
    requires IsLengths(cl) && 257 <= nl <= 286 && 1 <= nd <= 30
    ensures TreesOk(t) && (t.Trees? ==> Len(t.rest.s) <= Len(bits.s))
  {
    if AllZero(cl) then NullTree
    else if !Acceptable(cl) then BadTrees
    else
      match ReadLengths(cl, bits, nl + nd, [], 0)
      case BadLengths => BadTrees
      case Lengths(lens, rest) => CheckTrees(lens, nl, rest)
  }

  ghost predicate TreesOk(t: Trees) {
    t.Trees? ==>
      && |t.lit| <= 286 && |t.dist| <= 30 && Acceptable(t.lit) && IsLengths(t.dist)
      && (|t.lit| > 257 ==> Acceptable(t.dist))
  }

  ghost function ReadTrees(bits: Stream): (t: Trees)
    ensures TreesOk(t) && (t.Trees? ==> Len(t.rest.s) <= Len(bits.s))
  {
    var c := TreeCounts(bits);
    var b := Drop(Drop(Drop(bits, 5), 5), 4);
    LenDrop(bits.s, 5);
    LenDrop(Drop(bits, 5).s, 5);
    LenDrop(Drop(Drop(bits, 5), 5).s, 4);
    if c.nl > 286 || c.nd > 30 then BadTrees
    else
      var r := CodeLengths(b, c.nb, 0, Copies(316, 0));
      TreeLengths(r.0[..19], c.nl, c.nd, r.1)
  }

  // ---- Blocks ----

  /** Where the decoder is: between blocks, in a stored block, or in a compressed one with a match partly copied. */
  datatype Block = NoBlock | Raw(left: nat) | Coded(lit: seq<int>, dist: seq<int>, left: nat, distance: nat)

  ghost predicate BlockOk(b: Block) {
    && (b.Raw? ==> b.left > 0)
    && (b.Coded? ==> CodesOk(b.lit, b.dist) && (b.left > 0 ==> 1 <= b.distance <= WSIZE))
  }

  ghost predicate CodesOk(lit: seq<int>, dist: seq<int>) {
    |lit| <= 288 && |dist| <= 30 && IsLengths(lit) && IsLengths(dist)
  }

  datatype Opening = Opened(block: Block, rest: Stream) | Broken | Throws

  /** The bits up to the next byte boundary. */
  function ToBoundary(used: nat): nat {
    (8 - used % 8) % 8
  }

  /** The header of a block after its first three bits. */
  ghost function OpenBlock(kind: int, bits: Stream): (o: Opening)
    ensures o.Opened? ==> BlockOk(o.block) && Len(o.rest.s) <= Len(bits.s)
  {
    if kind == 0 then OpenStored(bits)
    else if kind == 1 then Opened(Coded(FixedLit(), FixedDist(), 0, 0), bits)
    else if kind == 2 then
      match ReadTrees(bits)
      case Trees(lit, dist, rest) => Opened(Coded(lit, dist, 0, 0), rest)
      case BadTrees => Broken
      case NullTree => Throws
    else Broken
  }

  function OpenStored(bits: Stream): (o: Opening)
    ensures o.Opened? ==> BlockOk(o.block) && Len(o.rest.s) <= Len(bits.s)
  {
    var b := Drop(bits, ToBoundary(bits.used));
    var len := Peek(b, 16);
    var c := Drop(b, 16);
    LenDrop(bits.s, ToBoundary(bits.used));
    LenDrop(b.s, 16);
    LenDrop(c.s, 16);
    if len != 65535 - Peek(c, 16) then Broken
    else Opened(if len == 0 then NoBlock else Raw(len), Drop(c, 16))
  }

  // ---- Bytes ----

  /** The state of decoding; `hist` is all output so far, after whatever the window held before. */
  datatype Decoder = Decoder(bits: Stream, hist: seq<int>, last: bool, block: Block)

  ghost predicate DecoderOk(d: Decoder) {
    |d.hist| >= WSIZE && BlockOk(d.block)
  }

  datatype Out = Byte(b: int, next: Decoder) | End | Failed(last: bool) | Threw

  /** The byte `distance` back in the output. */
  function Back(hist: seq<int>, distance: nat): int
    requires 1 <= distance <= |hist|
  {
    hist[|hist| - distance]
  }

  function Emit(d: Decoder, b: int, bits: Stream, block: Block): Decoder {
    Decoder(bits, d.hist + [b], d.last, block)
  }

  function Copying(d: Decoder, lit: seq<int>, dist: seq<int>, left: nat, distance: nat, bits: Stream): Out
    requires 1 <= left && 1 <= distance <= |d.hist|
  {
    var b := Back(d.hist, distance);
    Byte(b, Emit(d, b, bits, Coded(lit, dist, left - 1, distance)))
  }

  /** The next byte of output. */
  ghost function Next(d: Decoder): (o: Out)
    requires DecoderOk(d)
    ensures o.Byte? ==> DecoderOk(o.next) && o.next.hist == d.hist + [o.b]
    decreases Len(d.bits.s), if d.block.NoBlock? then 0 else 1
  {
    match d.block
    case Raw(left) =>
      var b := Peek(d.bits, 8);
      Byte(b, Emit(d, b, Drop(d.bits, 8), if left == 1 then NoBlock else Raw(left - 1)))
    case Coded(lit, dist, left, distance) =>
      if left > 0 then Copying(d, lit, dist, left, distance, d.bits)
      else (
        match ReadToken(lit, dist, d.bits)
        case Literal(b, rest) => Byte(b, Emit(d, b, rest, d.block))
        case Match(len, dd, rest) => Copying(d, lit, dist, len, dd, rest)
        case EndOfBlock(rest) => Next(Decoder(rest, d.hist, d.last, NoBlock))
        case BadCode => Failed(d.last)
      )
    case NoBlock =>
      if d.last then End
      else
        var last := Peek(d.bits, 1) != 0;
        match OpenBlock(Peek(Drop(d.bits, 1), 2), Drop(Drop(d.bits, 1), 2))
        case Broken => Failed(last)
        case Throws => Threw
        case Opened(block, rest) =>
          HeaderProgress(d.bits, block, rest);
          Next(Decoder(rest, d.hist, last, block))
  }

  /** A stream of one repeated bit has no valid block header, so every header uses bits of the real stream. */
  lemma HeaderProgress(bits: Stream, block: Block, rest: Stream)
    requires OpenBlock(Peek(Drop(bits, 1), 2), Drop(Drop(bits, 1), 2)) == Opened(block, rest)
    ensures Len(rest.s) < Len(bits.s)
  {
    hide ReadTrees;
    LenDrop(bits.s, 1);
    LenDrop(Drop(bits, 1).s, 2);
    if Len(bits.s) == 0 {
      DropConstant(bits, 1);
      DropConstant(Drop(bits, 1), 2);
      var c := Drop(Drop(bits, 1), 2);
      DropConstant(c, ToBoundary(c.used));
      DropConstant(Drop(c, ToBoundary(c.used)), 16);
      PeekConstant(Drop(bits, 1), 2);
      PeekConstant(Drop(c, ToBoundary(c.used)), 16);
      PeekConstant(Drop(Drop(c, ToBoundary(c.used)), 16), 16);
    }
  }

  lemma DropConstant(b: Stream, n: nat)
    requires b.s == 0 || b.s == -1
    ensures Drop(b, n).s == b.s
  {
    Digits.QuotientUnique(b.s, Pow2(n), b.s, if b.s == 0 then 0 else Pow2(n) - 1);
  }

  lemma PeekConstant(b: Stream, n: nat)
    requires b.s == 0 || b.s == -1
    ensures Peek(b, n) == if b.s == 0 then 0 else Pow2(n) - 1
    ensures Pow2(2) == 4 && Pow2(16) == 65536
  {
    Digits.QuotientUnique(b.s, Pow2(n), b.s, if b.s == 0 then 0 else Pow2(n) - 1);
    Sixteen();
    PowersOfTwo();
  }

  // ---- Runs ----

  datatype Stop = More(d: Decoder) | Finished | Error(last: bool) | Exception

  /** At most `n` bytes of output and how it stopped. */
  datatype Ran = Ran(out: seq<int>, stop: Stop)

  ghost function Run(d: Decoder, n: nat): (r: Ran)
    requires DecoderOk(d)
    ensures |r.out| <= n && (r.stop.More? ==> |r.out| == n && DecoderOk(r.stop.d))
    decreases n
  {
    if n == 0 then Ran([], More(d))
    else
      match Next(d)
      case Byte(b, d') => Then([b], Run(d', n - 1))
      case End => Ran([], Finished)
      case Failed(last) => Ran([], Error(last))
      case Threw => Ran([], Exception)
  }

  function Then(out: seq<int>, r: Ran): Ran {
    Ran(out + r.out, r.stop)
  }

  /** Running on from where a run stopped is one longer run. */
  lemma {:induction false} RunSplit(d: Decoder, m: nat, n: nat)
    requires DecoderOk(d)
    ensures Run(d, m + n)
         == match Run(d, m).stop
            case More(d') => Then(Run(d, m).out, Run(d', n))
            case _ => Run(d, m)
    decreases m
  {
    hide Next;
    if m == 0 {
      assert [] + Run(d, n).out == Run(d, n).out;
    } else if Next(d).Byte? {
      RunSplit(Next(d).next, m - 1, n);
      var r := Run(Next(d).next, m - 1);
      if r.stop.More? {
        ThenThen([Next(d).b], r.out, Run(r.stop.d, n));
      }
    }
  }

  lemma ThenThen(a: seq<int>, b: seq<int>, r: Ran)
    ensures Then(a, Then(b, r)) == Then(a + b, r)
  {
    assert a + (b + r.out) == (a + b) + r.out;
  }
}
