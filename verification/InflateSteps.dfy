/** Facts about the specification of the format that the decoder's methods use. */
module InflateSteps {
  import opened Bits
  import opened CanonicalCode
  import opened HuffmanTables
  import opened HuftInvariant
  import opened Deflate
  import opened SymbolDecoder

  // ---- Progress of a call ----

  /** A call for `size` bytes that started in `d0` has produced `out` and stands at `d`. */
  ghost predicate Progress(d0: Decoder, size: nat, out: seq<int>, d: Decoder) {
    DecoderOk(d0) && DecoderOk(d) && |out| <= size && Run(d0, size) == Then(out, Run(d, size - |out|))
  }

  lemma ProgressStart(d: Decoder, size: nat)
    requires DecoderOk(d)
    ensures Progress(d, size, [], d)
  {
    assert [] + Run(d, size).out == Run(d, size).out;
  }

  lemma ProgressByte(d0: Decoder, size: nat, out: seq<int>, d: Decoder, b: int, d': Decoder)
    requires Progress(d0, size, out, d) && |out| < size && Next(d) == Byte(b, d')
    ensures Progress(d0, size, out + [b], d')
  {
    hide Next;
    ThenThen(out, [b], Run(d', size - |out| - 1));
  }

  lemma ProgressSilent(d0: Decoder, size: nat, out: seq<int>, d: Decoder, d': Decoder)
    requires Progress(d0, size, out, d) && |out| < size && DecoderOk(d') && Next(d) == Next(d')
    ensures Progress(d0, size, out, d')
  {
    hide Next;
  }

  lemma ProgressJoin(d0: Decoder, size: nat, out: seq<int>, d: Decoder, out': seq<int>, d': Decoder)
    requires Progress(d0, size, out, d) && Progress(d, size - |out|, out', d')
    ensures Progress(d0, size, out + out', d')
  {
    hide Run;
    ThenThen(out, out', Run(d', size - |out| - |out'|));
  }

  /** When the state reached cannot go on, the whole call stops that way. */
  lemma ProgressStops(d0: Decoder, size: nat, out: seq<int>, d: Decoder)
    requires Progress(d0, size, out, d) && |out| < size
    ensures Next(d).Failed? ==> Run(d0, size).stop == Error(Next(d).last)
    ensures Next(d).Threw? ==> Run(d0, size).stop == Exception
    ensures Next(d).End? ==> Run(d0, size) == Ran(out, Finished)
  {
    hide Next;
    assert out + [] == out;
  }

  lemma ProgressFails(d0: Decoder, size: nat, out: seq<int>, d: Decoder)
    requires Progress(d0, size, out, d)
    ensures Run(d0, size).stop == Run(d, size - |out|).stop
  {
    hide Run;
  }

  /** When all bytes have been produced, the call has reached the state it stands at. */
  lemma ProgressFull(d0: Decoder, size: nat, out: seq<int>, d: Decoder)
    requires Progress(d0, size, out, d) && |out| == size
    ensures Run(d0, size) == Ran(out, More(d))
  {
    hide Next;
    assert out + [] == out;
  }

  // ---- One token ----

  lemma TokenOf(lit: seq<int>, dist: seq<int>, before: Stream, e: int, n: int, after: Stream) returns (s: nat)
    requires CodesOk(lit, dist) && Decoded(LitAlphabet(lit), before, e, n, after)
    ensures e == INVALID ==> ReadToken(lit, dist, before).BadCode?
    ensures e == 16 ==> ReadToken(lit, dist, before) == Literal(n, after)
    ensures e == 15 ==> ReadToken(lit, dist, before) == EndOfBlock(after)
    ensures e < 15 ==> 257 <= s <= 285 && s < |lit| && 0 <= e <= 5 && n >= 3
    ensures e < 15 ==> e == LENGTH_EXTRA[s - 257] && n == COPY_LENGTHS[s - 257]
    ensures e < 15 ==> ReadToken(lit, dist, before) == ReadMatch(s, dist, after)
    ensures e <= 16 || e == INVALID
  {
    hide SymbolAt, Drop, ReadMatch, IsAlphabet, IsLengths, COPY_LENGTHS, LENGTH_EXTRA;
    LengthTables();
    LengthsUsed();
    s := 257;
    var sym := SymbolAt(lit, before.s);
    if sym.Symbol? && sym.s >= 257 {
      s := sym.s;
    }
    if e < 15 {
      ExtraLength(s - 257);
    }
  }

  lemma LengthsUsed()
    ensures |LENGTH_EXTRA| == 31 && LENGTH_EXTRA[29] == INVALID && LENGTH_EXTRA[30] == INVALID
  {
  }

  lemma MatchOf(s: nat, dist: seq<int>, bits: Stream, b: Stream, e: int, n: int, after: Stream)
    requires 257 <= s <= 285 && IsLengths(dist) && |dist| <= 30 && 0 <= LENGTH_EXTRA[s - 257] <= 5
    requires b == Drop(bits, LENGTH_EXTRA[s - 257]) && Decoded(DistAlphabet(dist), b, e, n, after)
    ensures e == INVALID ==> ReadMatch(s, dist, bits) == BadCode
    ensures e != INVALID ==> 0 <= e <= 13
    ensures e != INVALID ==>
      ReadMatch(s, dist, bits)
        == Match(COPY_LENGTHS[s - 257] + Peek(bits, LENGTH_EXTRA[s - 257]), n + Peek(after, e), Drop(after, e))
  {
    hide SymbolAt, Drop, Peek, IsAlphabet, IsLengths, COPY_LENGTHS, LENGTH_EXTRA, COPY_DISTANCES, DISTANCE_EXTRA;
    DistanceTables();
    ExtraLength(s - 257);
    var sym := SymbolAt(dist, b.s);
    if sym.Symbol? {
      ExtraDistance(sym.s);
    }
  }

  lemma TokenFacts(lit: seq<int>, dist: seq<int>, bits: Stream)
    requires CodesOk(lit, dist)
    ensures var t := ReadToken(lit, dist, bits);
      && (t.Match? ==> 3 <= t.len <= 258 && 1 <= t.dist <= WSIZE)
      && (!t.BadCode? ==> Len(t.rest.s) <= Len(bits.s))
  {
  }

  lemma MatchFacts(s: nat, dist: seq<int>, bits: Stream)
    requires 257 <= s <= 285 && |dist| <= 30
    ensures var t := ReadMatch(s, dist, bits);
      t.Match? ==> 3 <= t.len <= 258 && 1 <= t.dist <= WSIZE
  {
  }

  // ---- The fixed codes ----

  lemma {:induction false} KraftAppend(s: seq<int>, t: seq<int>)
    requires IsLengths(s) && IsLengths(t)
    ensures KraftSum(s + t) == KraftSum(s) + KraftSum(t)
  {
    if t == [] {
      assert s + t == s;
    } else {
      var n := |t| - 1;
      KraftAppend(s, t[..n]);
      assert (s + t)[..|s + t| - 1] == s + t[..n];
    }
  }

  lemma {:induction false} KraftCopies(n: nat, l: int)
    requires 1 <= l <= MAX_BITS
    ensures KraftSum(Copies(n, l)) == n * Pow2(MAX_BITS - l)
  {
    hide Pow2;
    if n > 0 {
      KraftCopies(n - 1, l);
      assert Copies(n, l)[..n - 1] == Copies(n - 1, l);
      OneMore(n, Pow2(MAX_BITS - l));
    }
  }

  lemma OneMore(n: int, p: int)
    ensures (n - 1) * p + p == n * p
  {
  }

  lemma FixedCodes()
    ensures KraftSum(FixedLit()) == SPACE && !AllZero(FixedLit())
    ensures KraftSum(FixedDist()) <= SPACE && !AllZero(FixedDist())
  {
    hide KraftSum, Copies, Pow2;
    var a, b, c, d := Copies(144, 8), Copies(112, 9), Copies(24, 7), Copies(8, 8);
    KraftCopies(144, 8);
    KraftCopies(112, 9);
    KraftCopies(24, 7);
    KraftCopies(8, 8);
    KraftAppend(a, b);
    KraftAppend(a + b, c);
    KraftAppend(a + b + c, d);
    PowersOfTwo();
    KraftCopies(30, 5);
    assert FixedLit()[0] == 8 && FixedDist()[0] == 5;
  }

  // ---- Bytes ----

  lemma NextRaw(d: Decoder)
    requires DecoderOk(d) && d.block.Raw?
    ensures Next(d) == (var b := Peek(d.bits, 8);
                        var block := if d.block.left == 1 then NoBlock else Raw(d.block.left - 1);
                        Byte(b, Emit(d, b, Drop(d.bits, 8), block)))
  {
  }

  lemma NextCopy(d: Decoder)
    requires DecoderOk(d) && d.block.Coded? && d.block.left > 0
    ensures Next(d) == Copying(d, d.block.lit, d.block.dist, d.block.left, d.block.distance, d.bits)
  {
  }

  lemma NextToken(d: Decoder)
    requires DecoderOk(d) && d.block.Coded? && d.block.left == 0
    ensures Next(d)
         == match ReadToken(d.block.lit, d.block.dist, d.bits)
            case Literal(b, rest) => Byte(b, Emit(d, b, rest, d.block))
            case Match(len, dd, rest) => Copying(d, d.block.lit, d.block.dist, len, dd, rest)
            case EndOfBlock(rest) => Next(Decoder(rest, d.hist, d.last, NoBlock))
            case BadCode => Failed(d.last)
  {
    hide ReadToken;
  }

  /** A match being started and a match under way give the same next byte. */
  lemma SameCopy(d: Decoder, len: nat, dd: nat, rest: Stream)
    requires DecoderOk(d) && d.block.Coded? && 1 <= len && 1 <= dd <= WSIZE
    ensures Next(Decoder(rest, d.hist, d.last, Coded(d.block.lit, d.block.dist, len, dd)))
         == Copying(d, d.block.lit, d.block.dist, len, dd, rest)
  {
    hide ReadToken, CodesOk;
  }

  lemma NextBlock(d: Decoder)
    requires DecoderOk(d) && d.block.NoBlock? && !d.last
    ensures Next(d)
         == (var last := Peek(d.bits, 1) != 0;
             match OpenBlock(Peek(Drop(d.bits, 1), 2), Drop(Drop(d.bits, 1), 2))
             case Broken => Failed(last)
             case Throws => Threw
             case Opened(block, rest) => Next(Decoder(rest, d.hist, last, block)))
    ensures match OpenBlock(Peek(Drop(d.bits, 1), 2), Drop(Drop(d.bits, 1), 2))
            case Opened(block, rest) => Len(rest.s) < Len(d.bits.s)
            case _ => true
  {
    hide OpenBlock, Peek, Drop, Len;
    var o := OpenBlock(Peek(Drop(d.bits, 1), 2), Drop(Drop(d.bits, 1), 2));
    if o.Opened? {
      HeaderProgress(d.bits, o.block, o.rest);
    }
  }

  lemma LenDropBits(b: Stream, n: nat)
    ensures Len(Drop(b, n).s) <= Len(b.s)
  {
    LenDrop(b.s, n);
  }
}
