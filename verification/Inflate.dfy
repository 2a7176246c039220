/** The resumable decoder: `zip_inflate_codes`, `_stored`, `_fixed`, `_dynamic` and `_internal`. */
module Inflate {
  import opened Bits
  import opened CanonicalCode
  import opened HuffmanTables
  import opened HuftInvariant
  import opened HuftBuild
  import opened Deflate
  import opened BitReader
  import opened SlidingWindow
  import opened SymbolDecoder
  import opened DynamicTrees
  import opened InflateSteps

  /** A number of bytes, the error code -1, or an exception where the source uses a null table. */
  datatype Reply = Bytes(n: nat) | Minus1 | Thrown

  datatype TokenReply = GotLiteral | GotEnd | GotMatch | GotBad

  /** The bytes a call has put into the buffer. */
  ghost function Got(buff: array<int>, off: nat, r: Reply): seq<int>
    reads buff
  {
    if r.Bytes? && off + r.n <= buff.Length then buff[off..off + r.n] else []
  }

  class Inflater {
    const bits: Reader
    const win: Window
    /** `zip_method`: -1 between blocks. */
    var kind: int
    var eof: bool
    var copyLeng: nat
    var copyDist: int
    var tl: Tables
    var td: Tables
    var bl: int
    var bd: int
    var fixedTl: Tables
    var fixedTd: Tables
    var fixedBl: int
    var fixedBd: int
    /** The code lengths the current tables stand for, and the distance of the match being copied. */
    ghost var lit: seq<int>
    ghost var dist: seq<int>
    ghost var distance: nat

    // ---- State ----

    ghost predicate FixedOk()
      reads `fixedTl, `fixedTd, `fixedBl, `fixedBd
    {
      fixedTl != [] ==>
        Built(LitAlphabet(FixedLit()), fixedTl, fixedBl) && Built(DistAlphabet(FixedDist()), fixedTd, fixedBd)
    }

    ghost predicate Parts()
      reads this, bits, win, win.slide
    {
      bits.Valid() && win.Valid() && FixedOk() && -1 <= kind <= 3
    }

    /**
      The tables are those of the current code lengths; a distance table is needed only if there are length symbols.
     */
    ghost predicate CodesReady()
      reads `lit, `dist, `tl, `td, `bl, `bd
    {
      CodesOk(lit, dist) && tl != [] && Built(LitAlphabet(lit), tl, bl)
        && (|lit| > 257 ==> Built(DistAlphabet(dist), td, bd))
    }

    ghost predicate Valid(): (v: bool)
      reads this, bits, win, win.slide
      ensures v ==> Parts() && bits.Valid() && win.Valid()
    {
      && Parts() && kind != 3
      && (kind == -1 ==> copyLeng == 0)
      && (kind == 1 || kind == 2 ==> CodesReady() && (copyLeng > 0 ==> Lags(copyDist, win.wp, distance)))
    }

    ghost function AbsBlock(): Block
      reads this
    {
      if kind == -1 || (kind == 0 && copyLeng == 0) then NoBlock
      else if kind == 0 then Raw(copyLeng)
      else Coded(lit, dist, copyLeng, distance)
    }

    /** What the decoder's variables mean. */
    ghost function Abs(): (d: Decoder)
      requires Valid()
      reads this, bits, win, win.slide
      ensures DecoderOk(d)
    {
      hide Built, Ring, IsLengths;
      Decoder(bits.Rest(), win.hist, eof, AbsBlock())
    }

    /** `zip_inflate_start` */
    constructor (data: seq<int>, slide: array<int>)
      requires slide.Length == 2 * WSIZE
      ensures Valid() && fresh(this) && fresh(bits) && fresh(win) && win.slide == slide && kind == -1
      ensures Abs() == Decoder(Stream(Unread(data, 0), 0), slide[..WSIZE], false, NoBlock)
    {
      bits := new Reader(data);
      win := new Window(slide);
      kind, eof, copyLeng, copyDist := -1, false, 0, 0;
      tl, td, bl, bd, fixedTl, fixedTd, fixedBl, fixedBd := [], [], 0, 0, [], [], 0, 0;
      lit, dist, distance := [], [], 0;
    }

    // ---- Copying ----

    /** One byte of a match: the output byte `distance` back, through the masked ring. */
    method CopyByte(buff: array<int>, at: nat)
      requires Valid() && (kind == 1 || kind == 2) && copyLeng > 0 && at < buff.Length && buff != win.slide
      modifies this`copyLeng, this`copyDist, win, win.slide, buff
      ensures Valid() && copyLeng == old(copyLeng) - 1
      ensures Next(old(Abs())) == Byte(buff[at], Abs())
      ensures forall i :: 0 <= i < buff.Length && i != at ==> buff[i] == old(buff[i])
    {
      hide Built, IsLengths, Ring, Next, Pow2, Unread, Lags, FixedOk, CodesReady;
      ghost var d := Abs();
      NextCopy(d);
      LagRange(copyDist, win.wp, distance);
      copyLeng := copyLeng - 1;
      LagMasked(copyDist, win.wp, distance);
      copyDist := copyDist % WSIZE;
      var b := win.Get(copyDist, distance);
      ghost var wp := win.wp;
      win.Put(b);
      LagStep(copyDist, wp, win.wp, distance);
      buff[at] := b;
      copyDist := copyDist + 1;
    }

    /** `while(zip_copy_leng > 0 && n < size)`: the match may be left unfinished when the buffer is full. */
    method CopyMatch(buff: array<int>, off: nat, size: nat, n0: nat, ghost d0: Decoder) returns (n: nat)
      requires Valid() && (kind == 1 || kind == 2) && n0 <= size && off + size <= buff.Length && buff != win.slide
      requires Progress(d0, size, buff[off..off + n0], Abs())
      modifies this`copyLeng, this`copyDist, win, win.slide, buff
      ensures Valid() && n0 <= n <= size && Progress(d0, size, buff[off..off + n], Abs())
      ensures n == size || copyLeng == 0
      ensures old(copyLeng) > 0 && n0 < size ==> n > n0
      ensures forall i :: 0 <= i < buff.Length && !(off + n0 <= i < off + size) ==> buff[i] == old(buff[i])
    {
      hide Built, IsLengths, Ring, Next, Progress, Pow2, Unread, CodesReady, Lags, Valid, Abs;
      n := n0;
      while copyLeng > 0 && n < size
        invariant Valid() && n0 <= n <= size && Progress(d0, size, buff[off..off + n], Abs())
        invariant n == n0 ==> copyLeng == old(copyLeng)
        invariant forall i :: 0 <= i < buff.Length && !(off + n0 <= i < off + size) ==> buff[i] == old(buff[i])
      {
        ghost var d, out := Abs(), buff[off..off + n];
        CopyByte(buff, off + n);
        n := n + 1;
        ProgressByte(d0, size, out, d, buff[off + n - 1], Abs());
        assert buff[off..off + n] == out + [buff[off + n - 1]];
      }
    }

    /** One byte of a stored block. */
    method StoredByte(buff: array<int>, at: nat)
      requires Valid() && kind == 0 && copyLeng > 0 && at < buff.Length && buff != win.slide
      modifies this`copyLeng, bits, win, win.slide, buff
      ensures Valid() && copyLeng == old(copyLeng) - 1
      ensures Next(old(Abs())) == Byte(buff[at], Abs())
      ensures Len(bits.Rest().s) <= old(Len(bits.Rest().s))
      ensures forall i :: 0 <= i < buff.Length && i != at ==> buff[i] == old(buff[i])
    {
      hide Built, IsLengths, Ring, Next, Pow2, Unread, Peek, Drop, Len;
      NextRaw(Abs());
      LenDropBits(bits.Rest(), 8);
      copyLeng := copyLeng - 1;
      var b := bits.TakeBits(8);
      win.Put(b);
      buff[at] := b;
    }

    /** The same loop for a stored block, which ends when all its bytes are out. */
    method CopyStored(buff: array<int>, off: nat, size: nat, n0: nat, ghost d0: Decoder) returns (n: nat)
      requires Valid() && kind == 0 && n0 <= size && off + size <= buff.Length && buff != win.slide
      requires Progress(d0, size, buff[off..off + n0], Abs())
      modifies this`copyLeng, this`kind, bits, win, win.slide, buff
      ensures Valid() && n0 <= n <= size && Progress(d0, size, buff[off..off + n], Abs())
      ensures (n == size && kind == 0 && copyLeng > 0) || kind == -1
      ensures old(copyLeng) > 0 && n0 < size ==> n > n0
      ensures Len(bits.Rest().s) <= old(Len(bits.Rest().s))
      ensures forall i :: 0 <= i < buff.Length && !(off + n0 <= i < off + size) ==> buff[i] == old(buff[i])
    {
      hide Built, IsLengths, Ring, Next, Progress, Pow2, Unread, Len;
      n := n0;
      while copyLeng > 0 && n < size
        invariant Valid() && kind == 0 && n0 <= n <= size && Progress(d0, size, buff[off..off + n], Abs())
        invariant n == n0 ==> copyLeng == old(copyLeng)
        invariant Len(bits.Rest().s) <= old(Len(bits.Rest().s))
        invariant forall i :: 0 <= i < buff.Length && !(off + n0 <= i < off + size) ==> buff[i] == old(buff[i])
      {
        ghost var d, out := Abs(), buff[off..off + n];
        StoredByte(buff, off + n);
        n := n + 1;
        ProgressByte(d0, size, out, d, buff[off + n - 1], Abs());
        assert buff[off..off + n] == out + [buff[off + n - 1]];
      }
      if copyLeng == 0 {
        kind := -1;
      }
    }

    // ---- Codes ----

    /** One round of `zip_inflate_codes` up to the copy. */
    method Token(buff: array<int>, at: nat) returns (t: TokenReply)
      requires Valid() && (kind == 1 || kind == 2) && copyLeng == 0 && at < buff.Length && buff != win.slide
      modifies this`copyLeng, this`copyDist, this`distance, bits, win, win.slide, buff
      ensures Parts() && (!t.GotBad? ==> Len(bits.Rest().s) <= old(Len(bits.Rest().s)))
      ensures t.GotLiteral? ==> Valid() && copyLeng == 0 && Next(old(Abs())) == Byte(buff[at], Abs())
      ensures t.GotMatch? ==> Valid() && copyLeng > 0 && Next(old(Abs())) == Next(Abs())
      ensures t.GotEnd? ==> copyLeng == 0 && Next(old(Abs())) == Next(Decoder(bits.Rest(), win.hist, eof, NoBlock))
      ensures t.GotBad? ==> Next(old(Abs())) == Failed(eof)
      ensures forall i :: 0 <= i < buff.Length && (i != at || !t.GotLiteral?) ==> buff[i] == old(buff[i])
    {
      hide Built, IsLengths, Ring, Next, Pow2, Unread, Peek, Drop, Len, Decoded, ReadToken, ReadMatch, SymbolAt,
        COPY_LENGTHS, LENGTH_EXTRA, IsAlphabet;
      ghost var d := Abs();
      NextToken(d);
      TokenFacts(lit, dist, d.bits);
      var e, n := DecodeSymbol(bits, LitAlphabet(lit), tl, bl);
      ghost var s := TokenOf(lit, dist, d.bits, e, n, bits.Rest());
      if e == 99 {
        return GotBad;
      }
      if e == 16 {
        win.Put(n);
        buff[at] := n;
        return GotLiteral;
      }
      if e == 15 {
        return GotEnd;
      }
      var ok := Distance(s, e, n, d);
      if !ok {
        return GotBad;
      }
      t := GotMatch;
    }

    /** The second half of a match: the length's extra bits, then the distance. */
    method Distance(ghost s: nat, e: int, n: int, ghost d: Decoder) returns (ok: bool)
      requires Valid() && (kind == 1 || kind == 2) && copyLeng == 0
      requires 257 <= s <= 285 && s < |lit| && 0 <= e <= 5 && n >= 3
      requires e == LENGTH_EXTRA[s - 257] && n == COPY_LENGTHS[s - 257]
      requires DecoderOk(d) && d.hist == win.hist && d.last == eof && d.block.Coded? && d.block.lit == lit
      requires d.block.dist == dist
      modifies this`copyLeng, this`copyDist, this`distance, bits
      ensures Parts() && (ok ==> Valid() && copyLeng > 0)
      ensures ok ==> ReadMatch(s, dist, old(bits.Rest())) == Match(copyLeng, distance, bits.Rest())
      ensures ok ==> Next(Abs()) == Copying(d, lit, dist, copyLeng, distance, bits.Rest())
      ensures !ok ==> ReadMatch(s, dist, old(bits.Rest())) == BadCode
    {
      hide Built, IsLengths, Ring, Next, Pow2, Unread, Peek, Drop, Len, ReadMatch, COPY_LENGTHS, LENGTH_EXTRA, Lags,
        FixedOk, CodesReady;
      ghost var before := bits.Rest();
      var v := bits.TakeBits(e);
      copyLeng := n + v;
      ok := ReadDistance(s, before);
      if ok {
        LagRange(copyDist, win.wp, distance);
        SameCopy(d, copyLeng, distance, bits.Rest());
      }
    }

    /** The distance code and its extra bits; the read index is set that far behind the write index. */
    method ReadDistance(ghost s: nat, ghost before: Stream) returns (ok: bool)
      requires bits.Valid() && CodesReady() && 257 <= s <= 285 && s < |lit| && 0 <= LENGTH_EXTRA[s - 257] <= 5
      requires bits.Rest() == Drop(before, LENGTH_EXTRA[s - 257])
      modifies this`copyDist, this`distance, bits
      ensures bits.Valid()
      ensures ok ==> Lags(copyDist, win.wp, distance)
      ensures ok ==>
        ReadMatch(s, dist, before)
          == Match(COPY_LENGTHS[s - 257] + Peek(before, LENGTH_EXTRA[s - 257]), distance, bits.Rest())
      ensures !ok ==> ReadMatch(s, dist, before) == BadCode
    {
      hide Built, IsLengths, Pow2, Unread, Peek, Drop, Len, Decoded, ReadMatch, SymbolAt, COPY_LENGTHS, LENGTH_EXTRA,
        IsAlphabet, Lags, LitAlphabet, DistAlphabet;
      MatchFacts(s, dist, before);
      ghost var b := bits.Rest();
      var e, n := DecodeSymbol(bits, DistAlphabet(dist), td, bd);
      MatchOf(s, dist, before, b, e, n, bits.Rest());
      if e == 99 {
        return false;
      }
      bits.NeedBits(e);
      copyDist := win.wp - n - bits.GetBits(e);
      distance := n + bits.GetBits(e);
      LagStart(win.wp, distance);
      bits.DumpBits(e);
      ok := true;
    }

    /** `zip_method = -1` */
    method EndBlock()
      requires Parts() && copyLeng == 0
      modifies this`kind
      ensures Valid() && kind == -1 && Abs() == Decoder(bits.Rest(), win.hist, eof, NoBlock)
    {
      kind := -1;
    }

    /** One round of the loop of `zip_inflate_codes`. */
    method CodesRound(buff: array<int>, off: nat, size: nat, n0: nat, ghost d0: Decoder) returns (t: TokenReply, n: nat)
      requires Valid() && (kind == 1 || kind == 2) && copyLeng == 0 && n0 < size && off + size <= buff.Length
      requires buff != win.slide && Progress(d0, size, buff[off..off + n0], Abs())
      modifies this`kind, this`copyLeng, this`copyDist, this`distance, bits, win, win.slide, buff
      ensures t.GotBad? ==> Run(d0, size).stop == Error(eof)
      ensures !t.GotBad? ==> Valid() && n0 <= n <= size && Progress(d0, size, buff[off..off + n], Abs())
      ensures t.GotEnd? ==> kind == -1
      ensures t.GotLiteral? || t.GotMatch? ==> kind == old(kind) && n > n0 && (n == size || copyLeng == 0)
      ensures !t.GotBad? ==> Len(bits.Rest().s) <= old(Len(bits.Rest().s))
      ensures forall i :: 0 <= i < buff.Length && !(off + n0 <= i < off + size) ==> buff[i] == old(buff[i])
    {
      hide Next, Progress, Run, Pow2, Unread, Len, Valid, Abs, Parts;
      ghost var d, out := Abs(), buff[off..off + n0];
      ProgressStops(d0, size, out, d);
      n := n0;
      t := Token(buff, off + n);
      match t {
        case GotBad =>
        case GotLiteral =>
          ProgressByte(d0, size, out, d, buff[off + n0], Abs());
          n := n + 1;
          assert buff[off..off + n0] == out;
          assert buff[off..off + n] == out + [buff[off + n0]];
        case GotMatch =>
          assert buff[off..off + n] == out;
          ProgressSilent(d0, size, out, d, Abs());
          n := CopyMatch(buff, off, size, n, d0);
        case GotEnd =>
          EndBlock();
          assert buff[off..off + n] == out;
          ProgressSilent(d0, size, out, d, Abs());
      }
    }

    /** `zip_inflate_codes`: tokens until the buffer is full or the block ends. */
    method Codes(buff: array<int>, off: nat, size: nat) returns (r: Reply)
      requires Valid() && (kind == 1 || kind == 2) && copyLeng == 0 && off + size <= buff.Length && buff != win.slide
      modifies this`kind, this`copyLeng, this`copyDist, this`distance, bits, win, win.slide, buff
      ensures !r.Thrown? && (r.Minus1? ==> Run(old(Abs()), size).stop == Error(eof))
      ensures r.Bytes? ==> Valid() && r.n <= size && Progress(old(Abs()), size, buff[off..off + r.n], Abs())
      ensures r.Bytes? ==> (r.n == size && kind == old(kind)) || kind == -1
      ensures r.Bytes? ==> Len(bits.Rest().s) <= old(Len(bits.Rest().s))
      ensures forall i :: 0 <= i < buff.Length && !(off <= i < off + size) ==> buff[i] == old(buff[i])
    {
      hide Next, Progress, Run, Pow2, Unread, Len, Valid, Abs, Parts;
      ghost var d0 := Abs();
      ProgressStart(d0, size);
      var n := 0;
      assert buff[off..off + n] == [];
      if size == 0 {
        return Bytes(0);
      }
      while true
        invariant Valid() && kind == old(kind) && copyLeng == 0
        invariant n < size && Progress(d0, size, buff[off..off + n], Abs())
        invariant Len(bits.Rest().s) <= old(Len(bits.Rest().s))
        invariant forall i :: 0 <= i < buff.Length && !(off <= i < off + size) ==> buff[i] == old(buff[i])
        decreases size - n
      {
        var t;
        t, n := CodesRound(buff, off, size, n, d0);
        if t == GotBad {
          return Minus1;
        }
        if t == GotEnd || n == size {
          return Bytes(n);
        }
      }
    }

    // ---- Blocks ----

    /** What a method that opens a block of kind `o` must have done by the time it returns. */
    ghost predicate BlockDone(o: Opening, hist: seq<int>, r: Reply, size: nat, out: seq<int>)
      reads this, bits, win, win.slide
    {
      match o
      case Broken => r.Minus1?
      case Throws => r.Thrown?
      case Opened(block, rest) =>
        |hist| >= WSIZE && BlockOk(block) &&
        var d := Decoder(rest, hist, eof, block);
        match r
        case Thrown => false
        case Minus1 => Run(d, size).stop == Error(eof)
        case Bytes(n) =>
          && Valid() && |out| == n <= size && Progress(d, size, out, Abs())
          && ((n == size && (kind == 0 ==> copyLeng > 0)) || kind == -1)
          && Len(bits.Rest().s) <= Len(rest.s)
    }

    /** `zip_inflate_stored` */
    method Stored(buff: array<int>, off: nat, size: nat) returns (r: Reply)
      requires Parts() && kind == 0 && copyLeng == 0 && off + size <= buff.Length && buff != win.slide
      modifies this`copyLeng, this`kind, bits, win, win.slide, buff
      ensures BlockDone(OpenStored(old(bits.Rest())), old(win.hist), r, size, Got(buff, off, r))
      ensures forall i :: 0 <= i < buff.Length && !(off <= i < off + size) ==> buff[i] == old(buff[i])
    {
      hide Built, IsLengths, Ring, Next, Progress, Run, Pow2, Unread, Len, FixedOk, CodesReady, Lags, Peek, Drop;
      Boundary(bits.used, bits.len);
      var n: int := bits.len % 8;
      bits.DumpBits(n);
      n := bits.TakeBits(16);
      bits.NeedBits(16);
      if n != 65535 - bits.GetBits(16) {
        return Minus1;
      }
      bits.DumpBits(16);
      copyLeng := n;
      ghost var d := Abs();
      ProgressStart(d, size);
      assert buff[off..off + 0] == [];
      n := CopyStored(buff, off, size, 0, d);
      r := Bytes(n);
    }

    /** The first part of `zip_inflate_fixed`: the tables are built once and kept; building them never fails. */
    method MakeFixed()
      requires FixedOk()
      modifies `fixedTl, `fixedTd, `fixedBl, `fixedBd
      ensures FixedOk() && fixedTl != []
    {
      hide Built, KraftSum, AllZero, IsLongest, FixedLit, FixedDist;
      if fixedTl == [] {
        FixedCodes();
        FixedShape();
        var h := Build(LitAlphabet(FixedLit()), 7);
        if h.status != 0 {
          assert false;
        }
        fixedTl, fixedBl := h.root, h.m;
        BuiltNonZero(LitAlphabet(FixedLit()), h.root, h.m);
        h := Build(DistAlphabet(FixedDist()), 5);
        if h.status > 1 {
          assert false;
        }
        fixedTd, fixedBd := h.root, h.m;
      }
    }

    /** Turning to new tables. */
    method UseTables(tl0: Tables, bl0: int, td0: Tables, bd0: int, ghost l: seq<int>, ghost d: seq<int>)
      requires Parts() && copyLeng == 0 && (kind == 1 || kind == 2)
      requires CodesOk(l, d) && tl0 != [] && Built(LitAlphabet(l), tl0, bl0)
      requires |l| > 257 ==> Built(DistAlphabet(d), td0, bd0)
      modifies `tl, `td, `bl, `bd, `lit, `dist, `distance
      ensures Valid() && Abs() == Decoder(bits.Rest(), win.hist, eof, Coded(l, d, 0, 0))
    {
      hide Built, Ring, IsLengths, Pow2, Unread;
      tl, td, bl, bd := tl0, td0, bl0, bd0;
      lit, dist, distance := l, d, 0;
    }

    /** `zip_inflate_fixed` */
    method Fixed(buff: array<int>, off: nat, size: nat) returns (r: Reply)
      requires Parts() && kind == 1 && copyLeng == 0 && off + size <= buff.Length && buff != win.slide
      modifies this, bits, win, win.slide, buff
      ensures eof == old(eof)
      ensures BlockDone(Opened(Coded(FixedLit(), FixedDist(), 0, 0), old(bits.Rest())), old(win.hist), r, size,
                        Got(buff, off, r))
      ensures forall i :: 0 <= i < buff.Length && !(off <= i < off + size) ==> buff[i] == old(buff[i])
    {
      hide Built, Ring, Next, Progress, Run, Pow2, Unread, Len, FixedLit, FixedDist, Abs, Valid, CodesReady;
      MakeFixed();
      FixedShape();
      UseTables(fixedTl, fixedBl, fixedTd, fixedBd, FixedLit(), FixedDist());
      r := Codes(buff, off, size);
    }

    /** `zip_inflate_dynamic` */
    method Dynamic(buff: array<int>, off: nat, size: nat) returns (r: Reply)
      requires Parts() && kind == 2 && copyLeng == 0 && off + size <= buff.Length && buff != win.slide
      modifies this, bits, win, win.slide, buff
      ensures eof == old(eof)
      ensures BlockDone(OpenBlock(2, old(bits.Rest())), old(win.hist), r, size, Got(buff, off, r))
      ensures forall i :: 0 <= i < buff.Length && !(off <= i < off + size) ==> buff[i] == old(buff[i])
    {
      hide Built, Ring, Next, Progress, Run, Pow2, Unread, Len, ReadTrees, FixedOk, Abs, Valid, CodesReady;
      var t;
      ghost var l, ds;
      t, l, ds := ReadDynamic(bits);
      match t
      case BadHeader =>
        return Minus1;
      case NullTables =>
        return Thrown;
      case Ready(tl0, bl0, td0, bd0) =>
        UseTables(tl0, bl0, td0, bd0, l, ds);
        r := Codes(buff, off, size);
    }

    // ---- Calls ----

    /** The last block bit and the block type. */
    method ReadHeader()
      requires Valid() && kind == -1 && !eof
      modifies this, bits
      ensures Parts() && tl == [] && copyLeng == 0
      ensures eof == (Peek(old(bits.Rest()), 1) != 0) && kind == Peek(Drop(old(bits.Rest()), 1), 2)
      ensures bits.Rest() == Drop(Drop(old(bits.Rest()), 1), 2)
    {
      hide Built, Ring, IsLengths, Pow2, Unread, Peek, Drop;
      PeekTwo(Drop(bits.Rest(), 1));
      var v := bits.TakeBits(1);
      if v != 0 {
        eof := true;
      }
      kind := bits.TakeBits(2);
      tl := [];
      copyLeng := 0;
    }

    /** The switch on the block type, for a block that has just been opened. */
    method NewBlock(buff: array<int>, off: nat, size: nat) returns (r: Reply)
      requires Parts() && 0 <= kind && copyLeng == 0 && tl == [] && off + size <= buff.Length && buff != win.slide
      modifies this, bits, win, win.slide, buff
      ensures eof == old(eof)
      ensures BlockDone(OpenBlock(old(kind), old(bits.Rest())), old(win.hist), r, size, Got(buff, off, r))
      ensures forall i :: 0 <= i < buff.Length && !(off <= i < off + size) ==> buff[i] == old(buff[i])
    {
      hide Parts, Valid, Abs, Next, Run, Progress, ReadTrees, OpenStored, FixedLit, FixedDist, Pow2, Len, Unread;
      if kind == 0 {
        r := Stored(buff, off, size);
      } else if kind == 1 {
        r := Fixed(buff, off, size);
      } else if kind == 2 {
        r := Dynamic(buff, off, size);
      } else {
        r := Minus1;
      }
    }

    /** Ready for the next round of the loop: a stored block that is not finished has bytes left. */
    ghost predicate Resting()
      reads this, bits, win, win.slide
    {
      Valid() && (kind == 0 ==> copyLeng > 0)
    }

    /** What bounds the rounds that produce nothing. */
    ghost function Rank(): nat
      reads this
    {
      if kind == -1 then 0 else 1
    }

    /** The rest of a match or of a stored block, left from the last call. */
    method Resume(buff: array<int>, off: nat, size: nat, n0: nat, ghost d0: Decoder) returns (n: nat)
      requires Resting() && copyLeng > 0 && n0 < size && off + size <= buff.Length && buff != win.slide
      requires Progress(d0, size, buff[off..off + n0], Abs())
      modifies this, bits, win, win.slide, buff
      ensures Valid() && n0 < n <= size && Progress(d0, size, buff[off..off + n], Abs()) && eof == old(eof)
      ensures n == size ==> Resting()
      ensures n < size ==> copyLeng == 0 && kind != 0 && tl == old(tl)
      ensures forall i :: 0 <= i < buff.Length && !(off <= i < off + size) ==> buff[i] == old(buff[i])
    {
      hide FixedOk, CodesReady, Abs, Ring, Next, Run, Progress, Pow2, Len, Unread;
      if kind != 0 {
        n := CopyMatch(buff, off, size, n0, d0);
      } else {
        n := CopyStored(buff, off, size, n0, d0);
      }
    }

    /** The next block. */
    method OpenNext(buff: array<int>, off: nat, size: nat, n0: nat, ghost d0: Decoder) returns (r: Reply)
      requires Valid() && kind == -1 && !eof && n0 < size && off + size <= buff.Length && buff != win.slide
      requires Progress(d0, size, buff[off..off + n0], Abs())
      modifies this, bits, win, win.slide, buff
      ensures r.Thrown? ==> Run(d0, size).stop == Exception
      ensures r.Minus1? ==> Run(d0, size).stop == Error(eof)
      ensures r.Bytes? ==> Resting() && n0 <= r.n <= size && Progress(d0, size, buff[off..off + r.n], Abs())
      ensures r.Bytes? ==> Len(bits.Rest().s) < old(Len(bits.Rest().s))
      ensures forall i :: 0 <= i < buff.Length && !(off <= i < off + size) ==> buff[i] == old(buff[i])
    {
      hide CodesReady, FixedOk, Next, Run, Progress, Pow2, Len, Unread, Peek, Drop, OpenBlock, Ring;
      ghost var d, out := Abs(), buff[off..off + n0];
      NextBlock(d);
      ProgressStops(d0, size, out, d);
      ReadHeader();
      ghost var o := OpenBlock(kind, bits.Rest());
      r := NewBlock(buff, off + n0, size - n0);
      assert buff[off..off + n0] == out;
      ghost var d1 := if o.Opened? then Decoder(o.rest, d.hist, eof, o.block) else d;
      if o.Opened? {
        ProgressSilent(d0, size, out, d, d1);
        ProgressFails(d0, size, out, d1);
      }
      if r.Bytes? {
        r := Joined(buff, off, size, n0, d0, d1, r);
      }
    }

    /** More of the current block. */
    method MoreCodes(buff: array<int>, off: nat, size: nat, n0: nat, ghost d0: Decoder) returns (r: Reply)
      requires Valid() && (kind == 1 || kind == 2) && copyLeng == 0 && n0 < size && off + size <= buff.Length
      requires buff != win.slide && Progress(d0, size, buff[off..off + n0], Abs())
      modifies this, bits, win, win.slide, buff
      ensures !r.Thrown? && (r.Minus1? ==> Run(d0, size).stop == Error(eof))
      ensures r.Bytes? ==> Resting() && n0 <= r.n <= size && Progress(d0, size, buff[off..off + r.n], Abs())
      ensures r.Bytes? ==> Len(bits.Rest().s) <= old(Len(bits.Rest().s)) && (r.n < size ==> kind == -1)
      ensures forall i :: 0 <= i < buff.Length && !(off <= i < off + size) ==> buff[i] == old(buff[i])
    {
      hide Valid, Abs, Next, Run, Progress, Pow2, Len, Unread;
      ghost var d, out := Abs(), buff[off..off + n0];
      r := Codes(buff, off + n0, size - n0);
      assert buff[off..off + n0] == out;
      r := Joined(buff, off, size, n0, d0, d, r);
    }

    /** `n += i`: what the block produced follows what there was. */
    method Joined(buff: array<int>, off: nat, size: nat, n0: nat, ghost d0: Decoder, ghost d: Decoder, i: Reply)
        returns (r: Reply)
      requires n0 < size && off + size <= buff.Length && Progress(d0, size, buff[off..off + n0], d) && !i.Thrown?
      requires i.Minus1? ==> Run(d, size - n0).stop == Error(eof)
      requires i.Bytes? ==> Valid() && i.n <= size - n0 && Progress(d, size - n0, buff[off + n0..off + n0 + i.n], Abs())
      ensures i.Minus1? ==> r.Minus1? && Run(d0, size).stop == Error(eof)
      ensures i.Bytes? ==> r == Bytes(n0 + i.n) && Progress(d0, size, buff[off..off + r.n], Abs())
    {
      hide Valid, Abs, Next, Run, Progress;
      ghost var out := buff[off..off + n0];
      if i.Bytes? {
        ProgressJoin(d0, size, out, d, buff[off + n0..off + n0 + i.n], Abs());
        assert buff[off..off + n0 + i.n] == out + buff[off + n0..off + n0 + i.n];
        r := Bytes(n0 + i.n);
      } else {
        ProgressFails(d0, size, out, d);
        r := i;
      }
    }

    /** One round of the loop of `zip_inflate_internal`; `stop` says that it returns here. */
    method Round(buff: array<int>, off: nat, size: nat, n0: nat, ghost d0: Decoder) returns (r: Reply, stop: bool)
      requires Resting() && n0 < size && off + size <= buff.Length && buff != win.slide
      requires Progress(d0, size, buff[off..off + n0], Abs())
      modifies this, bits, win, win.slide, buff
      ensures r.Thrown? ==> stop && Run(d0, size).stop == Exception
      ensures r.Minus1? ==> stop && Run(d0, size).stop == Error(eof)
      ensures r.Bytes? ==> Resting() && n0 <= r.n <= size && Progress(d0, size, buff[off..off + r.n], Abs())
      ensures r.Bytes? && stop ==> Run(d0, size) == Ran(buff[off..off + r.n], Finished) && Next(Abs()).End?
      ensures r.Bytes? && !stop ==>
        || r.n > n0 || Len(bits.Rest().s) < old(Len(bits.Rest().s))
        || (Len(bits.Rest().s) <= old(Len(bits.Rest().s)) && Rank() < old(Rank()))
      ensures forall i :: 0 <= i < buff.Length && !(off <= i < off + size) ==> buff[i] == old(buff[i])
    {
      hide FixedOk, CodesReady, Next, Run, Progress, Pow2, Len, Unread, Ring;
      var n := n0;
      stop := true;
      if eof && kind == -1 {
        AtEnd(Abs());
        ProgressStops(d0, size, buff[off..off + n], Abs());
        r := Bytes(n);
        return;
      }
      if copyLeng > 0 {
        n := Resume(buff, off, size, n, d0);
        if n == size {
          return Bytes(n), false;
        }
      }
      if kind == -1 {
        if eof {
          AtEnd(Abs());
          ProgressStops(d0, size, buff[off..off + n], Abs());
          r := Bytes(n);
          return;
        }
        r := OpenNext(buff, off, size, n, d0);
      } else {
        r := MoreCodes(buff, off, size, n, d0);
      }
      stop := !r.Bytes?;
    }

    /**
      `zip_inflate_internal`: the next `size` bytes. After an error in the last block it returns 0, otherwise -1; in
      both cases what this call had put into the buffer does not count.
     */
    method Internal(buff: array<int>, off: nat, size: nat) returns (r: Reply)
      requires Resting() && off + size <= buff.Length && buff != win.slide
      modifies this, bits, win, win.slide, buff
      ensures r.Thrown? <==> Run(old(Abs()), size).stop == Exception
      ensures r.Minus1? <==> Run(old(Abs()), size).stop == Error(false)
      ensures Run(old(Abs()), size).stop == Error(true) ==> r == Bytes(0)
      ensures var run := Run(old(Abs()), size);
        run.stop.More? || run.stop.Finished? ==>
          Resting() && r == Bytes(|run.out|) && off + r.n <= buff.Length && buff[off..off + r.n] == run.out
      ensures var run := Run(old(Abs()), size);
        && (run.stop.More? ==> Abs() == run.stop.d)
        && (run.stop.Finished? ==> Next(Abs()).End?)
      ensures forall i :: 0 <= i < buff.Length && !(off <= i < off + size) ==> buff[i] == old(buff[i])
    {
      hide FixedOk, CodesReady, Next, Run, Progress, Pow2, Len, Unread, Ring, Parts, Abs;
      ghost var d0 := Abs();
      ProgressStart(d0, size);
      var n := 0;
      assert buff[off..off + n] == [];
      while n < size
        invariant Resting() && n <= size && Progress(d0, size, buff[off..off + n], Abs())
        invariant forall i :: 0 <= i < buff.Length && !(off <= i < off + size) ==> buff[i] == old(buff[i])
        decreases size - n, Len(bits.Rest().s), Rank()
      {
        var stop;
        r, stop := Round(buff, off, size, n, d0);
        if stop {
          if r == Minus1 && eof {
            r := Bytes(0);
          }
          return;
        }
        n := r.n;
      }
      ProgressFull(d0, size, buff[off..off + n], Abs());
      r := Bytes(n);
    }
  }

  lemma AtEnd(d: Decoder)
    requires DecoderOk(d) && d.last && d.block.NoBlock?
    ensures Next(d) == End
  {
  }

  lemma PeekTwo(b: Stream)
    ensures 0 <= Peek(b, 2) <= 3
  {
    PowersOfTwo();
  }

  lemma FixedShape()
    ensures |FixedLit()| == 288 && |FixedDist()| == 30
  {
  }

  /** The bits left in the current byte are the bits to the next byte boundary. */
  lemma Boundary(used: nat, len: nat)
    requires (used + len) % 8 == 0
    ensures len % 8 == ToBoundary(used)
  {
  }
}
