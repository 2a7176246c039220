/** Decoding one symbol with the tables that `zip_HuftBuild` made. */
module SymbolDecoder {
  import opened Bits
  import opened CanonicalCode
  import opened HuffmanTables
  import opened HuftInvariant
  import opened HuftCounting
  import opened HuftBuild
  import opened Deflate
  import opened BitReader

  // ---- The three alphabets ----

  lemma LengthTables()
    ensures |COPY_LENGTHS| == 31 && |LENGTH_EXTRA| == 31
    ensures forall i :: 0 <= i < 31 ==> 0 <= LENGTH_EXTRA[i] < 15 || LENGTH_EXTRA[i] == INVALID
  {
  }

  lemma DistanceTables()
    ensures |COPY_DISTANCES| == 30 && |DISTANCE_EXTRA| == 30
    ensures forall i :: 0 <= i < 30 ==> 0 <= DISTANCE_EXTRA[i] < 15
  {
  }

  function LitAlphabet(lens: seq<int>): (a: Alphabet)
    requires IsLengths(lens) && |lens| <= 288
    ensures IsAlphabet(a) && a.lens == lens
  {
    hide COPY_LENGTHS, LENGTH_EXTRA;
    LengthTables();
    Alphabet(lens, 257, COPY_LENGTHS, LENGTH_EXTRA)
  }

  function DistAlphabet(lens: seq<int>): (a: Alphabet)
    requires IsLengths(lens) && |lens| <= 30
    ensures IsAlphabet(a) && a.lens == lens
  {
    hide COPY_DISTANCES, DISTANCE_EXTRA;
    DistanceTables();
    Alphabet(lens, 0, COPY_DISTANCES, DISTANCE_EXTRA)
  }

  function CodeAlphabet(lens: seq<int>): (a: Alphabet)
    requires IsLengths(lens) && |lens| <= 19
    ensures IsAlphabet(a) && a.lens == lens
  {
    Alphabet(lens, 19, [], [])
  }

  // ---- Walking ----

  lemma DropDrop(b: Stream, m: nat, n: nat)
    ensures Drop(Drop(b, m), n) == Drop(b, m + n)
  {
    ModSplit(b.s, m, n);
  }

  /** What the decoder finds at the entry its next bits select. */
  ghost predicate Found(a: Alphabet, tabs: Tables, places: seq<Place>, t: int, stream: int, node: Node)
    requires IsAlphabet(a) && |places| == |tabs| && 0 <= t < |tabs|
  {
    if node.e <= 16 then
      && 0 <= node.e && 1 <= node.b <= places[t].bits
      && (exists s :: StartsWith(a.lens, stream, s) && node.e == Operation(a, s) && node.n == Value(a, s)
                   && places[t].off + node.b == a.lens[s])
    else if node.e == INVALID then
      forall s :: StartsWith(a.lens, stream, s) ==> Operation(a, s) == INVALID
    else
      && t < node.t < |tabs| && node.b == places[t].bits && node.e - 16 == places[node.t].bits
      && stream % Pow2(places[node.t].off) == places[node.t].pre && places[node.t].off == places[t].off + places[t].bits
  }

  lemma AtEntry(a: Alphabet, g: nat, tabs: Tables, places: seq<Place>, t: int, stream: int)
    requires IsAlphabet(a) && Complete(a, g, tabs, places) && IsLongest(a.lens, g) && 0 <= t < |tabs|
    requires stream % Pow2(places[t].off) == places[t].pre
    ensures 1 <= places[t].bits <= 16
    ensures var k := (stream / Pow2(places[t].off)) % Pow2(places[t].bits);
      0 <= k < |tabs[t]| && Found(a, tabs, places, t, stream, tabs[t][k])
  {
    hide Pow2, Rev, Value, Code, Rank, NextCode, Count, Path, Operation;
    var p := places[t];
    var k := (stream / Pow2(p.off)) % Pow2(p.bits);
    PathOfStream(p, stream, k);
    var node := tabs[t][k];
    assert EntryOk(a, g, places, t, k, node);
    if s :| IsLeaf(a, p, k, node, s) {
      RevOfPath(p, stream, k, a.lens[s]);
      LeafFound(a, tabs, places, t, k, node, stream, s);
    } else if IsUnused(a, g, p, k, node) {
      RevOfPath(p, stream, k, g);
      forall s
        ensures !StartsWith(a.lens, stream, s)
      {
        BeyondLast(a.lens, g, stream, s);
      }
    }
  }

  lemma LeafFound(a: Alphabet, tabs: Tables, places: seq<Place>, t: int, k: int, node: Node, stream: int, s: int)
    requires IsAlphabet(a) && |places| == |tabs| && 0 <= t < |tabs| && IsLeaf(a, places[t], k, node, s)
    requires Rev(stream, a.lens[s]) == Rev(Path(places[t], k), a.lens[s])
    ensures Found(a, tabs, places, t, stream, node)
  {
    hide Rev, Code, Path, Pow2;
    assert StartsWith(a.lens, stream, s);
    if node.e == INVALID {
      forall u | StartsWith(a.lens, stream, u)
        ensures u == s
      {
        AtMostOne(a.lens, stream, s, u);
      }
    }
  }

  /** What a lookup tells the caller: the operation and value of the symbol, and its code taken off the stream. */
  ghost predicate Decoded(a: Alphabet, before: Stream, e: int, n: int, after: Stream)
    requires IsAlphabet(a)
  {
    match SymbolAt(a.lens, before.s)
    case NoSymbol => e == INVALID
    case Symbol(s) =>
      e == Operation(a, s) && (e != INVALID ==> n == Value(a, s) && after == Drop(before, a.lens[s]))
  }

  lemma LeafDecoded(a: Alphabet, before: Stream, tabs: Tables, places: seq<Place>, t: int, node: Node, after: Stream)
    requires IsAlphabet(a) && |places| == |tabs| && 0 <= t < |tabs|
    requires Found(a, tabs, places, t, before.s, node) && node.e <= 16
    requires after == Drop(before, places[t].off + node.b)
    ensures Decoded(a, before, node.e, node.n, after) && 0 <= node.e
  {
    hide Rev, Code, Pow2, Operation, Value;
    var s :| StartsWith(a.lens, before.s, s) && node.e == Operation(a, s) && node.n == Value(a, s)
           && places[t].off + node.b == a.lens[s];
    SymbolIs(a.lens, before.s, s);
  }

  /** The decoder has dropped what leads to table `t` and looks at the entry its next bits select. */
  ghost predicate At(a: Alphabet, tabs: Tables, places: seq<Place>, t: int, before: Stream, rest: Stream, node: Node)
    requires IsAlphabet(a)
  {
    && |places| == |tabs| && 0 <= t < |tabs| && rest == Drop(before, places[t].off)
    && Found(a, tabs, places, t, before.s, node)
  }

  ghost predicate TablesFor(a: Alphabet, g: nat, tabs: Tables, places: seq<Place>)
    requires IsAlphabet(a)
  {
    IsLongest(a.lens, g) && Complete(a, g, tabs, places)
  }

  lemma ArriveFirst(a: Alphabet, g: nat, tabs: Tables, places: seq<Place>, m: int, before: Stream)
    requires IsAlphabet(a) && TablesFor(a, g, tabs, places) && FirstPlace(places, m)
    ensures 1 <= m <= 16 && tabs != [] && Peek(before, m) < |tabs[0]| && places[0].bits == m && |places| == |tabs|
    ensures At(a, tabs, places, 0, before, before, tabs[0][Peek(before, m)])
  {
    hide Pow2, Found, EntryOk, IsLongest;
    StartOfStream(places, g, before.s);
    AtEntry(a, g, tabs, places, 0, before.s);
    DropNothing(before);
  }

  lemma ArriveNext(a: Alphabet, g: nat, tabs: Tables, places: seq<Place>, t: int, before: Stream, rest: Stream,
      node: Node)
    requires IsAlphabet(a) && TablesFor(a, g, tabs, places) && At(a, tabs, places, t, before, rest, node)
    requires node.e > 16 && node.e != INVALID
    ensures t < node.t < |tabs| && |places| == |tabs|
    ensures 0 <= node.b == places[t].bits && node.e - 16 == places[node.t].bits <= 16
    ensures var k := Peek(Drop(rest, node.b), node.e - 16);
      k < |tabs[node.t]| && At(a, tabs, places, node.t, before, Drop(rest, node.b), tabs[node.t][k])
  {
    hide Pow2, EntryOk, IsLongest, Operation, Value, StartsWith;
    AtEntry(a, g, tabs, places, node.t, before.s);
    DropDrop(before, places[t].off, places[t].bits);
  }

  lemma ArriveLast(a: Alphabet, tabs: Tables, places: seq<Place>, t: int, before: Stream, rest: Stream, node: Node)
    requires IsAlphabet(a) && At(a, tabs, places, t, before, rest, node)
    ensures node.e == INVALID ==> Decoded(a, before, INVALID, 0, rest)
    ensures node.e <= 16 ==> 0 <= node.e && 0 <= node.b <= places[t].bits
    ensures node.e <= 16 ==> Decoded(a, before, node.e, node.n, Drop(rest, node.b))
  {
    hide Pow2, Operation, Value, StartsWith, Decoded;
    if node.e <= 16 {
      DropDrop(before, places[t].off, node.b);
      LeafDecoded(a, before, tabs, places, t, node, Drop(rest, node.b));
    } else if node.e == INVALID {
      InvalidDecoded(a, before, tabs, places, t, node, rest);
    }
  }

  /** The loop both decoders use; an operation of 99 is an invalid code. */
  method DecodeSymbol(r: Reader, ghost a: Alphabet, tabs: Tables, m: int) returns (e: int, n: int)
    requires r.Valid() && IsAlphabet(a) && Built(a, tabs, m)
    modifies r
    ensures r.Valid() && r.data == old(r.data)
    ensures Decoded(a, old(r.Rest()), e, n, r.Rest())
    ensures e == INVALID || 0 <= e <= 16
  {
    hide Pow2, Peek, Drop, At, TablesFor, Decoded, IsAlphabet, FirstPlace, Built;
    hide Unread, Reader.Rest;
    ghost var before := r.Rest();
    ghost var g, places := TablesOf(a, tabs, m);
    ghost var t := 0;
    ArriveFirst(a, g, tabs, places, m, before);
    r.NeedBits(m);
    var node := tabs[0][r.GetBits(m)];
    while node.e > 16
      invariant r.Valid() && r.data == old(r.data) && 0 <= t < |places| == |tabs| && r.len >= places[t].bits
      invariant At(a, tabs, places, t, before, r.Rest(), node)
      decreases |tabs| - t
    {
      if node.e == 99 {
        e, n := INVALID, 0;
        ArriveLast(a, tabs, places, t, before, r.Rest(), node);
        return;
      }
      ArriveNext(a, g, tabs, places, t, before, r.Rest(), node);
      r.DumpBits(node.b);
      e := node.e - 16;
      t := node.t;
      r.NeedBits(e);
      node := tabs[node.t][r.GetBits(e)];
    }
    ArriveLast(a, tabs, places, t, before, r.Rest(), node);
    r.DumpBits(node.b);
    e, n := node.e, node.n;
  }

  lemma TablesOf(a: Alphabet, tabs: Tables, m: int) returns (g: nat, places: seq<Place>)
    requires IsAlphabet(a) && Built(a, tabs, m)
    ensures TablesFor(a, g, tabs, places) && FirstPlace(places, m)
  {
    g, places :| IsLongest(a.lens, g) && Complete(a, g, tabs, places) && FirstPlace(places, m);
  }

  lemma InvalidDecoded(a: Alphabet, before: Stream, tabs: Tables, places: seq<Place>, t: int, node: Node, after: Stream)
    requires IsAlphabet(a) && |places| == |tabs| && 0 <= t < |tabs|
    requires Found(a, tabs, places, t, before.s, node) && node.e == INVALID
    ensures Decoded(a, before, INVALID, 0, after)
  {
    hide Rev, Code, Pow2, Operation, Value;
  }

  lemma StartOfStream(places: seq<Place>, g: nat, s: int)
    requires places != [] && places[0].off == 0 && IsPlace(places[0], g)
    ensures s % Pow2(0) == 0 == places[0].pre && s / Pow2(0) == s
  {
    assert Pow2(0) == 1;
  }

  lemma DropNothing(b: Stream)
    ensures Drop(b, 0) == b
  {
    assert Pow2(0) == 1;
  }

  // ---- A single table ----

  /** The code length decoder looks up its one table without testing for invalid codes. */
  lemma SingleTable(cl: seq<int>, tabs: Tables, m: int, stream: int)
    requires IsLengths(cl) && |cl| <= 19 && Acceptable(cl) && Built(CodeAlphabet(cl), tabs, m) && |tabs| == 1
    ensures 1 <= m <= 16 && 0 <= stream % Pow2(m) < |tabs[0]|
    ensures var node, s := tabs[0][stream % Pow2(m)], LengthSymbol(cl, stream);
      node.n == s && node.b == cl[s] && node.b <= m
  {
    hide Pow2, IsLeaf, IsUnused, KraftSum, LengthSymbol, Found, AllZero;
    var a := CodeAlphabet(cl);
    var g, places := TablesOf(a, tabs, m);
    StartOfStream(places, g, stream);
    AtEntry(a, g, tabs, places, 0, stream);
    var k := stream % Pow2(m);
    assert EntryOk(a, g, places, 0, k, tabs[0][k]);
    PathOfStream(places[0], stream, k);
    if s :| IsLeaf(a, places[0], k, tabs[0][k], s) {
      SingleLeaf(cl, places[0], k, tabs[0][k], stream, s);
    } else {
      SingleUnused(cl, g, places[0], k, tabs[0][k], stream);
    }
  }

  lemma SingleLeaf(cl: seq<int>, p: Place, k: int, node: Node, stream: int, s: int)
    requires IsLengths(cl) && |cl| <= 19 && Acceptable(cl) && p.off == 0 && IsLeaf(CodeAlphabet(cl), p, k, node, s)
    requires Path(p, k) == stream % Pow2(p.off + p.bits)
    ensures LengthSymbol(cl, stream) == s && node.n == s && node.b == cl[s] <= p.bits
  {
    hide Pow2, Rev, Code, Path, SymbolAt, KraftSum, AllZero;
    RevOfPath(p, stream, k, cl[s]);
    SymbolIs(cl, stream, s);
  }

  lemma SingleUnused(cl: seq<int>, g: nat, p: Place, k: int, node: Node, stream: int)
    requires IsLengths(cl) && |cl| <= 19 && Acceptable(cl) && IsLongest(cl, g) && p.off == 0
    requires IsUnused(CodeAlphabet(cl), g, p, k, node) && Path(p, k) == stream % Pow2(p.off + p.bits)
    ensures var s := LengthSymbol(cl, stream); node.n == s && node.b == cl[s] <= p.bits
  {
    hide Pow2, Rev, Path, SymbolAt, KraftSum, Count, NextCode, AllZero;
    RevOfPath(p, stream, k, g);
    forall s
      ensures !StartsWith(cl, stream, s)
    {
      BeyondLast(cl, g, stream, s);
    }
    SingleCode(cl, stream);
    SymbolIsNot(cl, stream);
    var s :| 0 <= s < |cl| && cl[s] == g && Rank(cl, s) == Count(cl, g) - 1 && node.n == Value(CodeAlphabet(cl), s);
    OneBitCodes(cl, g, s, OnlySymbol(cl));
  }

  lemma OneBitCodes(cl: seq<int>, g: nat, s: int, t: int)
    requires Acceptable(cl) && IsLongest(cl, g) && IsLongest(cl, 1) && KraftSum(cl) <= SPACE
    requires KraftSum(cl) < SPACE
    requires 0 <= s < |cl| && 0 <= t < |cl| && cl[s] == g && cl[t] == 1
    ensures g == 1 && s == t
  {
    hide KraftSum;
    KraftAtLongest(cl, 1);
    RankBelowCount(cl, s);
    RankBelowCount(cl, t);
    OneBitSpace(cl);
    SameRank(cl, s, t);
  }

  lemma OneBitSpace(cl: seq<int>)
    requires EndOfCodes(cl, 1) * Pow2(15) < SPACE
    ensures Count(cl, 1) <= 1
  {
    hide Count;
    Sixteen();
    assert Pow2(16) == 2 * Pow2(15);
    assert NextCode(cl, 1) == 0;
  }
}
