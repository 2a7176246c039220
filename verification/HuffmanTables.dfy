/**
  Multi-level decoding tables: what an entry may hold, how the decoder walks them, and
  why complete tables decode exactly the canonical code.
 */
module HuffmanTables {
  import Digits
  import opened Bits
  import opened CanonicalCode

  /** `zip_HuftNode`; `t` is the index of the next table in order of allocation. */
  datatype Node = Node(e: int, b: int, n: int, t: int)

  type Tables = seq<seq<Node>>

  /**
    The arguments of `zip_HuftBuild`: code lengths, number of simple symbols, base values and extra bits of the
    others.
   */
  datatype Alphabet = Alphabet(lens: seq<int>, simple: int, base: seq<int>, extra: seq<int>)

  const INVALID := 99

  ghost predicate IsAlphabet(a: Alphabet) {
    && IsLengths(a.lens) && 0 <= a.simple
    && (a.simple < |a.lens| ==> |a.lens| - a.simple <= |a.base| && |a.lens| - a.simple <= |a.extra|)
    && forall i :: 0 <= i < |a.extra| ==> 0 <= a.extra[i] < 15 || a.extra[i] == INVALID
  }

  /** The operation of symbol `s`: 16 for a literal, 15 for end of block, otherwise the number of extra bits. */
  function Operation(a: Alphabet, s: int): int
    requires IsAlphabet(a) && 0 <= s < |a.lens|
  {
    if s < a.simple then (if s < 256 then 16 else 15) else a.extra[s - a.simple]
  }

  /** The value of symbol `s`: itself, or the base of its length or distance. */
  function Value(a: Alphabet, s: int): int
    requires IsAlphabet(a) && 0 <= s < |a.lens|
  {
    if s < a.simple then s else a.base[s - a.simple]
  }

  // ---- Walking ----

  datatype Lookup = Hit(e: int, n: int, used: int) | Bad

  /** The decoder's walk: index with the low bits, follow links, stop at a leaf or an invalid code. */
  function Walk(tabs: Tables, t: int, bits: nat, stream: int): Lookup
    requires 0 <= t < |tabs|
    decreases |tabs| - t
  {
    var k := stream % Pow2(bits);
    if k >= |tabs[t]| then Bad
    else
      var node := tabs[t][k];
      if node.e <= 16 then Hit(node.e, node.n, node.b)
      else if node.e == INVALID || !(t < node.t < |tabs|) || node.b < 0 then Bad
      else
        match Walk(tabs, node.t, node.e - 16, stream / Pow2(node.b))
        case Bad => Bad
        case Hit(e, n, used) => Hit(e, n, node.b + used)
  }

  // ---- What a table stands for ----

  /** A table is entered after `off` bits that read `pre`, and decodes the next `bits` bits. */
  datatype Place = Place(off: Width, pre: int, bits: nat)

  type Width = n: nat | n <= MAX_BITS

  ghost predicate IsPlace(p: Place, g: nat) {
    1 <= p.bits && p.off + p.bits <= g && 0 <= p.pre < Pow2(p.off)
  }

  /** The bits read on the way to entry `k`. */
  function Path(p: Place, k: int): int {
    p.pre + k * Pow2(p.off)
  }

  ghost predicate IsLeaf(a: Alphabet, p: Place, k: int, node: Node, s: int)
    requires IsAlphabet(a)
  {
    && 0 <= s < |a.lens| && p.off < a.lens[s] <= p.off + p.bits
    && Rev(Path(p, k), a.lens[s]) == Code(a.lens, s)
    && node.e == Operation(a, s) && node.n == Value(a, s) && node.b == a.lens[s] - p.off
  }

  /** The first pattern of `g` bits that no symbol uses. */
  function EndOfCodes(lens: seq<int>, g: nat): int {
    NextCode(lens, g) + Count(lens, g)
  }

  /** `n` is the value of the last code of length `g`: what the value field still holds when the symbols run out. */
  ghost predicate IsStale(a: Alphabet, g: nat, n: int)
    requires IsAlphabet(a)
  {
    exists s :: 0 <= s < |a.lens| && a.lens[s] == g && Rank(a.lens, s) == Count(a.lens, g) - 1 && n == Value(a, s)
  }

  ghost predicate IsUnused(a: Alphabet, g: nat, p: Place, k: int, node: Node)
    requires IsAlphabet(a)
  {
    && node.e == INVALID && p.off < g <= p.off + p.bits && Rev(Path(p, k), g) >= EndOfCodes(a.lens, g)
    && node.b == g - p.off && IsStale(a, g, node.n)
  }

  ghost predicate IsLink(places: seq<Place>, t: int, k: int, node: Node)
    requires 0 <= t < |places|
  {
    && t < node.t < |places|
    && node.b == places[t].bits && node.e == 16 + places[node.t].bits
    && places[node.t].off == places[t].off + places[t].bits && places[node.t].pre == Path(places[t], k)
  }

  ghost predicate EntryOk(a: Alphabet, g: nat, places: seq<Place>, t: int, k: int, node: Node)
    requires IsAlphabet(a) && 0 <= t < |places|
  {
    || (exists s :: IsLeaf(a, places[t], k, node, s))
    || IsUnused(a, g, places[t], k, node)
    || IsLink(places, t, k, node)
  }

  ghost predicate Shaped(tabs: Tables, places: seq<Place>, g: nat) {
    && |tabs| == |places| && g <= MAX_BITS
    && forall t :: 0 <= t < |tabs| ==> IsPlace(places[t], g) && |tabs[t]| == Pow2(places[t].bits)
  }

  /** Every entry of every table has its final content. */
  ghost predicate Complete(a: Alphabet, g: nat, tabs: Tables, places: seq<Place>)
    requires IsAlphabet(a)
  {
    && Shaped(tabs, places, g)
    && forall t, k :: 0 <= t < |tabs| && 0 <= k < |tabs[t]| ==> EntryOk(a, g, places, t, k, tabs[t][k])
  }

  // ---- Complete tables decode the canonical code ----

  /** What a lookup must return for a stream: the symbol whose code it starts with, or nothing. */
  ghost predicate Decodes(a: Alphabet, g: nat, stream: int, r: Lookup)
    requires IsAlphabet(a)
  {
    match r
    case Hit(e, n, used) =>
      exists s :: StartsWith(a.lens, stream, s) && e == Operation(a, s) != INVALID && n == Value(a, s)
        && used == a.lens[s]
    case Bad =>
      || Rev(stream, g) >= EndOfCodes(a.lens, g)
      || exists s :: StartsWith(a.lens, stream, s) && Operation(a, s) == INVALID
  }

  lemma ModSplit(x: int, m: nat, n: nat)
    ensures x % Pow2(m + n) == x % Pow2(m) + (x / Pow2(m)) % Pow2(n) * Pow2(m)
    ensures x / Pow2(m + n) == (x / Pow2(m)) / Pow2(n)
  {
    hide Pow2;
    Pow2Add(m, n);
    SplitNumber(x, Pow2(m), Pow2(n));
  }

  lemma SplitNumber(x: int, p: int, q: int)
    requires 0 < p && 0 < q
    ensures 0 < p * q && x % (p * q) == x % p + (x / p) % q * p && x / (p * q) == (x / p) / q
  {
    DivMod(x, p);
    DivMod(x / p, q);
    Recompose(x, p, q, x % p, (x / p) % q, (x / p) / q, x / p);
  }

  lemma Recompose(x: int, p: int, q: int, lo: int, mid: int, hi: int, y: int)
    requires 0 < p && 0 < q && 0 <= lo < p && 0 <= mid < q && x == y * p + lo && y == hi * q + mid
    ensures 0 < p * q && x % (p * q) == lo + mid * p && x / (p * q) == hi
  {
    Distribute(hi, q, mid, p);
    MidBound(lo, mid, p, q);
    Digits.QuotientUnique(x, p * q, hi, lo + mid * p);
  }

  lemma Distribute(a: int, b: int, c: int, d: int)
    ensures (a * b + c) * d == a * (d * b) + c * d
  {
  }

  lemma MidBound(lo: int, mid: int, p: int, q: int)
    requires 0 <= lo < p && 0 <= mid < q
    ensures 0 <= lo + mid * p < p * q
  {
    if mid < q - 1 {
      ProductGap(mid, q - 1, p);
    }
    assert (q - 1) * p + p == p * q;
    assert mid * p >= 0;
  }

  lemma ModMod(x: int, m: nat, n: nat)
    requires n <= m
    ensures (x % Pow2(m)) % Pow2(n) == x % Pow2(n)
  {
    ModSplit(x, n, m - n);
    DivMod(x, Pow2(n));
    Digits.QuotientUnique(x % Pow2(m), Pow2(n), (x / Pow2(n)) % Pow2(m - n), x % Pow2(n));
  }

  lemma ModRange(x: int, d: int)
    requires 0 < d
    ensures 0 <= x % d < d
  {
  }

  /** A stream that came to a table goes on to the entry whose path it starts with. */
  lemma PathOfStream(p: Place, stream: int, k: int)
    requires stream % Pow2(p.off) == p.pre && k == (stream / Pow2(p.off)) % Pow2(p.bits)
    ensures Path(p, k) == stream % Pow2(p.off + p.bits) && 0 <= k < Pow2(p.bits)
  {
    hide Pow2;
    ModSplit(stream, p.off, p.bits);
    ModRange(stream / Pow2(p.off), Pow2(p.bits));
  }

  /** Reversing a part of the path is reversing that part of the stream. */
  lemma RevOfPath(p: Place, stream: int, k: int, len: nat)
    requires Path(p, k) == stream % Pow2(p.off + p.bits) && len <= p.off + p.bits
    ensures Rev(Path(p, k), len) == Rev(stream, len)
  {
    hide Path, Rev, Pow2;
    ModMod(stream, p.off + p.bits, len);
    RevLow(Path(p, k), stream, len);
  }

  /** The walk from a table the stream has come to. */
  lemma {:induction false} WalkFrom(a: Alphabet, g: nat, tabs: Tables, places: seq<Place>, t: int, stream: int)
      returns (r: Lookup)
    requires IsAlphabet(a) && Complete(a, g, tabs, places) && 0 <= t < |tabs|
    requires stream % Pow2(places[t].off) == places[t].pre
    ensures r == match Walk(tabs, t, places[t].bits, stream / Pow2(places[t].off))
                 case Bad => Bad
                 case Hit(e, n, used) => Hit(e, n, places[t].off + used)
    ensures Decodes(a, g, stream, r)
    decreases |tabs| - t
  {
    hide Pow2, Rev, Value, Code;
    var p := places[t];
    var rest := stream / Pow2(p.off);
    var k := rest % Pow2(p.bits);
    PathOfStream(p, stream, k);
    var node := tabs[t][k];
    assert EntryOk(a, g, places, t, k, node);
    if s :| IsLeaf(a, p, k, node, s) {
      RevOfPath(p, stream, k, a.lens[s]);
      assert StartsWith(a.lens, stream, s);
      r := if node.e == INVALID then Bad else Hit(node.e, node.n, p.off + node.b);
    } else if IsUnused(a, g, p, k, node) {
      RevOfPath(p, stream, k, g);
      r := Bad;
    } else {
      ModSplit(stream, p.off, p.bits);
      r := WalkFrom(a, g, tabs, places, node.t, stream);
    }
  }

  /** The tables mean the canonical code. */
  ghost predicate Means(a: Alphabet, tabs: Tables, bits: nat)
    requires IsAlphabet(a)
  {
    && tabs != []
    && (forall stream: int, s :: StartsWith(a.lens, stream, s) ==>
          Walk(tabs, 0, bits, stream)
            == if Operation(a, s) == INVALID then Bad else Hit(Operation(a, s), Value(a, s), a.lens[s]))
    && (forall stream: int :: (forall s :: !StartsWith(a.lens, stream, s)) ==> Walk(tabs, 0, bits, stream) == Bad)
  }

  /** Complete tables whose first one is entered with no bits read decode every stream as the canonical code says. */
  lemma CompleteMeans(a: Alphabet, g: nat, tabs: Tables, places: seq<Place>)
    requires IsAlphabet(a) && Complete(a, g, tabs, places) && IsLongest(a.lens, g)
    requires tabs != [] && places[0].off == 0
    ensures Means(a, tabs, places[0].bits)
  {
    forall stream: int
      ensures Decodes(a, g, stream, Walk(tabs, 0, places[0].bits, stream))
    {
      assert Pow2(0) == 1 && places[0].pre == 0;
      var r := WalkFrom(a, g, tabs, places, 0, stream);
    }
    forall stream: int, s | StartsWith(a.lens, stream, s)
      ensures Walk(tabs, 0, places[0].bits, stream)
           == if Operation(a, s) == INVALID then Bad else Hit(Operation(a, s), Value(a, s), a.lens[s])
    {
      UniqueDecoding(a, g, stream, s, Walk(tabs, 0, places[0].bits, stream));
    }
  }

  lemma UniqueDecoding(a: Alphabet, g: nat, stream: int, s: int, r: Lookup)
    requires IsAlphabet(a) && IsLongest(a.lens, g) && StartsWith(a.lens, stream, s) && Decodes(a, g, stream, r)
    ensures r == if Operation(a, s) == INVALID then Bad else Hit(Operation(a, s), Value(a, s), a.lens[s])
  {
    if Rev(stream, g) >= EndOfCodes(a.lens, g) {
      BeyondLast(a.lens, g, stream, s);
    }
    forall t | StartsWith(a.lens, stream, t)
      ensures t == s
    {
      AtMostOne(a.lens, stream, s, t);
    }
  }
}
