/** The header of a block with dynamic trees: `zip_inflate_dynamic` up to the point where it has its tables. */
module DynamicTrees {
  import opened Bits
  import opened CanonicalCode
  import opened HuffmanTables
  import opened HuftInvariant
  import opened HuftBuild
  import opened Deflate
  import opened BitReader
  import opened SymbolDecoder

  // ---- Code length code ----

  lemma NextCodeLength(bits: Stream, nb: nat, j: nat, ll: seq<int>)
    requires j < 19 && nb <= 19 <= |ll|
    ensures j < nb ==>
      CodeLengths(bits, nb, j, ll) == CodeLengths(Drop(bits, 3), nb, j + 1, ll[Border(j) := Peek(bits, 3)])
    ensures j >= nb ==> CodeLengths(bits, nb, j, ll) == CodeLengths(bits, nb, j + 1, ll[Border(j) := 0])
  {
    hide Drop, Peek, Border;
  }

  lemma NoCodeLength(bits: Stream, nb: nat, ll: seq<int>)
    requires nb <= 19 <= |ll|
    ensures CodeLengths(bits, nb, 19, ll) == (ll, bits)
  {
  }

  method ReadCodeLengths(r: Reader, nb: nat, ll0: seq<int>) returns (ll: seq<int>)
    requires r.Valid() && nb <= 19 <= |ll0|
    modifies r
    ensures r.Valid() && r.data == old(r.data)
    ensures CodeLengths(old(r.Rest()), nb, 0, ll0) == (ll, r.Rest())
  {
    hide CodeLengths, Drop, Peek, Border, Pow2, Unread;
    ll := ll0;
    var j := 0;
    while j < nb
      invariant r.Valid() && r.data == old(r.data) && 0 <= j <= nb && |ll| == |ll0|
      invariant CodeLengths(old(r.Rest()), nb, 0, ll0) == CodeLengths(r.Rest(), nb, j, ll)
    {
      NextCodeLength(r.Rest(), nb, j, ll);
      var v := r.TakeBits(3);
      ll := ll[Border(j) := v];
      j := j + 1;
    }
    ll := ClearRest(nb, ll, r.Rest());
  }

  method ClearRest(nb: nat, ll0: seq<int>, ghost bits: Stream) returns (ll: seq<int>)
    requires nb <= 19 <= |ll0|
    ensures CodeLengths(bits, nb, nb, ll0) == (ll, bits)
  {
    hide CodeLengths, Border;
    ll := ll0;
    var j := nb;
    while j < 19
      invariant nb <= j <= 19 && |ll| == |ll0|
      invariant CodeLengths(bits, nb, nb, ll0) == CodeLengths(bits, nb, j, ll)
    {
      NextCodeLength(bits, nb, j, ll);
      ll := ll[Border(j) := 0];
      j := j + 1;
    }
    NoCodeLength(bits, nb, ll);
  }

  // ---- Literal and distance code lengths ----

  /** `while(j-- > 0) ll[i++] = l` */
  method Repeat(ll0: seq<int>, i0: nat, times: nat, l: int) returns (ll: seq<int>, i: nat)
    requires i0 + times <= |ll0|
    ensures i == i0 + times && |ll| == |ll0| && ll[..i] == ll0[..i0] + Copies(times, l)
  {
    ll, i := ll0, i0;
    var j := times;
    while j > 0
      invariant 0 <= j <= times && i == i0 + (times - j) && |ll| == |ll0|
      invariant ll[..i] == ll0[..i0] + Copies(times - j, l)
    {
      j := j - 1;
      ll := ll[i := l];
      i := i + 1;
    }
  }

  /** One symbol of the code length code, as the specification reads it. */
  lemma ReadOne(cl: seq<int>, bits: Stream, n: nat, read: seq<int>, last: int)
    requires Acceptable(cl) && |read| < n && 0 <= last < 16 && Small(read)
    ensures var s := LengthSymbol(cl, bits.s);
      var b := Drop(bits, cl[s]);
      var rep := RepeatOf(s, b, last);
      var next := read + Copies(rep.times, rep.value);
      0 <= rep.value < 16
      && (|read| + rep.times > n ==> ReadLengths(cl, bits, n, read, last) == BadLengths)
      && (|read| + rep.times <= n ==> Small(next))
      && (|read| + rep.times <= n ==>
            ReadLengths(cl, bits, n, read, last) == ReadLengths(cl, Drop(b, rep.extra), n, next, rep.value))
  {
    hide Acceptable, LengthSymbol, Drop;
  }

  /** The meaning of one symbol, carried out on the array: the branches on `j`. */
  method ReadSymbol(r: Reader, ghost cl: seq<int>, tl: Tables, bl: int, n: nat, ll0: seq<int>, i0: nat, l0: int)
      returns (ok: bool, ll: seq<int>, i: nat, l: int)
    requires r.Valid() && IsLengths(cl) && |cl| <= 19 && Acceptable(cl) && Built(CodeAlphabet(cl), tl, bl) && |tl| == 1
    requires i0 < n <= |ll0| && 0 <= l0 < 16 && Small(ll0[..i0])
    modifies r
    ensures r.Valid() && r.data == old(r.data)
    ensures !ok ==> ReadLengths(cl, old(r.Rest()), n, ll0[..i0], l0) == BadLengths
    ensures ok ==> i0 < i <= n && |ll| == |ll0| && 0 <= l < 16 && Small(ll[..i])
    ensures ok ==> ReadLengths(cl, old(r.Rest()), n, ll0[..i0], l0) == ReadLengths(cl, r.Rest(), n, ll[..i], l)
  {
    hide Acceptable, Built, LengthSymbol, Small, Drop, Peek, ReadLengths, Pow2, IsLengths, Unread;
    SingleTable(cl, tl, bl, r.Rest().s);
    ReadOne(cl, r.Rest(), n, ll0[..i0], l0);
    PeekIs(r.Rest(), bl);
    r.NeedBits(bl);
    var node := tl[0][r.GetBits(bl)];
    var j := node.b;
    r.DumpBits(j);
    j := node.n;
    ok, ll, i, l := true, ll0, i0, l0;
    if j < 16 {
      ll, i := Repeat(ll, i, 1, j);
      l := j;
      NoExtra(r.Rest());
    } else if j == 16 {
      j := r.TakeBits(2);
      j := 3 + j;
      if i + j > n {
        ok := false;
        return;
      }
      ll, i := Repeat(ll, i, j, l);
    } else if j == 17 {
      j := r.TakeBits(3);
      j := 3 + j;
      if i + j > n {
        ok := false;
        return;
      }
      ll, i := Repeat(ll, i, j, 0);
      l := 0;
    } else {
      j := r.TakeBits(7);
      j := 11 + j;
      if i + j > n {
        ok := false;
        return;
      }
      ll, i := Repeat(ll, i, j, 0);
      l := 0;
    }
  }

  lemma PeekIs(b: Stream, n: nat)
    ensures Peek(b, n) == b.s % Pow2(n)
  {
  }

  lemma NoExtra(b: Stream)
    ensures Drop(b, 0) == b
  {
    assert Pow2(0) == 1;
  }

  /** The loop that reads all code lengths. */
  method ReadAllLengths(r: Reader, ghost cl: seq<int>, tl: Tables, bl: int, n: nat, ll0: seq<int>)
      returns (ok: bool, ll: seq<int>)
    requires r.Valid() && IsLengths(cl) && |cl| <= 19 && Acceptable(cl) && Built(CodeAlphabet(cl), tl, bl) && |tl| == 1
    requires n <= |ll0|
    modifies r
    ensures r.Valid() && r.data == old(r.data)
    ensures ok ==> n <= |ll| == |ll0| && Small(ll[..n])
    ensures match ReadLengths(cl, old(r.Rest()), n, [], 0)
            case BadLengths => !ok
            case Lengths(lens, rest) => ok && |ll| == |ll0| && ll[..n] == lens && r.Rest() == rest
  {
    hide Acceptable, Built, Small, ReadLengths, Pow2, IsLengths, Unread;
    ok, ll := true, ll0;
    var i: nat, l := 0, 0;
    SmallStart();
    assert ll[..0] == [];
    while i < n
      invariant r.Valid() && r.data == old(r.data) && i <= n && |ll| == |ll0| && 0 <= l < 16 && Small(ll[..i])
      invariant ReadLengths(cl, old(r.Rest()), n, [], 0) == ReadLengths(cl, r.Rest(), n, ll[..i], l)
      decreases n - i
    {
      var next, at;
      ok, next, at, l := ReadSymbol(r, cl, tl, bl, n, ll, i, l);
      if !ok {
        return;
      }
      ll, i := next, at;
    }
    ReadNone(cl, r.Rest(), n, ll[..n], l);
  }

  lemma SmallStart()
    ensures Small([])
  {
  }

  lemma ReadNone(cl: seq<int>, bits: Stream, n: nat, read: seq<int>, last: int)
    requires Acceptable(cl) && |read| == n && 0 <= last < 16 && Small(read)
    ensures ReadLengths(cl, bits, n, read, last) == Lengths(read, bits)
  {
    hide Acceptable;
  }

  // ---- The two trees ----

  datatype TreeReply = Ready(tl: Tables, bl: int, td: Tables, bd: int) | BadHeader | NullTables

  /** A status of zero with a table means the code set is complete, or a single code of one bit. */
  lemma ZeroStatus(lens: seq<int>, status: int)
    requires IsLengths(lens)
    requires status == 2 <==> KraftSum(lens) > SPACE
    requires status == 1 <==> !AllZero(lens) && KraftSum(lens) < SPACE && !IsLongest(lens, 1)
    requires AllZero(lens) ==> status == 0
    requires 0 <= status <= 2
    ensures status == 0 <==> AllZero(lens) || Acceptable(lens)
    ensures Acceptable(lens) ==> status != 2 && !AllZero(lens)
  {
    hide KraftSum, IsLongest;
  }

  /** The tables for the two code sets, and the tests on them. */
  method BuildTrees(ll0: seq<int>, nl: nat, nd: nat) returns (t: TreeReply)
    requires 257 <= nl <= 286 && 1 <= nd <= 30 && nl + nd <= |ll0| && Small(ll0[..nl + nd]) && IsLengths(ll0[..nl + nd])
    ensures match CheckTrees(ll0[..nl + nd], nl, Stream(0, 0))
            case BadTrees => t.BadHeader?
            case NullTree => t.NullTables?
            case Trees(lit, dist, _) =>
              && IsLengths(lit) && IsLengths(dist) && |lit| <= 286 && |dist| <= 30
              && t.Ready? && t.tl != [] && Built(LitAlphabet(lit), t.tl, t.bl)
              && (|lit| > 257 ==> Built(DistAlphabet(dist), t.td, t.bd))
  {
    hide Acceptable, Built, KraftSum, IsLongest;
    var ll := ll0;
    ghost var lens := ll0[..nl + nd];
    ghost var lit, dist := lens[..nl], lens[nl..];
    assert ll[..nl] == lit;
    var h := Build(LitAlphabet(ll[..nl]), 9);
    ZeroStatus(lit, h.status);
    if h.status != 0 {
      return BadHeader;
    }
    var tl, bl := h.root, h.m;
    ll := MoveDown(ll, nl, nd);
    assert ll[..nd] == dist;
    h := Build(DistAlphabet(ll[..nd]), 6);
    ZeroStatus(dist, h.status);
    if !AllZero(dist) && h.status != 2 {
      BuiltNonZero(DistAlphabet(dist), h.root, h.m);
    }
    if h.m == 0 && nl > 257 {
      return BadHeader;
    }
    if h.status != 0 {
      return BadHeader;
    }
    if tl == [] {
      if !AllZero(lit) {
        BuiltNonZero(LitAlphabet(lit), tl, bl);
      }
      return NullTables;
    }
    t := Ready(tl, bl, h.root, h.m);
  }

  lemma BuiltNonZero(a: Alphabet, tabs: Tables, m: int)
    requires IsAlphabet(a) && Built(a, tabs, m)
    ensures m > 0 && tabs != []
  {
    BuiltMeans(a, tabs, m);
  }

  /** `for(i = 0; i < nd; i++) ll[i] = ll[i + nl]` */
  method MoveDown(ll0: seq<int>, nl: nat, nd: nat) returns (ll: seq<int>)
    requires nd <= nl && nl + nd <= |ll0|
    ensures |ll| == |ll0| && ll[..nd] == ll0[nl..nl + nd]
  {
    ll := ll0;
    var i := 0;
    while i < nd
      invariant 0 <= i <= nd && |ll| == |ll0|
      invariant forall m :: nl <= m < |ll| ==> ll[m] == ll0[m]
      invariant forall m :: 0 <= m < i ==> ll[m] == ll0[nl + m]
    {
      ll := ll[i := ll[i + nl]];
      i := i + 1;
    }
  }

  method ReadDynamic(r: Reader) returns (t: TreeReply, ghost lit: seq<int>, ghost dist: seq<int>)
    requires r.Valid()
    modifies r
    ensures r.Valid() && r.data == old(r.data)
    ensures match ReadTrees(old(r.Rest()))
            case BadTrees => t.BadHeader?
            case NullTree => t.NullTables?
            case Trees(l, d, rest) =>
              && lit == l && dist == d && CodesOk(lit, dist) && t.Ready? && t.tl != []
              && Built(LitAlphabet(lit), t.tl, t.bl) && (|lit| > 257 ==> Built(DistAlphabet(dist), t.td, t.bd))
              && r.Rest() == rest
  {
    hide Acceptable, Built, KraftSum, IsLongest, Pow2, Peek, Drop, ReadLengths, CodeLengths, CheckTrees, Unread;
    lit, dist := [], [];
    var ll := Copies(316, 0);
    ghost var start := r.Rest();
    var nl, nd, nb;
    nl, nd, nb := ReadCounts(r);
    if nl > 286 || nd > 30 {
      return BadHeader, [], [];
    }
    ll := ReadCodeLengths(r, nb, ll);
    ghost var cl := ll[..19];
    assert forall i :: 0 <= i < 316 ==> 0 <= ll[i] < 8;
    var h := Build(CodeAlphabet(ll[..19]), 7);
    ZeroStatus(cl, h.status);
    if h.status != 0 {
      return BadHeader, [], [];
    }
    if h.root == [] {
      if !AllZero(cl) {
        BuiltNonZero(CodeAlphabet(cl), h.root, h.m);
      }
      return NullTables, [], [];
    }
    var ok;
    ok, ll := ReadAllLengths(r, cl, h.root, h.m, nl + nd, ll);
    if !ok {
      return BadHeader, [], [];
    }
    t := BuildTrees(ll, nl, nd);
    lit, dist := ll[..nl + nd][..nl], ll[..nl + nd][nl..];
    SameCheck(ll[..nl + nd], nl, r.Rest());
  }

  method ReadCounts(r: Reader) returns (nl: nat, nd: nat, nb: nat)
    requires r.Valid()
    modifies r
    ensures r.Valid() && r.data == old(r.data)
    ensures HeaderCounts(nl, nd, nb) == TreeCounts(old(r.Rest()))
    ensures r.Rest() == Drop(Drop(Drop(old(r.Rest()), 5), 5), 4)
  {
    hide Pow2, Peek, Drop, Unread;
    nl := r.TakeBits(5);
    nl := 257 + nl;
    nd := r.TakeBits(5);
    nd := 1 + nd;
    nb := r.TakeBits(4);
    nb := 4 + nb;
  }

  lemma SameCheck(lens: seq<int>, nl: nat, rest: Stream)
    requires nl <= |lens| && IsLengths(lens)
    ensures CheckTrees(lens, nl, rest)
         == match CheckTrees(lens, nl, Stream(0, 0))
            case Trees(lit, dist, _) => Trees(lit, dist, rest)
            case BadTrees => BadTrees
            case NullTree => NullTree
    ensures match CheckTrees(lens, nl, Stream(0, 0))
            case Trees(lit, dist, _) => lit == lens[..nl] && dist == lens[nl..]
            case _ => true
  {
    hide Acceptable, AllZero;
  }
}
