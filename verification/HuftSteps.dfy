/**
  The steps of the table-filling loop of `zip_HuftBuild`: open tables, store a code, advance it, back up over finished
  tables.
 */
module HuftSteps {
  import Digits
  import opened Bits
  import opened CanonicalCode
  import opened HuffmanTables
  import opened HuftInvariant
  import opened HuftSpace
  import opened HuftCounting

  /** The bits decoded by the end of the current table. */
  function EndOff(st: Stack): int
    requires Arrays(st)
  {
    st.w + st.lx[st.h + 1]
  }

  /** The code `i` of `k` bits belongs below the current table, or into it when it is long enough. */
  ghost predicate Ready(places: seq<Place>, st: Stack, k: nat, i: int, q: int, z: int)
    requires StackShape(st, places)
  {
    && 0 <= i < Pow2(k) && 0 <= EndOff(st) && i < Pow2(EndOff(st)) && st.w < k
    && (st.h >= 0 ==> i % Pow2(st.w) == st.x[st.h])
    && (k <= EndOff(st) ==> st.h >= 0 && q == st.u[st.h] && z == Pow2(places[q].bits))
  }

  /** With room for the longest code in the first table there is no second one. */
  ghost predicate OneTable(places: seq<Place>, st: Stack, g: nat) {
    places == [] || (|places| == 1 && st.h == 0 && places[0].bits == g && places[0].off == 0)
  }

  lemma TopFacts(places: seq<Place>, st: Stack)
    requires StackShape(st, places)
    ensures st.h >= 0 ==> 0 <= st.u[st.h] < |places|
    ensures st.h >= 0 ==>
      (var p := places[st.u[st.h]];
       p.off == st.w && p.pre == st.x[st.h] && p.bits == st.lx[st.h + 1] && EndOff(st) == p.off + p.bits)
    ensures st.h < 0 ==> EndOff(st) == 0 && places == []
  {
    if st.h >= 0 {
      assert LevelOk(st, places, st.h);
    }
  }

  /** Each level has decoded at least one bit more than the one before. */
  lemma {:induction false} LevelBelowOffset(places: seq<Place>, st: Stack, g: nat, l: nat)
    requires StackShape(st, places) && l <= st.h
    requires forall t :: 0 <= t < |places| ==> IsPlace(places[t], g)
    ensures LevelOk(st, places, l) && l <= places[st.u[l]].off
  {
    assert LevelOk(st, places, l);
    if l > 0 {
      LevelBelowOffset(places, st, g, l - 1);
      assert StepOk(st, places, l - 1);
    }
  }

  // ---- Opening a table ----

  /** Which entry of the current table the code runs through. */
  lemma EntryOfCode(p: Place, g: nat, i: int)
    requires IsPlace(p, g) && g <= MAX_BITS && 0 <= i < Pow2(p.off + p.bits) && i % Pow2(p.off) == p.pre
    ensures 0 <= i / Pow2(p.off) < Pow2(p.bits)
    ensures Path(p, i / Pow2(p.off)) == i
    ensures forall j :: 0 <= j < Pow2(p.bits) && Path(p, j) == i ==> j == i / Pow2(p.off)
  {
    hide Pow2, Path;
    PathBack(p, i);
    Pow2Add(p.off, p.bits);
    QuotientBelow(i, Pow2(p.off), Pow2(p.bits));
    forall j | 0 <= j < Pow2(p.bits) && Path(p, j) == i
      ensures j == i / Pow2(p.off)
    {
      EntryInPlace(p, g, j);
    }
  }

  lemma PathBack(p: Place, i: int)
    requires i % Pow2(p.off) == p.pre
    ensures Path(p, i / Pow2(p.off)) == i
  {
    hide Pow2;
    DivMod(i, Pow2(p.off));
  }

  lemma QuotientBelow(i: int, p: int, q: int)
    requires 0 < p && 0 < q && 0 <= i < p * q
    ensures 0 <= i / p < q
  {
    DivMod(i, p);
    if i / p >= q {
      NonNegative(i / p - q, p);
      SplitProduct(i / p - q, q, p);
    }
    if i / p < 0 {
      ProductGap(i / p, 0, p);
    }
  }

  /** `q[o] = new zip_HuftNode()`, and the link stored in the table above. */
  method OpenTable(a: Alphabet, c: seq<int>, g: nat, mm: int, el: int, k: nat, rem: nat, i: int,
                   tabs0: Tables, st0: Stack, q0: int, z0: int, r0: Node, ghost places: seq<Place>, ghost single: bool)
      returns (tabs: Tables, st: Stack, q: int, z: int, r: Node, ghost np: Place)
    requires IsAlphabet(a) && Inv(a, g, tabs0, places, st0, Position(i)) && Ready(places, st0, k, i, q0, z0)
    requires |c| == MAX_BITS + 1 && 1 <= k <= g <= MAX_BITS && (forall l :: 1 <= l <= g ==> c[l] >= 0) && c[g] > 0
    requires Position(i) + (rem + 1) * Pow2(MAX_BITS - k) + Rest(c, k, g) == SPACE
    requires k > EndOff(st0)
    requires single ==> mm >= g && el >= g && OneTable(places, st0, g)
    ensures Inv(a, g, tabs, places + [np], st, Position(i)) && Ready(places + [np], st, k, i, q, z)
    ensures EndOff(st) > EndOff(st0) && r.n == r0.n
    ensures single ==> OneTable(places + [np], st, g)
  {
    hide Pow2, Rev, Rest, Position, Path, FinalBelow, Linked, ClosedBelow, Nested, IsLink, EntryOk, IsPlace;
    TopFacts(places, st0);
    if st0.h >= 0 {
      LevelBelowOffset(places, st0, g, st0.h);
      BitsPositive(places[st0.u[st0.h]], g);
    }
    var h, w := st0.h + 1, EndOff(st0);
    PositionShort(i, w);
    var j := ChooseBits(c, k, rem, g, w, mm, el, Position(i));
    z := Pow2(j);
    var table := seq(z, _ => Node(0, 0, 0, -1));
    q := |tabs0|;
    tabs := tabs0 + [table];
    st := Stack(h, w, st0.lx[h + 1 := j], st0.x, st0.u[h := q]);
    r := r0;
    np := Place(w, i, j);
    NewPlaceOk(np, g);
    if h > 0 {
      st := st.(x := st.x[h := i]);
      r := Node(16 + j, st.lx[h], r.n, q);
      var top := st.u[h - 1];
      var at := (i % Pow2(w)) / Pow2(w - st.lx[h]);
      ghost var p := places[top];
      Digits.QuotientUnique(i, Pow2(w), 0, i);
      EntryOfCode(p, g, i);
      tabs := tabs[top := tabs[top][at := r]];
      LinkMade(tabs0, tabs, places, st0, i, table, np, at, r);
    } else {
      IntroOpenedRoot(tabs0, tabs, places, st0, i, table, np);
    }
    assert st == Pushed(st0, i, j, |tabs0|);
    PushKeeps(a, g, tabs0, tabs, places, st0, i, table, np);
    Digits.QuotientUnique(i, Pow2(w), 0, i);
    ReadyAfterPush(places, st0, st, k, i, np, q, z, g);
    if single && st0.h < 0 {
      FirstPosition(i);
    }
  }

  lemma BitsPositive(p: Place, g: nat)
    requires IsPlace(p, g)
    ensures 1 <= p.bits && p.off + p.bits <= g && 0 <= p.pre < Pow2(p.off)
  {
  }

  lemma NewPlaceOk(np: Place, g: nat)
    requires 1 <= np.bits && np.off + np.bits <= g && 0 <= np.pre < Pow2(np.off)
    ensures IsPlace(np, g)
  {
  }

  lemma FirstPosition(i: int)
    requires 0 <= i < Pow2(0)
    ensures Position(i) == 0
  {
    assert Pow2(0) == 1;
    RevZero(MAX_BITS);
  }

  lemma LinkMade(tabs: Tables, tabs': Tables, places: seq<Place>, st: Stack, i: int, table: seq<Node>, np: Place,
                 at: int, r: Node)
    requires |tabs| == |places| && StackShape(st, places) && st.h >= 0 && 0 <= st.u[st.h] < |places|
    requires var top := st.u[st.h]; var p := places[top];
      && 0 <= at < |tabs[top]| && Path(p, at) == i && (forall j :: 0 <= j < |tabs[top]| && Path(p, j) == i ==> j == at)
      && tabs' == (tabs + [table])[top := tabs[top][at := r]]
      && r.t == |tabs| && r.b == p.bits && r.e == 16 + np.bits && np.off == p.off + p.bits && np.pre == i
    ensures Opened(tabs, tabs', places, st, i, table, np)
  {
    hide Path, LevelOk, StepOk;
    var top := st.u[st.h];
    assert IsLink(places + [np], top, at, r);
    assert tabs'[top][at] == r;
  }

  lemma IntroOpenedRoot(tabs: Tables, tabs': Tables, places: seq<Place>, st: Stack, i: int, table: seq<Node>, np: Place)
    requires |tabs| == |places| && StackShape(st, places) && st.h < 0 && tabs' == tabs + [table]
    ensures Opened(tabs, tabs', places, st, i, table, np)
  {
  }

  lemma ReadyAfterPush(places: seq<Place>, st0: Stack, st: Stack, k: nat, i: int, np: Place, q: int, z: int, g: nat)
    requires StackShape(st0, places) && StackShape(st, places + [np]) && Arrays(st0) && st0.h < MAX_BITS - 1
    requires st == Pushed(st0, i, np.bits, |places|) && IsPlace(np, g) && np.off == st.w && np.pre == i
    requires 0 <= i < Pow2(k) && st.w < k && i % Pow2(st.w) == i
    requires q == |places| && z == Pow2(np.bits)
    ensures Ready(places + [np], st, k, i, q, z) && EndOff(st) == st.w + np.bits
  {
    hide Pow2;
    TopFacts(places + [np], st);
    Pow2Monotone(st.w, EndOff(st));
  }

  /** Tables down to the one the code of `k` bits goes into. */
  method OpenTables(a: Alphabet, c: seq<int>, g: nat, mm: int, el: int, k: nat, rem: nat, i: int,
                    tabs0: Tables, st0: Stack, q0: int, z0: int, r0: Node, ghost places0: seq<Place>,
                    ghost single: bool)
      returns (tabs: Tables, st: Stack, q: int, z: int, r: Node, ghost places: seq<Place>)
    requires IsAlphabet(a) && Inv(a, g, tabs0, places0, st0, Position(i)) && Ready(places0, st0, k, i, q0, z0)
    requires |c| == MAX_BITS + 1 && 1 <= k <= g <= MAX_BITS && (forall l :: 1 <= l <= g ==> c[l] >= 0) && c[g] > 0
    requires Position(i) + (rem + 1) * Pow2(MAX_BITS - k) + Rest(c, k, g) == SPACE
    requires single ==> mm >= g && el >= g && OneTable(places0, st0, g)
    ensures Inv(a, g, tabs, places, st, Position(i)) && Ready(places, st, k, i, q, z)
    ensures k <= EndOff(st) && r.n == r0.n
    ensures single ==> OneTable(places, st, g)
  {
    hide *;
    tabs, st, q, z, r, places := tabs0, st0, q0, z0, r0, places0;
    InvGivesShape(a, g, tabs, places, st, Position(i));
    while k > EndOff(st)
      invariant Inv(a, g, tabs, places, st, Position(i)) && StackShape(st, places) && Arrays(st)
      invariant Ready(places, st, k, i, q, z) && r.n == r0.n
      invariant single ==> OneTable(places, st, g)
      decreases k - EndOff(st)
    {
      ghost var np;
      tabs, st, q, z, r, np := OpenTable(a, c, g, mm, el, k, rem, i, tabs, st, q, z, r, places, single);
      places := places + [np];
      InvGivesShape(a, g, tabs, places, st, Position(i));
    }
  }

  lemma InvGivesShape(a: Alphabet, g: nat, tabs: Tables, places: seq<Place>, st: Stack, pos: int)
    requires IsAlphabet(a) && Inv(a, g, tabs, places, st, pos)
    ensures StackShape(st, places) && Arrays(st) && |tabs| == |places|
  {
  }

  // ---- Storing a code ----

  /** Entry operation, length and value of the next symbol in `v`, or an invalid entry when the symbols have run out. */
  method NextEntry(a: Alphabet, c: seq<int>, g: nat, v: seq<int>, n: int, k: nat, w: nat, pidx0: int, r0: Node,
      ghost done: int)
      returns (r: Node, pidx: int)
    requires IsAlphabet(a) && Filled(a.lens, c, g) && IsLongest(a.lens, g) && Sorted(a.lens, v, |a.lens|)
    requires n == Offset(a.lens, g) + Count(a.lens, g) && 1 <= k <= g && 0 <= done < c[k]
    requires pidx0 == Offset(a.lens, k) + if done < Count(a.lens, k) then done else Count(a.lens, k)
    requires pidx0 >= n ==> IsStale(a, g, r0.n)
    ensures r.b == k - w
    ensures pidx == Offset(a.lens, k) + if done + 1 < Count(a.lens, k) then done + 1 else Count(a.lens, k)
    ensures done < Count(a.lens, k) ==>
      exists s :: IsNth(a.lens, s, k, done) && r.e == Operation(a, s) && r.n == Value(a, s)
    ensures done >= Count(a.lens, k) ==> k == g && r.e == INVALID && IsStale(a, g, r.n)
    ensures pidx >= n ==> IsStale(a, g, r.n)
  {
    hide Count, Offset, Sorted, NextCode, Pow2, Rank;
    r := r0.(b := k - w);
    pidx := pidx0;
    if k < g {
      OffsetGrowth(a.lens, k, g);
    }
    if done < Count(a.lens, k) {
      SortedAt(a.lens, v, k, done);
    }
    if pidx >= n {
      r := r.(e := 99);
    } else if v[pidx] < a.simple {
      r := r.(e := if v[pidx] < 256 then 16 else 15, n := v[pidx]);
      pidx := pidx + 1;
      SymbolValue(a, g, k, v[pidx - 1], done, r.n);
    } else {
      r := r.(e := a.extra[v[pidx] - a.simple], n := a.base[v[pidx] - a.simple]);
      pidx := pidx + 1;
      SymbolValue(a, g, k, v[pidx - 1], done, r.n);
    }
  }

  lemma SymbolValue(a: Alphabet, g: nat, k: nat, s: int, done: int, n: int)
    requires IsAlphabet(a) && IsNth(a.lens, s, k, done) && n == Value(a, s)
    ensures k == g && done == Count(a.lens, g) - 1 ==> IsStale(a, g, n)
  {
    hide Count, Rank;
  }

  /** The loop `for (j = i >> w; j < z; j += f)`. */
  method FillTable(table0: seq<Node>, start: int, step: int, r: Node) returns (table: seq<Node>)
    requires 0 <= start < step
    ensures |table| == |table0|
    ensures forall j :: 0 <= j < |table| ==> table[j] == if j % step == start then r else table0[j]
  {
    table := table0;
    var j := start;
    Digits.QuotientUnique(start, step, 0, start);
    SmallRemainders(start, step, |table|);
    while j < |table|
      invariant 0 <= j && j % step == start && |table| == |table0|
      invariant forall m :: 0 <= m < j && m < |table| ==> table[m] == if m % step == start then r else table0[m]
      invariant forall m :: j <= m < |table| ==> table[m] == table0[m]
    {
      table := table[j := r];
      NextHit(j, step, start, |table|);
      j := j + step;
    }
  }

  lemma SmallRemainders(start: int, step: int, n: int)
    requires 0 <= start < step
    ensures forall m :: 0 <= m < start && m < n ==> m % step != start
  {
    forall m | 0 <= m < start && m < n
      ensures m % step != start
    {
      Digits.QuotientUnique(m, step, 0, m);
    }
  }

  lemma NextHit(j: int, step: int, start: int, n: int)
    requires 0 < step && j % step == start
    ensures (j + step) % step == start
    ensures forall m :: j < m < j + step && m < n ==> m % step != start
  {
    DivMod(j, step);
    var d := j / step;
    SplitProduct(d, 1, step);
    Digits.QuotientUnique(j + step, step, d + 1, start);
    forall m | j < m < j + step && m < n
      ensures m % step != start
    {
      DivMod(m, step);
      if m % step == start {
        NotBetween(m / step, d, step, m - j);
      }
    }
  }

  lemma NotBetween(a: int, b: int, d: int, gap: int)
    requires 0 < gap < d
    ensures a * d != b * d + gap
  {
    if a <= b {
      NonNegative(b - a, d);
      SplitProduct(b - a, a, d);
    } else {
      ProductGap(b, a, d);
    }
  }

  /** The entries filled are those whose path starts with the code. */
  lemma FilledPaths(p: Place, g: nat, k: nat, i: int, j: int)
    requires IsPlace(p, g) && g <= MAX_BITS && p.off < k <= p.off + p.bits
    requires 0 <= i < Pow2(k) && i % Pow2(p.off) == p.pre && 0 <= j < Pow2(p.bits)
    ensures 0 <= i / Pow2(p.off) < Pow2(k - p.off)
    ensures j % Pow2(k - p.off) == i / Pow2(p.off) <==> Path(p, j) % Pow2(k) == i
  {
    hide Pow2, Path, Rev, Low, High;
    EntryInPlace(p, g, j);
    ModSplit(Path(p, j), p.off, k - p.off);
    DivMod(i, Pow2(p.off));
    Pow2Add(p.off, k - p.off);
    QuotientBelow(i, Pow2(p.off), Pow2(k - p.off));
    OrderScales(j % Pow2(k - p.off), i / Pow2(p.off), Pow2(p.off));
  }

  /** What is stored for a code is a final entry. */
  lemma StoredEntry(a: Alphabet, g: nat, places: seq<Place>, t: int, j: int, k: nat, i: int, done: int, r: Node)
    requires IsAlphabet(a) && 0 <= t < |places| && 1 <= k <= g
    requires places[t].off < k <= places[t].off + places[t].bits && 0 <= i < Pow2(k)
    requires Path(places[t], j) % Pow2(k) == i && Rev(i, k) == NextCode(a.lens, k) + done && r.b == k - places[t].off
    requires done < Count(a.lens, k) ==>
      exists s :: IsNth(a.lens, s, k, done) && r.e == Operation(a, s) && r.n == Value(a, s)
    requires done >= Count(a.lens, k) ==> k == g && r.e == INVALID && IsStale(a, g, r.n)
    ensures EntryOk(a, g, places, t, j, r)
  {
    hide Pow2, Rev, Path, NextCode, Count, Operation, Value, IsStale;
    Digits.QuotientUnique(i, Pow2(k), 0, i);
    RevLow(Path(places[t], j), i, k);
    if done < Count(a.lens, k) {
      var s :| IsNth(a.lens, s, k, done) && r.e == Operation(a, s) && r.n == Value(a, s);
      assert IsLeaf(a, places[t], j, r, s);
    } else {
      assert IsUnused(a, g, places[t], j, r);
    }
  }

  /** Storing the entry `r` of the code `i` in the current table. */
  method StoreCode(a: Alphabet, g: nat, k: nat, i: int, tabs0: Tables, st: Stack, q: int, z: int, r: Node,
                   ghost places: seq<Place>, ghost done: int)
      returns (tabs: Tables)
    requires IsAlphabet(a) && Inv(a, g, tabs0, places, st, Position(i)) && 1 <= k <= g <= MAX_BITS
    requires Ready(places, st, k, i, q, z) && k <= EndOff(st)
    requires Rev(i, k) == NextCode(a.lens, k) + done && r.b == k - st.w
    requires done < Count(a.lens, k) ==>
      exists s :: IsNth(a.lens, s, k, done) && r.e == Operation(a, s) && r.n == Value(a, s)
    requires done >= Count(a.lens, k) ==> k == g && r.e == INVALID && IsStale(a, g, r.n)
    ensures Inv(a, g, tabs, places, st, Position(i) + Pow2(MAX_BITS - k))
  {
    hide Pow2, Rev, Path, Position, NextCode, Count, EntryOk, FinalBelow, Linked, ClosedBelow, Nested, IsPlace, IsNth,
      Operation, Value, IsStale;
    TopFacts(places, st);
    ghost var p := places[q];
    BitsPositive(p, g);
    FilledPaths(p, g, k, i, 0);
    var table := FillTable(tabs0[q], i / Pow2(st.w), Pow2(k - st.w), r);
    tabs := tabs0[q := table];
    forall j | 0 <= j < |tabs0[q]|
      ensures if Path(p, j) % Pow2(k) == i then EntryOk(a, g, places, q, j, tabs[q][j]) else tabs[q][j] == tabs0[q][j]
    {
      FilledPaths(p, g, k, i, j);
      if Path(p, j) % Pow2(k) == i {
        StoredEntry(a, g, places, q, j, k, i, done, r);
      }
    }
    FillKeeps(a, g, tabs0, tabs, places, st, Position(i), i, k);
  }

  // ---- Advancing the code ----

  /** Clearing a one at bit `m`. */
  lemma ClearBit(i: int, m: nat)
    requires Pow2(m) <= i < Pow2(m + 1)
    ensures Rev(i, m + 1) == 2 * Rev(i - Pow2(m), m) + 1
  {
    hide Rev;
    RevSplit(i, m, 1);
    Digits.QuotientUnique(i, Pow2(m), 1, i - Pow2(m));
    Digits.QuotientUnique(i - Pow2(m), Pow2(m), 0, i - Pow2(m));
    RevLow(i, i - Pow2(m), m);
    OneBit(1);
  }

  /** Bit `m` is not set. */
  lemma ClearHigh(i: int, m: nat)
    requires 0 <= i < Pow2(m)
    ensures Rev(i, m + 1) == 2 * Rev(i, m)
  {
    hide Rev;
    RevSplit(i, m, 1);
    Digits.QuotientUnique(i, Pow2(m), 0, i);
    OneBit(0);
  }

  lemma OneBit(b: int)
    requires b == 0 || b == 1
    ensures Rev(b, 1) == b && Pow2(1) == 2
  {
    assert Pow2(0) == 1 && Rev(b / 2, 0) == 0;
  }

  lemma HighZeros(i: int, m: nat, n: nat)
    requires 0 <= i < Pow2(m)
    ensures Rev(i, m + n) == Rev(i, m) * Pow2(n)
  {
    hide Rev, Pow2;
    RevSplit(i, m, n);
    Digits.QuotientUnique(i, Pow2(m), 0, i);
    RevZero(n);
  }

  lemma TestBit(i: int, m: nat)
    requires 0 <= i < Pow2(m + 1)
    ensures (i / Pow2(m)) % 2 == (if i >= Pow2(m) then 1 else 0)
  {
    if i >= Pow2(m) {
      Digits.QuotientUnique(i, Pow2(m), 1, i - Pow2(m));
    } else {
      Digits.QuotientUnique(i, Pow2(m), 0, i);
    }
  }

  /** The ones above bit `m` have been cleared: adding one to the code is adding one to what is left of it. */
  ghost predicate Carrying(i0: int, i: int, m: int, k: nat) {
    && -1 <= m < k && 0 <= i < Pow2(m + 1)
    && Rev(i0, k) + 1 == (Rev(i, m + 1) + 1) * Pow2(k - (m + 1))
  }

  lemma CarryStart(i: int, k: nat)
    requires k >= 1 && 0 <= i < Pow2(k)
    ensures Carrying(i, i, k - 1, k)
  {
    hide Rev;
    assert Pow2(0) == 1;
  }

  lemma CarryKeeps(i0: int, i: int, m: int, k: nat)
    requires Carrying(i0, i, m, k) && m >= 0 && (i / Pow2(m)) % 2 == 1
    ensures Carrying(i0, i - Pow2(m), m - 1, k)
    ensures Pow2(m) / 2 == if m >= 1 then Pow2(m - 1) else 0
  {
    hide Rev, Pow2;
    TestBit(i, m);
    ClearBit(i, m);
    Half(m);
    TwicePow2(m + 1);
    TwicePow2(k - m);
    Reassociate(Rev(i - Pow2(m), m) + 1, Pow2(k - m - 1));
  }

  lemma Reassociate(a: int, p: int)
    ensures (2 * a) * p == a * (2 * p)
  {
  }

  lemma Half(m: nat)
    ensures Pow2(m) / 2 == if m >= 1 then Pow2(m - 1) else 0
  {
  }

  /** Setting the first bit that was not set is the increment. */
  lemma CarryEnds(i0: int, i: int, m: int, k: nat)
    requires Carrying(i0, i, m, k) && m >= 0 && (i / Pow2(m)) % 2 != 1
    ensures 0 <= i + Pow2(m) < Pow2(k) && Rev(i + Pow2(m), k) == Rev(i0, k) + 1 < Pow2(k)
  {
    hide Rev, Pow2;
    TestBit(i, m);
    TwicePow2(m + 1);
    Pow2Monotone(m + 1, k);
    NonNegativePow(m);
    ClearBit(i + Pow2(m), m);
    ClearHigh(i, m);
    HighZeros(i + Pow2(m), m + 1, k - (m + 1));
    RevBound(i + Pow2(m), k);
  }

  lemma NonNegativePow(m: nat)
    ensures 0 < Pow2(m)
  {
  }

  /** Every bit was set: the code wraps around. */
  lemma CarryWraps(i0: int, i: int, k: nat)
    requires Carrying(i0, i, -1, k)
    ensures i == 0 && Rev(i0, k) + 1 == Pow2(k)
  {
    assert Pow2(0) == 1 && Rev(i, 0) == 0;
  }

  /** Counting up from the most significant code bit, which is stored last. */
  method NextBackward(i0: int, k: nat) returns (i: int)
    requires k >= 1 && 0 <= i0 < Pow2(k)
    ensures 0 <= i < Pow2(k)
    ensures Rev(i0, k) + 1 < Pow2(k) ==> Rev(i, k) == Rev(i0, k) + 1
    ensures Rev(i0, k) + 1 == Pow2(k) ==> i == 0
    ensures Rev(i0, k) + 1 <= Pow2(k)
  {
    hide Rev, Pow2, Carrying;
    i := i0;
    var j := Pow2(k - 1);
    ghost var m: int := k - 1;
    CarryStart(i0, k);
    while j != 0 && (i / j) % 2 == 1
      invariant -1 <= m && Carrying(i0, i, m, k)
      invariant j == if m >= 0 then Pow2(m) else 0
      decreases m
    {
      CarryKeeps(i0, i, m, k);
      i := i - j;
      j := j / 2;
      m := m - 1;
    }
    if m >= 0 {
      CarryEnds(i0, i, m, k);
    } else {
      CarryWraps(i0, i, k);
    }
    i := i + j;
  }

  lemma One()
    ensures Pow2(0) == 1
  {
  }

  // ---- Backing up ----

  /** The loop that leaves tables the next code does not lie in. */
  method BackUp(a: Alphabet, g: nat, k: nat, i: int, tabs: Tables, st0: Stack, q: int, z: int,
                ghost places: seq<Place>, ghost pos: int, ghost single: bool)
      returns (st: Stack)
    requires IsAlphabet(a) && Inv(a, g, tabs, places, st0, pos) && 1 <= k <= MAX_BITS && st0.h >= 0
    requires 0 <= i < Pow2(k) && (pos < SPACE ==> Position(i) == pos)
    requires st0.w < k <= EndOff(st0) && q == st0.u[st0.h] && 0 <= q < |places| && z == Pow2(places[q].bits)
    requires single ==> OneTable(places, st0, g)
    ensures Inv(a, g, tabs, places, st, pos)
    ensures pos < SPACE ==> Ready(places, st, k, i, q, z)
    ensures single ==> OneTable(places, st, g)
  {
    hide Pow2, Rev, Position, FinalBelow, Linked, ClosedBelow, Nested, IsPlace, Low, High;
    st := st0;
    TopFacts(places, st);
    Pow2Monotone(k, EndOff(st));
    while i % Pow2(st.w) != st.x[st.h]
      invariant Inv(a, g, tabs, places, st, pos) && st.h >= 0 && 0 <= st.w < k
      invariant single ==> OneTable(places, st, g)
      invariant 0 < EndOff(st) && (pos < SPACE ==> i < Pow2(EndOff(st)))
      invariant k <= EndOff(st) ==> q == st.u[st.h]
      decreases st.h
    {
      TopFacts(places, st);
      MustPop(a, g, k, i, tabs, places, st, pos);
      PopKeeps(a, g, tabs, places, st, pos);
      TopFacts(places, Popped(st));
      st := Popped(st);
    }
  }

  /** A table the next code does not lie in is full, and is not the first one. */
  lemma MustPop(a: Alphabet, g: nat, k: nat, i: int, tabs: Tables, places: seq<Place>, st: Stack, pos: int)
    requires IsAlphabet(a) && Inv(a, g, tabs, places, st, pos) && st.h >= 0 && k <= MAX_BITS
    requires 0 <= i < Pow2(k) && (pos < SPACE ==> Position(i) == pos)
    requires i % Pow2(st.w) != st.x[st.h]
    ensures st.h >= 1 && pos == High(places[st.u[st.h]])
    ensures EndOff(Popped(st)) == st.w > 0
    ensures 0 <= Popped(st).w < st.w
    ensures pos < SPACE ==> i < Pow2(st.w)
  {
    hide Pow2, Rev, FinalBelow, Linked, ClosedBelow, Nested;
    TopFacts(places, st);
    var p := places[st.u[st.h]];
    PositionShort(p.pre, p.off);
    One();
    if st.h == 0 {
      ModOne(i);
    }
    StackAfterPop(places, st);
    TopFacts(places, Popped(st));
    assert StepOk(st, places, st.h - 1) by {
      assert LevelOk(st, places, st.h - 1) && LevelOk(st, places, st.h);
    }
    assert LevelOk(st, places, st.h - 1);
    if pos < SPACE {
      InInterval(i, p.pre, p.off);
      Pow2Monotone(k, MAX_BITS);
      Sixteen();
      SplitProduct(Rev(p.pre, p.off), 1, Pow2(MAX_BITS - p.off));
      AlignedIsShort(i, p.off, Rev(p.pre, p.off) + 1);
    }
  }

  lemma ModOne(i: int)
    ensures i % 1 == 0
  {
  }
}
