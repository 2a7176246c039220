/** `zip_HuftBuild` as a whole: its status says what the lengths are, and its tables mean their canonical code. */
module HuftBuild {
  import opened Bits
  import opened CanonicalCode
  import opened HuffmanTables
  import opened HuftInvariant
  import opened HuftSpace
  import opened HuftCounting
  import opened HuftSteps

  /** The fields of the object built: `root == []` is the null list. */
  datatype Huft = Huft(status: int, root: Tables, m: int)

  /**
    What the counting half hands to the filling half: counts, longest length, sorted symbols, their number, table size
    limits.
   */
  datatype Plan = Plan(a: Alphabet, c: seq<int>, g: nat, v: seq<int>, n: int, mm: int, el: int)

  /** The variables of the filling loops. */
  datatype Work = Work(tabs: Tables, st: Stack, q: int, z: int, i: int, pidx: int, r: Node)

  ghost predicate PlanOk(p: Plan) {
    && IsAlphabet(p.a) && Filled(p.a.lens, p.c, p.g) && IsLongest(p.a.lens, p.g) && Sorted(p.a.lens, p.v, |p.a.lens|)
    && p.n == Offset(p.a.lens, p.g) + Count(p.a.lens, p.g)
  }

  /** The position of the code of `k` bits number `done`. */
  ghost function CodePosition(lens: seq<int>, k: nat, done: int): int
    requires k <= MAX_BITS
  {
    (NextCode(lens, k) + done) * Pow2(MAX_BITS - k)
  }

  ghost predicate AtCode(p: Plan, wk: Work, places: seq<Place>, k: nat, done: int, single: bool)
    requires PlanOk(p)
  {
    && 1 <= k <= p.g && 0 <= done <= p.c[k]
    && Inv(p.a, p.g, wk.tabs, places, wk.st, CodePosition(p.a.lens, k, done))
    && (CodePosition(p.a.lens, k, done) < SPACE ==>
          Position(wk.i) == CodePosition(p.a.lens, k, done) && Ready(places, wk.st, k, wk.i, wk.q, wk.z))
    && wk.pidx == Offset(p.a.lens, k) + (if done < Count(p.a.lens, k) then done else Count(p.a.lens, k))
    && (wk.pidx >= p.n ==> IsStale(p.a, p.g, wk.r.n))
    && (single ==> p.mm >= p.g && p.el >= p.g && OneTable(places, wk.st, p.g))
  }

  /** The remaining codes of this length and all longer ones take the rest of the space. */
  lemma CodeSpace(p: Plan, k: nat, done: int)
    requires PlanOk(p) && 1 <= k <= p.g && 0 <= done < p.c[k]
    ensures CodePosition(p.a.lens, k, done) + (p.c[k] - done) * Pow2(MAX_BITS - k) + Rest(p.c, k, p.g) == SPACE
    ensures CodePosition(p.a.lens, k, done) < SPACE
    ensures CodePosition(p.a.lens, k, done + 1) == CodePosition(p.a.lens, k, done) + Pow2(MAX_BITS - k)
  {
    hide Rest, Pow2, NextCode, Count;
    SpaceAfter(p.a.lens, p.c, k, p.g, p.c[k] - done);
    RestPositive(p.c, k, p.g);
    AtLeastFactor(p.c[k] - done, Pow2(MAX_BITS - k));
    SplitProduct(NextCode(p.a.lens, k) + done, 1, Pow2(MAX_BITS - k));
  }

  /** The bits of a code, from its position, and whether there is a next one of the same length. */
  lemma CodeBits(lens: seq<int>, k: nat, done: int, i: int)
    requires 1 <= k <= MAX_BITS && 0 <= i < Pow2(k) && Position(i) == CodePosition(lens, k, done)
    ensures Rev(i, k) == NextCode(lens, k) + done
    ensures CodePosition(lens, k, done + 1) < SPACE <==> Rev(i, k) + 1 < Pow2(k)
    ensures CodePosition(lens, k, done + 1) == SPACE <==> Rev(i, k) + 1 == Pow2(k)
  {
    hide Rev, Pow2, NextCode;
    PositionShort(i, k);
    OrderScales(Rev(i, k), NextCode(lens, k) + done, Pow2(MAX_BITS - k));
    Pow2Add(k, MAX_BITS - k);
    Sixteen();
    OrderScales(Rev(i, k) + 1, Pow2(k), Pow2(MAX_BITS - k));
  }

  lemma NextPosition(lens: seq<int>, k: nat, done: int, i: int, i': int)
    requires 1 <= k <= MAX_BITS && 0 <= i < Pow2(k) && 0 <= i' < Pow2(k)
    requires Position(i) == CodePosition(lens, k, done)
    requires Rev(i, k) + 1 < Pow2(k) ==> Rev(i', k) == Rev(i, k) + 1
    ensures CodePosition(lens, k, done + 1) < SPACE ==> Position(i') == CodePosition(lens, k, done + 1)
  {
    hide Rev, Pow2, NextCode;
    CodeBits(lens, k, done, i);
    PositionShort(i', k);
  }

  /** The body of the loop over the codes. */
  method OneCode(p: Plan, wk0: Work, k: nat, rem: nat, ghost places0: seq<Place>, ghost done: int, ghost single: bool)
      returns (wk: Work, ghost places: seq<Place>)
    requires PlanOk(p) && AtCode(p, wk0, places0, k, done, single) && done < p.c[k] && rem == p.c[k] - done - 1
    ensures AtCode(p, wk, places, k, done + 1, single)
  {
    hide Rev, Pow2, Position, NextCode, Count, Offset, Rest, Ready, Inv, Sorted, IsStale, IsAlphabet, IsLengths,
      OneTable, Operation, Value, IsNth, CodePosition, StackShape;
    CodeSpace(p, k, done);
    FilledNonNegative(p.a.lens, p.c, p.g);
    ghost var pos := CodePosition(p.a.lens, k, done);
    var tabs, st, q, z, r;
    tabs, st, q, z, r, places :=
      OpenTables(p.a, p.c, p.g, p.mm, p.el, k, rem, wk0.i, wk0.tabs, wk0.st, wk0.q, wk0.z, wk0.r, places0, single);
    ReadyFacts(p.a, p.g, tabs, places, st, pos, k, wk0.i, q, z);
    var pidx;
    r, pidx := NextEntry(p.a, p.c, p.g, p.v, p.n, k, st.w, wk0.pidx, r, done);
    CodeBits(p.a.lens, k, done, wk0.i);
    tabs := StoreCode(p.a, p.g, k, wk0.i, tabs, st, q, z, r, places, done);
    var i := NextBackward(wk0.i, k);
    NextPosition(p.a.lens, k, done, wk0.i, i);
    st := BackUp(p.a, p.g, k, i, tabs, st, q, z, places, pos + Pow2(MAX_BITS - k), single);
    wk := Work(tabs, st, q, z, i, pidx, r);
  }

  lemma ReadyFacts(a: Alphabet, g: nat, tabs: Tables, places: seq<Place>, st: Stack, pos: int, k: nat, i: int, q: int,
      z: int)
    requires IsAlphabet(a) && Inv(a, g, tabs, places, st, pos)
    requires Ready(places, st, k, i, q, z) && k <= EndOff(st)
    ensures Arrays(st) && StackShape(st, places)
    ensures st.h >= 0 && q == st.u[st.h] && 0 <= q < |places| && z == Pow2(places[q].bits)
    ensures 0 <= st.w < k && 0 <= i < Pow2(k)
  {
    hide Pow2;
    TopFacts(places, st);
  }

  /** All codes of one length. */
  method OneLength(p: Plan, wk0: Work, k: nat, ghost places0: seq<Place>, ghost single: bool)
      returns (wk: Work, ghost places: seq<Place>)
    requires PlanOk(p) && AtCode(p, wk0, places0, k, 0, single)
    ensures AtCode(p, wk, places, k, p.c[k], single)
  {
    hide AtCode;
    KnownLength(p, wk0, places0, k, single);
    wk, places := wk0, places0;
    var a := p.c[k];
    while a > 0
      invariant 0 <= a <= p.c[k] && AtCode(p, wk, places, k, p.c[k] - a, single)
    {
      a := a - 1;
      wk, places := OneCode(p, wk, k, a, places, p.c[k] - a - 1, single);
    }
  }

  lemma KnownLength(p: Plan, wk: Work, places: seq<Place>, k: nat, single: bool)
    requires PlanOk(p) && AtCode(p, wk, places, k, 0, single)
    ensures 1 <= k <= p.g && 0 <= p.c[k]
  {
  }

  /** After the codes of one length come those of the next. */
  lemma NextLength(p: Plan, wk: Work, places: seq<Place>, k: nat, single: bool)
    requires PlanOk(p) && k < p.g && 0 <= p.c[k] && AtCode(p, wk, places, k, p.c[k], single)
    ensures AtCode(p, wk, places, k + 1, 0, single)
  {
    hide Rev, Position, Inv, Sorted, IsStale, IsAlphabet, IsLengths, OneTable, Count, Pow2, StackShape;
    SamePosition(p.a.lens, k);
    NextLengthSteps(p.a.lens, k);
    assert p.c[k] == Count(p.a.lens, k);
  }

  lemma SamePosition(lens: seq<int>, k: nat)
    requires 1 <= k < MAX_BITS
    ensures CodePosition(lens, k + 1, 0) == CodePosition(lens, k, Count(lens, k))
  {
    hide Count;
    TwicePow2(MAX_BITS - k);
    Reassociate(NextCode(lens, k) + Count(lens, k), Pow2(MAX_BITS - k - 1));
  }

  lemma NextLengthSteps(lens: seq<int>, k: nat)
    requires 1 <= k
    ensures Offset(lens, k + 1) == Offset(lens, k) + Count(lens, k) && Pow2(k) <= Pow2(k + 1)
  {
    hide Count;
  }

  /** The whole filling half. */
  method FillTables(p: Plan, k0: nat, ghost single: bool) returns (wk: Work, ghost places: seq<Place>)
    requires PlanOk(p) && Span(p.a.lens, k0, p.g) && (single ==> p.mm >= p.g && p.el >= p.g)
    ensures AtCode(p, wk, places, p.g, p.c[p.g], single)
  {
    hide AtCode;
    FilledNonNegative(p.a.lens, p.c, p.g);
    wk := Work([], Stack(-1, 0, seq(MAX_BITS + 1, _ => 0), seq(MAX_BITS + 1, _ => 0), seq(MAX_BITS, _ => -1)),
               -1, 0, 0, 0, Node(0, 0, 0, -1));
    places := [];
    AtStart(p, wk, k0, single);
    var k := k0;
    while k < p.g
      invariant k0 <= k <= p.g && AtCode(p, wk, places, k, 0, single)
    {
      wk, places := OneLength(p, wk, k, places, single);
      NextLength(p, wk, places, k, single);
      k := k + 1;
    }
    wk, places := OneLength(p, wk, k, places, single);
  }

  lemma AtStart(p: Plan, wk: Work, k0: nat, single: bool)
    requires PlanOk(p) && Span(p.a.lens, k0, p.g) && (single ==> p.mm >= p.g && p.el >= p.g) && 0 <= p.c[k0]
    requires wk.tabs == [] && wk.i == 0 && wk.pidx == 0 && wk.st.h == -1 && wk.st.w == 0
    requires Arrays(wk.st) && wk.st.lx[0] == 0 && wk.st.x[0] == 0
    ensures AtCode(p, wk, [], k0, 0, single)
  {
    NoShorter(p.a.lens, k0);
    NoOffset(p.a.lens, k0);
    FirstPosition(0);
    OffsetGrowthTo(p.a.lens, k0, p.g);
    EmptyInv(p.a, p.g, wk.st);
  }

  lemma {:induction false} NoOffset(lens: seq<int>, k: nat)
    requires forall l :: 1 <= l < k ==> Count(lens, l) == 0
    ensures Offset(lens, k) == 0
  {
    if k > 1 {
      NoOffset(lens, k - 1);
    }
  }

  lemma OffsetGrowthTo(lens: seq<int>, k: nat, g: nat)
    requires IsLongest(lens, g) && 1 <= k <= g
    ensures Offset(lens, g) + Count(lens, g) > 0
  {
  }

  lemma EmptyInv(a: Alphabet, g: nat, st: Stack)
    requires IsAlphabet(a) && g <= MAX_BITS && Arrays(st) && st.h == -1 && st.w == 0 && st.lx[0] == 0 && st.x[0] == 0
    ensures Inv(a, g, [], [], st, 0)
  {
  }

  // ---- The result ----

  /** Complete tables for the longest length, entered with `m` bits. */
  ghost predicate Built(a: Alphabet, tabs: Tables, m: int)
    requires IsAlphabet(a)
  {
    exists g: nat, places :: IsLongest(a.lens, g) && Complete(a, g, tabs, places) && FirstPlace(places, m)
  }

  ghost predicate FirstPlace(places: seq<Place>, m: int) {
    places != [] && places[0].off == 0 && places[0].bits == m
  }

  lemma BuiltMeans(a: Alphabet, tabs: Tables, m: int)
    requires IsAlphabet(a) && Built(a, tabs, m)
    ensures m >= 1 && Means(a, tabs, m)
  {
    hide Means, EntryOk;
    var g: nat, places :| IsLongest(a.lens, g) && Complete(a, g, tabs, places) && FirstPlace(places, m);
    CompleteMeans(a, g, tabs, places);
  }

  /** When the whole code space is covered, every entry is final. */
  lemma AllFinal(p: Plan, wk: Work, places: seq<Place>, single: bool)
    requires PlanOk(p) && AtCode(p, wk, places, p.g, p.c[p.g], single)
    ensures Complete(p.a, p.g, wk.tabs, places) && Arrays(wk.st) && FirstPlace(places, wk.st.lx[1])
    ensures single ==> |wk.tabs| == 1
  {
    hide Rev, Pow2, Path, EntryOk, NextCode, Count, Offset;
    Pow2Add(p.g, MAX_BITS - p.g);
    Sixteen();
    assert LevelOk(wk.st, places, 0);
    forall t, k | 0 <= t < |wk.tabs| && 0 <= k < |wk.tabs[t]|
      ensures EntryOk(p.a, p.g, places, t, k, wk.tabs[t][k])
    {
      EntryInPlace(places[t], p.g, k);
      WholeSpace(places[t], p.g);
    }
  }

  lemma WholeSpace(p: Place, g: nat)
    requires IsPlace(p, g)
    ensures High(p) <= SPACE
  {
    PositionShort(p.pre, p.off);
  }

  /**
    The constructor. Status 2 means more codes than the space holds, status 1 a code that leaves space over and has a
    code of more than one bit; otherwise the status is 0. Without any code the tables are null; otherwise, unless the
    status is 2, the tables decode exactly the canonical code.
   */
  method Build(a: Alphabet, mm0: int) returns (r: Huft)
    requires IsAlphabet(a) && 1 <= |a.lens| <= MAX_CODES
    ensures r.status == 2 <==> KraftSum(a.lens) > SPACE
    ensures r.status == 1 <==> !AllZero(a.lens) && KraftSum(a.lens) < SPACE && !IsLongest(a.lens, 1)
    ensures 0 <= r.status <= 2
    ensures AllZero(a.lens) ==> r == Huft(0, [], 0)
    ensures r.status == 2 ==> r.root == []
    ensures r.status != 2 && !AllZero(a.lens) ==> Built(a, r.root, r.m)
    ensures r.status != 2 && !AllZero(a.lens) && |a.lens| <= 256 && (forall i :: 0 <= i < |a.lens| ==> a.lens[i] <= mm0)
      ==> |r.root| == 1
  {
    hide KraftSum, AtCode, Complete, Count, NextCode, Offset, Sorted, Pow2;
    var lens := a.lens;
    var n := |lens|;
    var el := if n > 256 then lens[256] else MAX_BITS;
    var c := CountLengths(lens);
    if c[0] == n {
      EmptyCode(lens);
      return Huft(0, [], 0);
    }
    var k, g := ShortestLongest(lens, c);
    var mm := if mm0 < k then k else mm0;
    if mm > g {
      mm := g;
    }
    OnlyLongest(lens, g);
    var y := SpaceLeftOver(lens, c, k, g);
    if y < 0 {
      TooManyCodes(lens);
      return Huft(2, [], mm);
    }
    c := c[g := c[g] + y];
    var x := StartingOffsets(lens, c, g);
    var v;
    v, x := SortByLength(lens, x, g);
    var p := Plan(a, c, g, v, x[g], mm, el);
    ghost var single := n <= 256 && forall i :: 0 <= i < n ==> lens[i] <= mm0;
    if single {
      LongestUsed(lens, g);
    }
    ghost var places;
    var wk;
    wk, places := FillTables(p, k, single);
    AllFinal(p, wk, places, single);
    r := Huft(if y != 0 && g != 1 then 1 else 0, wk.tabs, wk.st.lx[1]);
  }

  lemma {:induction false} EmptyCode(lens: seq<int>)
    requires IsLengths(lens) && AllZero(lens)
    ensures KraftSum(lens) == 0
  {
    if lens != [] {
      EmptyCode(lens[..|lens| - 1]);
    }
  }

  lemma OnlyLongest(lens: seq<int>, g: nat)
    requires IsLongest(lens, g)
    ensures IsLongest(lens, 1) <==> g == 1
  {
    hide Count;
  }

  lemma TooManyCodes(lens: seq<int>)
    requires IsLengths(lens) && KraftSum(lens) > SPACE
    ensures !AllZero(lens)
  {
    if AllZero(lens) {
      EmptyCode(lens);
    }
  }

  lemma LongestUsed(lens: seq<int>, g: nat)
    requires IsLongest(lens, g)
    ensures exists i :: 0 <= i < |lens| && lens[i] == g
  {
    CountZero(lens, g);
  }
}
