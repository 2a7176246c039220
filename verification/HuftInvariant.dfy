/**
  What holds while `zip_HuftBuild` fills its tables. Codes are handed out in the order of
  their position in the code space [0, 65536): the position of a code is its bits, reversed
  and left-justified to sixteen. Every entry whose position is below the position reached
  so far is final; the tables on the stack are those the next code still lies in.
 */
module HuftInvariant {
  import Digits
  import opened Bits
  import opened CanonicalCode
  import opened HuffmanTables

  const SPACE := 65536

  /** The level stack: `h` is the current level, `w` the bits decoded before it. */
  datatype Stack = Stack(h: int, w: int, lx: seq<int>, x: seq<int>, u: seq<int>)

  function Position(bits: int): int {
    Rev(bits, MAX_BITS)
  }

  ghost function Low(p: Place): int {
    Position(p.pre)
  }

  ghost function High(p: Place): int {
    Position(p.pre) + Pow2(MAX_BITS - p.off)
  }

  ghost predicate OnStack(st: Stack, t: int) {
    exists l :: 0 <= l <= st.h && l < |st.u| && st.u[l] == t
  }

  predicate Arrays(st: Stack) {
    |st.lx| == MAX_BITS + 1 && |st.x| == MAX_BITS + 1 && |st.u| == MAX_BITS && -1 <= st.h < MAX_BITS
  }

  ghost predicate LevelOk(st: Stack, places: seq<Place>, l: int)
    requires Arrays(st) && 0 <= l < MAX_BITS
  {
    0 <= st.u[l] < |places| && places[st.u[l]].pre == st.x[l] && places[st.u[l]].bits == st.lx[l + 1]
  }

  ghost predicate StepOk(st: Stack, places: seq<Place>, l: int)
    requires Arrays(st) && 0 <= l < st.h && LevelOk(st, places, l) && LevelOk(st, places, l + 1)
  {
    places[st.u[l + 1]].off == places[st.u[l]].off + places[st.u[l]].bits
  }

  ghost predicate StackShape(st: Stack, places: seq<Place>) {
    && Arrays(st)
    && (forall l :: 0 <= l <= st.h ==> LevelOk(st, places, l))
    && (forall l :: 0 <= l < st.h ==> StepOk(st, places, l))
    && (forall l, m :: 0 <= l < m <= st.h ==> st.u[l] < st.u[m])
    && (st.h >= 0 ==> LevelOk(st, places, 0) && st.u[0] == 0 && places[0].off == 0)
    && (st.h >= 0 ==> LevelOk(st, places, st.h) && st.w == places[st.u[st.h]].off)
    && (st.h == -1 ==> st.w == 0 && st.lx[0] == 0 && places == [])
    && st.x[0] == 0
  }

  /** Entry `k` of the table of level `l` links to the table of the next level. */
  ghost predicate LinksUp(tabs: Tables, places: seq<Place>, st: Stack, l: int)
    requires |tabs| == |places| && 0 <= l && l + 1 < |st.u| && 0 <= st.u[l] < |tabs|
  {
    exists k :: 0 <= k < |tabs[st.u[l]]| && IsLink(places, st.u[l], k, tabs[st.u[l]][k])
             && tabs[st.u[l]][k].t == st.u[l + 1]
  }

  ghost predicate Linked(tabs: Tables, places: seq<Place>, st: Stack)
    requires |tabs| == |places| && StackShape(st, places)
  {
    forall l :: 0 <= l < st.h ==> LinksUp(tabs, places, st, l)
  }

  ghost predicate FinalBelow(a: Alphabet, g: nat, tabs: Tables, places: seq<Place>, pos: int)
    requires IsAlphabet(a) && |tabs| == |places|
  {
    forall t, k :: 0 <= t < |tabs| && 0 <= k < |tabs[t]| && Position(Path(places[t], k)) < pos
      ==> EntryOk(a, g, places, t, k, tabs[t][k])
  }

  ghost predicate ClosedBelow(tabs: Tables, places: seq<Place>, st: Stack, pos: int)
    requires |tabs| == |places|
  {
    forall t :: 0 <= t < |places| ==> OnStack(st, t) || High(places[t]) <= pos
  }

  ghost predicate Nested(places: seq<Place>, st: Stack)
    requires StackShape(st, places)
  {
    forall l, m :: 0 <= l <= m <= st.h ==>
      Low(places[st.u[l]]) <= Low(places[st.u[m]]) && High(places[st.u[m]]) <= High(places[st.u[l]])
  }

  ghost predicate Inv(a: Alphabet, g: nat, tabs: Tables, places: seq<Place>, st: Stack, pos: int)
    requires IsAlphabet(a)
  {
    && Shaped(tabs, places, g) && StackShape(st, places)
    && FinalBelow(a, g, tabs, places, pos)
    && Linked(tabs, places, st)
    && ClosedBelow(tabs, places, st, pos)
    && Nested(places, st)
    && (st.h >= 0 ==> Low(places[st.u[st.h]]) <= pos <= High(places[st.u[st.h]]))
    && (st.h == -1 ==> pos == 0)
    && 0 <= pos <= SPACE
  }

  // ---- Positions ----

  /** The position of a short bit string is a multiple of what the missing bits span. */
  lemma PositionShort(x: int, m: nat)
    requires 0 <= x < Pow2(m) && m <= MAX_BITS
    ensures Position(x) == Rev(x, m) * Pow2(MAX_BITS - m)
    ensures 0 <= Position(x) && Position(x) + Pow2(MAX_BITS - m) <= SPACE
  {
    hide Pow2, Rev;
    RevSplit(x, m, MAX_BITS - m);
    Digits.QuotientUnique(x, Pow2(m), 0, x);
    RevZero(MAX_BITS - m);
    RevBound(x, m);
    Pow2Add(m, MAX_BITS - m);
    Sixteen();
    ProductGap(Rev(x, m), Pow2(m), Pow2(MAX_BITS - m));
    NonNegative(Rev(x, m), Pow2(MAX_BITS - m));
  }

  lemma NonNegative(a: int, b: int)
    requires 0 <= a && 0 <= b
    ensures 0 <= a * b
  {
  }

  lemma Sixteen()
    ensures Pow2(MAX_BITS) == SPACE
  {
    assert Pow2(4) == 16;
    Pow2Add(4, 4);
    Pow2Add(8, 8);
  }

  lemma {:induction false} RevZero(n: nat)
    ensures Rev(0, n) == 0
  {
    if n > 0 {
      RevZero(n - 1);
    }
  }

  /** A string lies in the interval of a prefix exactly when it starts with it. */
  lemma InInterval(x: int, prefix: int, m: nat)
    requires 0 <= prefix < Pow2(m) && m <= MAX_BITS
    ensures x % Pow2(m) == prefix
       <==> Position(prefix) <= Position(x) < Position(prefix) + Pow2(MAX_BITS - m)
  {
    hide Pow2, Rev;
    PositionShort(prefix, m);
    RevSplit(x, m, MAX_BITS - m);
    RevBound(x / Pow2(m), MAX_BITS - m);
    SameQuotient(Rev(x, m), Rev(prefix, m), Rev(x / Pow2(m), MAX_BITS - m), Pow2(MAX_BITS - m));
    Digits.QuotientUnique(prefix, Pow2(m), 0, prefix);
    if Rev(x, m) == Rev(prefix, m) {
      RevInjective(x, prefix, m);
    }
    if x % Pow2(m) == prefix {
      RevLow(x, prefix, m);
    }
  }

  lemma SameQuotient(a: int, b: int, r: int, d: int)
    requires 0 <= r < d
    ensures b * d <= a * d + r < b * d + d <==> a == b
  {
    if a < b {
      ProductGap(a, b, d);
    }
    if b < a {
      ProductGap(b, a, d);
    }
  }

  /** A string of at most sixteen bits whose position is a multiple for `m` bits has no bits above them. */
  lemma AlignedIsShort(x: int, m: nat, c: int)
    requires 0 <= x < SPACE && m <= MAX_BITS && Position(x) == c * Pow2(MAX_BITS - m)
    ensures x < Pow2(m)
  {
    hide Pow2, Rev;
    var rest := x / Pow2(m);
    RevSplit(x, m, MAX_BITS - m);
    RevBound(rest, MAX_BITS - m);
    RestOfMultiple(Rev(x, m), c, Rev(rest, MAX_BITS - m), Pow2(MAX_BITS - m));
    RevZero(MAX_BITS - m);
    RevInjective(rest, 0, MAX_BITS - m);
    ModSplit(x, m, MAX_BITS - m);
    Sixteen();
    Digits.QuotientUnique(x, SPACE, 0, x);
    Digits.QuotientUnique(0, Pow2(MAX_BITS - m), 0, 0);
    ModRange(x, Pow2(m));
  }

  lemma RestOfMultiple(a: int, c: int, r: int, d: int)
    requires 0 <= r < d && a * d + r == c * d
    ensures r == 0 && a == c
  {
    if a < c {
      ProductGap(a, c, d);
    }
    if c < a {
      ProductGap(c, a, d);
    }
  }

  /** The path of an entry has as many bits as the table decodes by then, and lies in the table's interval. */
  lemma EntryInPlace(p: Place, g: nat, k: int)
    requires IsPlace(p, g) && g <= MAX_BITS && 0 <= k < Pow2(p.bits)
    ensures 0 <= Path(p, k) < Pow2(p.off + p.bits) && Path(p, k) % Pow2(p.off) == p.pre && Path(p, k) / Pow2(p.off) == k
    ensures Low(p) <= Position(Path(p, k)) < High(p)
  {
    hide Pow2, Rev;
    MidBound(p.pre, k, Pow2(p.off), Pow2(p.bits));
    Pow2Add(p.off, p.bits);
    Digits.QuotientUnique(Path(p, k), Pow2(p.off), k, p.pre);
    InInterval(Path(p, k), p.pre, p.off);
  }

  // ---- Filling in one code ----

  /** Adding a whole multiple of the unit below a multiple does not pass it. */
  lemma NextMultiple(a: int, b: int, d: int)
    requires 0 < d && a * d < b * d
    ensures a * d + d <= b * d
  {
    if a < b {
      ProductGap(a, b, d);
    } else if b < a {
      ProductGap(b, a, d);
    }
  }

  /** A code of `k` bits that lies in a place entered after fewer bits lies in it as a whole. */
  lemma CodeFits(p: Place, i: int, k: nat)
    requires p.off < k <= MAX_BITS && 0 <= p.pre < Pow2(p.off) && 0 <= i < Pow2(k) && i % Pow2(p.off) == p.pre
    ensures Low(p) <= Position(i) && Position(i) + Pow2(MAX_BITS - k) <= High(p)
  {
    hide Pow2, Rev;
    InInterval(i, p.pre, p.off);
    PositionShort(i, k);
    PositionShort(p.pre, p.off);
    Pow2Add(MAX_BITS - k, k - p.off);
    var u := Pow2(MAX_BITS - k);
    var c := (Rev(p.pre, p.off) + 1) * Pow2(k - p.off);
    MultipleOfUnit(Rev(p.pre, p.off), Pow2(k - p.off), u);
    NextMultiple(Rev(i, k), c, u);
  }

  lemma MultipleOfUnit(r: int, q: int, u: int)
    ensures r * (u * q) + u * q == ((r + 1) * q) * u
  {
  }

  /** On the stack below the top, the only entry not yet passed but about to be is the link upwards. */
  lemma StackEntry(g: nat, tabs: Tables, places: seq<Place>, st: Stack, pos: int, next: int, l: nat, k: int)
    requires Shaped(tabs, places, g) && StackShape(st, places) && Linked(tabs, places, st) && Nested(places, st)
    requires l < st.h && 0 <= k < |tabs[st.u[l]]| && Low(places[st.u[st.h]]) <= pos && next <= High(places[st.u[st.h]])
    requires pos <= Position(Path(places[st.u[l]], k)) < next
    ensures IsLink(places, st.u[l], k, tabs[st.u[l]][k])
  {
    hide Pow2, Rev, Path, Position, OnStack;
    var t := st.u[l];
    assert LinksUp(tabs, places, st, l);
    var j :| 0 <= j < |tabs[t]| && IsLink(places, t, j, tabs[t][j]) && tabs[t][j].t == st.u[l + 1];
    var p, q := places[t], places[st.u[l + 1]];
    assert Low(q) <= Low(places[st.u[st.h]]) && High(places[st.u[st.h]]) <= High(q);
    EntryInPlace(p, g, j);
    EntryInPlace(p, g, k);
    InInterval(Path(p, k), Path(p, j), p.off + p.bits);
    Digits.QuotientUnique(Path(p, k), Pow2(p.off + p.bits), 0, Path(p, k));
  }

  lemma FinalAfterFill(a: Alphabet, g: nat, tabs: Tables, tabs': Tables, places: seq<Place>, st: Stack, pos: int,
                       i: int, k: nat)
    requires IsAlphabet(a) && Inv(a, g, tabs, places, st, pos) && st.h >= 0 && pos == Position(i)
    requires var p := places[st.u[st.h]];
      p.off < k <= p.off + p.bits && 0 <= i < Pow2(k) && i % Pow2(p.off) == p.pre
    requires |tabs'| == |tabs| && forall t :: 0 <= t < |tabs| && t != st.u[st.h] ==> tabs'[t] == tabs[t]
    requires var top := st.u[st.h];
      |tabs'[top]| == |tabs[top]| && forall j :: 0 <= j < |tabs[top]| ==>
        (if Path(places[top], j) % Pow2(k) == i then EntryOk(a, g, places, top, j, tabs'[top][j])
         else tabs'[top][j] == tabs[top][j])
    ensures FinalBelow(a, g, tabs', places, pos + Pow2(MAX_BITS - k))
  {
    hide Pow2, Rev, Path, Position, EntryOk, Linked, Nested;
    var next := pos + Pow2(MAX_BITS - k);
    forall t, j | 0 <= t < |tabs'| && 0 <= j < |tabs'[t]| && Position(Path(places[t], j)) < next
      ensures EntryOk(a, g, places, t, j, tabs'[t][j])
    {
      FinalEntry(a, g, tabs, tabs', places, st, pos, i, k, t, j);
    }
  }

  lemma FinalEntry(a: Alphabet, g: nat, tabs: Tables, tabs': Tables, places: seq<Place>, st: Stack, pos: int,
                   i: int, k: nat, t: int, j: int)
    requires IsAlphabet(a) && Inv(a, g, tabs, places, st, pos) && st.h >= 0 && pos == Position(i)
    requires var p := places[st.u[st.h]];
      p.off < k <= p.off + p.bits && 0 <= i < Pow2(k) && i % Pow2(p.off) == p.pre
    requires |tabs'| == |tabs| && 0 <= t < |tabs| && 0 <= j < |tabs[t]|
    requires t != st.u[st.h] ==> tabs'[t] == tabs[t]
    requires t == st.u[st.h] ==> |tabs'[t]| == |tabs[t]|
    requires t == st.u[st.h] ==>
      (if Path(places[t], j) % Pow2(k) == i then EntryOk(a, g, places, t, j, tabs'[t][j])
       else tabs'[t][j] == tabs[t][j])
    requires Position(Path(places[t], j)) < pos + Pow2(MAX_BITS - k)
    ensures EntryOk(a, g, places, t, j, tabs'[t][j])
  {
    hide Pow2, Rev, Path, Position, Code, Operation, Value;
    var p := places[st.u[st.h]];
    CodeFits(p, i, k);
    if Position(Path(places[t], j)) >= pos {
      EntryInPlace(places[t], g, j);
      if t == st.u[st.h] {
        InInterval(Path(p, j), i, k);
      } else {
        var l :| 0 <= l <= st.h && st.u[l] == t;
        StackEntry(g, tabs, places, st, pos, pos + Pow2(MAX_BITS - k), l, j);
      }
    }
  }

  /** Storing a code in the top table keeps the invariant, with the position moved past the code. */
  lemma FillKeeps(a: Alphabet, g: nat, tabs: Tables, tabs': Tables, places: seq<Place>, st: Stack, pos: int,
                  i: int, k: nat)
    requires IsAlphabet(a) && Inv(a, g, tabs, places, st, pos) && st.h >= 0 && pos == Position(i)
    requires var p := places[st.u[st.h]];
      p.off < k <= p.off + p.bits && 0 <= i < Pow2(k) && i % Pow2(p.off) == p.pre
    requires |tabs'| == |tabs| && forall t :: 0 <= t < |tabs| && t != st.u[st.h] ==> tabs'[t] == tabs[t]
    requires var top := st.u[st.h];
      |tabs'[top]| == |tabs[top]| && forall j :: 0 <= j < |tabs[top]| ==>
        (if Path(places[top], j) % Pow2(k) == i then EntryOk(a, g, places, top, j, tabs'[top][j])
         else tabs'[top][j] == tabs[top][j])
    ensures Inv(a, g, tabs', places, st, pos + Pow2(MAX_BITS - k))
  {
    hide Pow2, Rev, Path, Position, EntryOk, FinalBelow, OnStack, IsLink;
    CodeFits(places[st.u[st.h]], i, k);
    PositionShort(i, k);
    FinalAfterFill(a, g, tabs, tabs', places, st, pos, i, k);
    forall l | 0 <= l < st.h
      ensures LinksUp(tabs', places, st, l)
    {
      assert LinksUp(tabs, places, st, l) && tabs'[st.u[l]] == tabs[st.u[l]];
    }
  }

  // ---- Opening and closing tables ----

  function Popped(st: Stack): Stack
    requires 1 <= st.h < |st.lx|
  {
    st.(h := st.h - 1, w := st.w - st.lx[st.h])
  }

  lemma StackAfterPop(places: seq<Place>, st: Stack)
    requires StackShape(st, places) && st.h >= 1
    ensures StackShape(Popped(st), places)
  {
    var st' := Popped(st);
    assert LevelOk(st, places, st.h - 1) && LevelOk(st, places, st.h) && StepOk(st, places, st.h - 1);
    forall l | 0 <= l <= st'.h
      ensures LevelOk(st', places, l)
    {
      assert LevelOk(st, places, l);
    }
    forall l | 0 <= l < st'.h
      ensures StepOk(st', places, l)
    {
      assert LevelOk(st, places, l) && LevelOk(st, places, l + 1) && StepOk(st, places, l);
    }
  }

  lemma LinkedAfterPop(tabs: Tables, places: seq<Place>, st: Stack)
    requires |tabs| == |places| && StackShape(st, places) && st.h >= 1 && Linked(tabs, places, st)
    requires StackShape(Popped(st), places)
    ensures Linked(tabs, places, Popped(st))
  {
    hide IsLink;
    forall l | 0 <= l < Popped(st).h
      ensures LinksUp(tabs, places, Popped(st), l)
    {
      assert LinksUp(tabs, places, st, l);
    }
  }

  lemma ClosedAfterPop(tabs: Tables, places: seq<Place>, st: Stack, pos: int)
    requires |tabs| == |places| && StackShape(st, places) && st.h >= 1 && ClosedBelow(tabs, places, st, pos)
    requires High(places[st.u[st.h]]) <= pos
    ensures ClosedBelow(tabs, places, Popped(st), pos)
  {
    hide High;
    forall t | 0 <= t < |places|
      ensures OnStack(Popped(st), t) || High(places[t]) <= pos
    {
      if OnStack(st, t) {
        var l :| 0 <= l <= st.h && l < |st.u| && st.u[l] == t;
        assert l < st.h ==> OnStack(Popped(st), t);
      }
    }
  }

  /** Leaving a table whose interval ends at the position reached. */
  lemma PopKeeps(a: Alphabet, g: nat, tabs: Tables, places: seq<Place>, st: Stack, pos: int)
    requires IsAlphabet(a) && Inv(a, g, tabs, places, st, pos) && st.h >= 1
    requires pos == High(places[st.u[st.h]])
    ensures Inv(a, g, tabs, places, Popped(st), pos)
  {
    hide Low, High, FinalBelow, Linked, ClosedBelow, IsPlace;
    StackAfterPop(places, st);
    LinkedAfterPop(tabs, places, st);
    ClosedAfterPop(tabs, places, st, pos);
  }

  /** Where the next table goes: after all bits of the top table, at the bits of the current code. */
  ghost predicate IsNewPlace(np: Place, places: seq<Place>, st: Stack, i: int)
    requires StackShape(st, places)
  {
    np.off == (if st.h < 0 then 0 else places[st.u[st.h]].off + places[st.u[st.h]].bits) && np.pre == i
  }

  /** The stack after opening a table of `j` bits. */
  function Pushed(st: Stack, i: int, j: int, t: int): Stack
    requires Arrays(st) && st.h < MAX_BITS - 1
  {
    var h := st.h + 1;
    Stack(h, st.w + st.lx[h], st.lx[h + 1 := j], if h > 0 then st.x[h := i] else st.x, st.u[h := t])
  }

  /** The tables after opening one: the entry of the top table on the path of `i` links to the new one. */
  ghost predicate Opened(tabs: Tables, tabs': Tables, places: seq<Place>, st: Stack, i: int, table: seq<Node>,
      np: Place)
    requires |tabs| == |places| && StackShape(st, places)
  {
    && |tabs'| == |tabs| + 1 && tabs'[|tabs|] == table
    && (forall t :: 0 <= t < |tabs| && (st.h < 0 || t != st.u[st.h]) ==> tabs'[t] == tabs[t])
    && (st.h >= 0 ==>
          var top := st.u[st.h];
          && |tabs'[top]| == |tabs[top]|
          && (forall j :: 0 <= j < |tabs[top]| && Path(places[top], j) != i ==> tabs'[top][j] == tabs[top][j])
          && (exists j :: 0 <= j < |tabs[top]| && Path(places[top], j) == i
                && IsLink(places + [np], top, j, tabs'[top][j]) && tabs'[top][j].t == |tabs|))
  }

  lemma LinkExtends(places: seq<Place>, np: Place, t: int, k: int, node: Node)
    requires 0 <= t < |places| && IsLink(places, t, k, node)
    ensures IsLink(places + [np], t, k, node)
  {
  }

  lemma EntryExtends(a: Alphabet, g: nat, places: seq<Place>, np: Place, t: int, k: int, node: Node)
    requires IsAlphabet(a) && 0 <= t < |places| && EntryOk(a, g, places, t, k, node)
    ensures EntryOk(a, g, places + [np], t, k, node)
  {
    hide IsLeaf, IsUnused;
    if s :| IsLeaf(a, places[t], k, node, s) {
      assert IsLeaf(a, (places + [np])[t], k, node, s);
    } else if IsUnused(a, g, places[t], k, node) {
    } else {
      LinkExtends(places, np, t, k, node);
    }
  }

  lemma FinalAfterPush(a: Alphabet, g: nat, tabs: Tables, tabs': Tables, places: seq<Place>, st: Stack, i: int,
                       table: seq<Node>, np: Place)
    requires IsAlphabet(a) && Shaped(tabs, places, g) && StackShape(st, places)
    requires FinalBelow(a, g, tabs, places, Position(i)) && IsPlace(np, g) && np.pre == i && |table| == Pow2(np.bits)
    requires Opened(tabs, tabs', places, st, i, table, np)
    ensures FinalBelow(a, g, tabs', places + [np], Position(i))
  {
    hide Pow2, Rev, Path, Position, EntryOk, IsLink;
    var places' := places + [np];
    forall t, j | 0 <= t < |tabs'| && 0 <= j < |tabs'[t]| && Position(Path(places'[t], j)) < Position(i)
      ensures EntryOk(a, g, places', t, j, tabs'[t][j])
    {
      if t == |tabs| {
        EntryInPlace(np, g, j);
      } else {
        assert places'[t] == places[t];
        if st.h >= 0 && t == st.u[st.h] {
          assert Path(places[t], j) != i;
        }
        assert tabs'[t][j] == tabs[t][j];
        EntryExtends(a, g, places, np, t, j, tabs[t][j]);
      }
    }
  }

  /** A place entered after more bits of the same string lies inside. */
  lemma DeeperIsInside(p: Place, q: Place)
    requires p.off <= q.off <= MAX_BITS && 0 <= p.pre < Pow2(p.off) && 0 <= q.pre < Pow2(q.off)
    requires q.pre % Pow2(p.off) == p.pre
    ensures Low(p) <= Low(q) && High(q) <= High(p)
  {
    hide Pow2, Rev;
    if p.off < q.off {
      CodeFits(p, q.pre, q.off);
    } else {
      Digits.QuotientUnique(q.pre, Pow2(q.off), 0, q.pre);
    }
  }

  lemma ShapeAfterPush(tabs: Tables, tabs': Tables, places: seq<Place>, st: Stack, i: int,
                       table: seq<Node>, np: Place, g: nat)
    requires Shaped(tabs, places, g) && StackShape(st, places)
    requires IsPlace(np, g) && |table| == Pow2(np.bits)
    requires Opened(tabs, tabs', places, st, i, table, np)
    ensures Shaped(tabs', places + [np], g)
  {
    hide Path, IsLink, IsPlace, Pow2;
  }

  lemma StackAfterPush(places: seq<Place>, st: Stack, i: int, np: Place, g: nat)
    requires StackShape(st, places) && st.h < MAX_BITS - 1 && IsPlace(np, g) && IsNewPlace(np, places, st, i)
    ensures StackShape(Pushed(st, i, np.bits, |places|), places + [np])
  {
    hide IsPlace;
    RootPrefix(np, g);
    var st', places' := Pushed(st, i, np.bits, |places|), places + [np];
    forall l | 0 <= l <= st.h
      ensures LevelOk(st', places', l) && places'[st'.u[l]] == places[st.u[l]]
    {
      assert LevelOk(st, places, l);
    }
    assert LevelOk(st', places', st.h + 1);
    forall l | 0 <= l < st'.h
      ensures StepOk(st', places', l)
    {
      assert LevelOk(st, places, l) && LevelOk(st', places', l);
      if l < st.h {
        assert LevelOk(st, places, l + 1) && LevelOk(st', places', l + 1) && StepOk(st, places, l);
      }
    }
  }

  lemma RootPrefix(p: Place, g: nat)
    requires IsPlace(p, g)
    ensures p.off == 0 ==> p.pre == 0
  {
    assert Pow2(0) == 1;
  }

  lemma LinkedAfterPush(tabs: Tables, tabs': Tables, places: seq<Place>, st: Stack, i: int,
                        table: seq<Node>, np: Place, g: nat)
    requires Shaped(tabs, places, g) && StackShape(st, places) && st.h < MAX_BITS - 1 && Linked(tabs, places, st)
    requires Opened(tabs, tabs', places, st, i, table, np)
    requires var st' := Pushed(st, i, np.bits, |tabs|); StackShape(st', places + [np]) && |tabs'| == |places| + 1
    ensures Linked(tabs', places + [np], Pushed(st, i, np.bits, |tabs|))
  {
    hide Path, IsLink, Pow2;
    var st' := Pushed(st, i, np.bits, |tabs|);
    forall l | 0 <= l < st'.h
      ensures LinksUp(tabs', places + [np], st', l)
    {
      if l < st.h {
        assert LinksUp(tabs, places, st, l);
        var k :| 0 <= k < |tabs[st.u[l]]| && IsLink(places, st.u[l], k, tabs[st.u[l]][k])
                 && tabs[st.u[l]][k].t == st.u[l + 1];
        LinkExtends(places, np, st.u[l], k, tabs[st.u[l]][k]);
        assert tabs'[st.u[l]] == tabs[st.u[l]];
      } else {
        var top := st.u[st.h];
        var j :| 0 <= j < |tabs[top]| && Path(places[top], j) == i
                 && IsLink(places + [np], top, j, tabs'[top][j]) && tabs'[top][j].t == |tabs|;
      }
    }
  }

  /** Opening a table for the current code keeps the invariant at the same position. */
  lemma PushKeeps(a: Alphabet, g: nat, tabs: Tables, tabs': Tables, places: seq<Place>, st: Stack, i: int,
                  table: seq<Node>, np: Place)
    requires IsAlphabet(a) && Inv(a, g, tabs, places, st, Position(i)) && st.h < MAX_BITS - 1
    requires IsPlace(np, g) && IsNewPlace(np, places, st, i) && |table| == Pow2(np.bits)
    requires st.h >= 0 ==> i % Pow2(places[st.u[st.h]].off) == places[st.u[st.h]].pre
    requires Opened(tabs, tabs', places, st, i, table, np)
    ensures Inv(a, g, tabs', places + [np], Pushed(st, i, np.bits, |tabs|), Position(i))
  {
    hide Path, Position, EntryOk, FinalBelow, IsLink, Linked, ClosedBelow, Nested, Opened, StackShape, Pushed, Pow2;
    ShapeFacts(places, st);
    PushedTop(st, i, np.bits, |tabs|);
    OpenedCount(tabs, tabs', places, st, i, table, np);
    ShapeAfterPush(tabs, tabs', places, st, i, table, np, g);
    StackAfterPush(places, st, i, np, g);
    LinkedAfterPush(tabs, tabs', places, st, i, table, np, g);
    FinalAfterPush(a, g, tabs, tabs', places, st, i, table, np);
    ClosedAfterPush(tabs, tabs', places, st, i, np, Position(i));
    NestedAfterPush(tabs, places, st, i, np, g);
    PositionShort(i, np.off);
    Pow2Monotone(0, MAX_BITS - np.off);
  }

  lemma ShapeFacts(places: seq<Place>, st: Stack)
    requires StackShape(st, places)
    ensures Arrays(st) && (st.h >= 0 ==> 0 <= st.u[st.h] < |places|)
  {
    assert st.h >= 0 ==> LevelOk(st, places, st.h);
  }

  lemma PushedTop(st: Stack, i: int, j: int, t: int)
    requires Arrays(st) && st.h < MAX_BITS - 1
    ensures Pushed(st, i, j, t).h == st.h + 1 && Pushed(st, i, j, t).u[st.h + 1] == t
    ensures |Pushed(st, i, j, t).u| == |st.u|
  {
  }

  lemma OpenedCount(tabs: Tables, tabs': Tables, places: seq<Place>, st: Stack, i: int, table: seq<Node>, np: Place)
    requires |tabs| == |places| && StackShape(st, places) && Opened(tabs, tabs', places, st, i, table, np)
    ensures |tabs'| == |tabs| + 1
  {
  }

  lemma ClosedAfterPush(tabs: Tables, tabs': Tables, places: seq<Place>, st: Stack, i: int, np: Place, pos: int)
    requires |tabs| == |places| && |tabs'| == |tabs| + 1 && st.h < MAX_BITS - 1
    requires StackShape(st, places) && ClosedBelow(tabs, places, st, pos)
    ensures ClosedBelow(tabs', places + [np], Pushed(st, i, np.bits, |tabs|), pos)
  {
    hide High;
    var st' := Pushed(st, i, np.bits, |tabs|);
    assert st'.u[st'.h] == |tabs|;
    forall t | 0 <= t < |places + [np]|
      ensures OnStack(st', t) || High((places + [np])[t]) <= pos
    {
      if t < |tabs| && OnStack(st, t) {
        var l :| 0 <= l <= st.h && l < |st.u| && st.u[l] == t;
        assert st'.u[l] == t;
      }
    }
  }

  lemma NestedAfterPush(tabs: Tables, places: seq<Place>, st: Stack, i: int, np: Place, g: nat)
    requires Shaped(tabs, places, g) && StackShape(st, places) && st.h < MAX_BITS - 1
    requires IsPlace(np, g) && IsNewPlace(np, places, st, i) && Nested(places, st)
    requires st.h >= 0 ==> i % Pow2(places[st.u[st.h]].off) == places[st.u[st.h]].pre
    requires StackShape(Pushed(st, i, np.bits, |tabs|), places + [np])
    ensures Nested(places + [np], Pushed(st, i, np.bits, |tabs|))
  {
    hide Low, High, Pow2;
    if st.h >= 0 {
      DeeperIsInside(places[st.u[st.h]], np);
    }
  }
}
