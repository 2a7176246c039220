/**
  The block pool and the send queue of one connection: `conn_popchunk`, `conn_freechunk`, `conn_pushto_sendq` and
  `conn_popfrom_sendq`. Each runs under the connection's mutex. Blocks are named by their index in `qblocks`; -1 is
  the null pointer.
 */
module ConnBlocks {
  const NULL := -1

  ghost predicate Distinct(s: seq<int>) {
    forall i, j :: 0 <= i < j < |s| ==> s[i] != s[j]
  }

  lemma NothingBelow(s: seq<int>, n: int)
    requires forall i :: 0 <= i < |s| ==> 0 <= s[i] < n
    ensures n <= 0 ==> s == []
  {
    if s != [] {
      var x := s[0];
    }
  }

  lemma {:induction false} DistinctBound(s: seq<int>, n: nat)
    requires Distinct(s) && forall i :: 0 <= i < |s| ==> 0 <= s[i] < n
    ensures |s| <= n
    decreases n
  {
    if n == 0 {
      NothingBelow(s, 0);
    } else if k :| 0 <= k < |s| && s[k] == n - 1 {
      DistinctBound(s[..k] + s[k + 1..], n - 1);
    } else {
      DistinctBound(s, n - 1);
    }
  }

  // ---- Ownership ----

  ghost predicate Below(s: seq<int>, max: int) {
    forall i :: 0 <= i < |s| ==> 0 <= s[i] < max
  }

  /** Every block handed out so far has exactly one owner: the send queue, the free stack, or a caller. */
  ghost predicate OneOwner(queue: seq<int>, free: seq<int>, held: set<int>, max: nat) {
    && Distinct(queue) && Distinct(free) && Below(queue, max) && Below(free, max)
    && (forall x :: x in held ==> 0 <= x < max)
    && (forall x :: 0 <= x < max ==> x in queue || x in free || x in held)
    && (forall x :: x in queue ==> x !in free && x !in held)
    && (forall x :: x in free ==> x !in held)
  }

  lemma OwnFromStack(queue: seq<int>, free: seq<int>, held: set<int>, max: nat)
    requires OneOwner(queue, free, held, max) && free != []
    ensures OneOwner(queue, free[..|free| - 1], held + {free[|free| - 1]}, max)
    ensures 0 <= free[|free| - 1] < max && free[|free| - 1] !in held
  {
    var f, x := free[..|free| - 1], free[|free| - 1];
    assert free == f + [x];
    assert x in free;
    assert Distinct(f);
  }

  lemma OwnFresh(queue: seq<int>, held: set<int>, max: nat)
    requires OneOwner(queue, [], held, max)
    ensures OneOwner(queue, [], held + {max}, max + 1) && max !in held
  {
    assert max !in queue;
  }

  lemma OwnFreed(queue: seq<int>, free: seq<int>, held: set<int>, max: nat, x: int)
    requires OneOwner(queue, free, held, max) && x in held
    ensures OneOwner(queue, free + [x], held - {x}, max) && |free| < max
  {
    assert x !in free;
    DistinctBound(free + [x], max);
  }

  lemma OwnQueued(queue: seq<int>, free: seq<int>, held: set<int>, max: nat, x: int)
    requires OneOwner(queue, free, held, max) && x in held
    ensures OneOwner(queue + [x], free, held - {x}, max) && x !in queue && 0 <= x < max
  {
  }

  lemma OwnTaken(queue: seq<int>, free: seq<int>, held: set<int>, max: nat)
    requires OneOwner(queue, free, held, max) && queue != []
    ensures OneOwner(queue[1..], free, held + {queue[0]}, max)
  {
    var q, x := queue[1..], queue[0];
    assert queue == [x] + q;
    assert x in queue;
    assert Distinct(q);
    forall y | y in q
      ensures y in queue && y != x
    {
      var k :| 0 <= k < |q| && q[k] == y;
      assert queue[k + 1] == y;
    }
  }

  // ---- The linked list ----

  /** `head`, `tail` and `next` describe the list `queue`, which has no cycle. */
  ghost predicate IsList(next: seq<int>, head: int, tail: int, queue: seq<int>) {
    && Distinct(queue) && Below(queue, |next|)
    && head == (if queue == [] then NULL else queue[0])
    && tail == (if queue == [] then NULL else queue[|queue| - 1])
    && forall i :: 0 <= i < |queue| ==> next[queue[i]] == NextInList(queue, i)
  }

  function NextInList(queue: seq<int>, i: int): int
    requires 0 <= i < |queue|
  {
    if i + 1 < |queue| then queue[i + 1] else NULL
  }

  lemma ListAppend(next: seq<int>, head: int, tail: int, queue: seq<int>, x: int)
    requires IsList(next, head, tail, queue) && 0 <= x < |next| && x !in queue
    ensures tail == NULL ==> IsList(next[x := NULL], x, x, queue + [x])
    ensures tail != NULL ==> 0 <= tail < |next| && IsList(next[x := NULL][tail := x], head, x, queue + [x])
  {
    if tail != NULL {
      var n' := next[x := NULL][tail := x];
      forall i | 0 <= i < |queue + [x]|
        ensures n'[(queue + [x])[i]] == NextInList(queue + [x], i)
      {
        if i < |queue| {
          assert queue[i] != x;
        }
      }
    }
  }

  lemma NextOf(next: seq<int>, head: int, tail: int, queue: seq<int>, i: nat)
    requires IsList(next, head, tail, queue) && i < |queue|
    ensures 0 <= queue[i] < |next|
    ensures next[queue[i]] == NextInList(queue, i)
  {
  }

  lemma ListTail(next: seq<int>, head: int, tail: int, queue: seq<int>)
    requires IsList(next, head, tail, queue) && queue != []
    ensures 0 <= head < |next| && IsList(next, next[head], if next[head] == NULL then NULL else tail, queue[1..])
  {
    var q := queue[1..];
    assert queue == [queue[0]] + q;
    NextOf(next, head, tail, queue, 0);
    forall i | 0 <= i < |q|
      ensures 0 <= q[i] < |next| && next[q[i]] == NextInList(q, i)
    {
      NextOf(next, head, tail, queue, i + 1);
    }
    forall i, j | 0 <= i < j < |q|
      ensures q[i] != q[j]
    {
      assert q[i] == queue[i + 1] && q[j] == queue[j + 1];
    }
  }

  // ---- The code ----

  class Blocks {
    /** `qblocks[x].next` */
    const next: array<int>
    /** `qleft`: the stack of free blocks. */
    const qleft: array<int>
    var nqleft: nat
    var qblockMax: nat
    var qhead: int
    var qtail: int
    var nsendq: nat
    /** The queued blocks in order, and those that callers have popped and not yet queued or freed. */
    ghost var queue: seq<int>
    ghost var held: set<int>

    ghost predicate Valid()
      reads this, next, qleft
    {
      && next != qleft && next.Length == qleft.Length && nqleft <= qblockMax <= next.Length
      && nsendq == |queue| && IsList(next[..], qhead, qtail, queue)
      && OneOwner(queue, qleft[..nqleft], held, qblockMax)
    }

    constructor (capacity: nat)
      ensures Valid() && queue == [] && held == {} && qblockMax == 0 && next.Length == capacity && fresh(next)
      ensures fresh(qleft)
    {
      next := new int[capacity](_ => NULL);
      qleft := new int[capacity](_ => NULL);
      nqleft, qblockMax, qhead, qtail, nsendq := 0, 0, NULL, NULL, 0;
      queue, held := [], {};
    }

    /**
      A free block, the one freed last if there is one. The source takes for granted that a fresh block exists
      otherwise.
     */
    method PopChunk() returns (x: int)
      requires Valid() && (nqleft > 0 || qblockMax < next.Length)
      modifies this`nqleft, this`qblockMax, this`held, qleft
      ensures Valid() && queue == old(queue) && x !in old(held) && held == old(held) + {x} && 0 <= x < qblockMax
      ensures old(nqleft) > 0 ==> x == old(qleft[nqleft - 1]) && qblockMax == old(qblockMax)
      ensures old(nqleft) == 0 ==> x == old(qblockMax) && qblockMax == old(qblockMax) + 1
    {
      hide IsList, OneOwner;
      ghost var free := qleft[..nqleft];
      if nqleft > 0 {
        OwnFromStack(queue, free, held, qblockMax);
        nqleft := nqleft - 1;
        x := qleft[nqleft];
        qleft[nqleft] := NULL;
        assert qleft[..nqleft] == free[..|free| - 1];
      } else {
        assert free == [];
        OwnFresh(queue, held, qblockMax);
        x := qblockMax;
        qblockMax := qblockMax + 1;
        assert qleft[..nqleft] == [];
      }
      held := held + {x};
    }

    /** The stack always has room for the block. */
    method FreeChunk(x: int)
      requires Valid() && x in held
      modifies this`nqleft, this`held, qleft
      ensures Valid() && queue == old(queue) && held == old(held) - {x} && nqleft == old(nqleft) + 1
      ensures qleft[nqleft - 1] == x
    {
      hide IsList, OneOwner;
      ghost var free := qleft[..nqleft];
      OwnFreed(queue, free, held, qblockMax, x);
      qleft[nqleft] := x;
      nqleft := nqleft + 1;
      assert qleft[..nqleft] == free + [x];
      held := held - {x};
    }

    method PushToSendq(x: int)
      requires Valid() && x in held
      modifies this`qhead, this`qtail, this`nsendq, this`queue, this`held, next
      ensures Valid() && queue == old(queue) + [x] && held == old(held) - {x}
    {
      hide IsList, OneOwner;
      OwnQueued(queue, qleft[..nqleft], held, qblockMax, x);
      ListAppend(next[..], qhead, qtail, queue, x);
      next[x] := NULL;
      if qtail != NULL {
        next[qtail] := x;
        qtail := x;
      } else {
        qhead, qtail := x, x;
      }
      nsendq := nsendq + 1;
      queue := queue + [x];
      held := held - {x};
    }

    method SendqHead() returns (x: int)
      requires Valid()
      ensures x == if queue == [] then NULL else queue[0]
    {
      x := qhead;
    }

    /** First in, first out. */
    method PopFromSendq() returns (x: int)
      requires Valid()
      modifies this`qhead, this`qtail, this`nsendq, this`queue, this`held
      ensures Valid()
      ensures old(queue) == [] ==> x == NULL && queue == [] && held == old(held)
      ensures old(queue) != [] ==> x == old(queue[0]) && queue == old(queue[1..]) && held == old(held) + {x}
    {
      hide OneOwner;
      x := qhead;
      if x != NULL {
        ListTail(next[..], qhead, qtail, queue);
        OwnTaken(queue, qleft[..nqleft], held, qblockMax);
        qhead := next[qhead];
        if qhead == NULL {
          qtail := NULL;
        }
        nsendq := nsendq - 1;
        queue := queue[1..];
        held := held + {x};
      }
    }
  }
}
