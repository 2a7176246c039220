/**
  One pass of `evselect_loop` and `evpoll_loop`. Handlers may add events, change flags and destroy events, in any way;
  which handler does what is a parameter.
 */
module EventDispatch {
  import opened EventBase

  /** What a handler can do. */
  datatype Op =
    | New(fd: int, flags: Flags)
    | AddFlags(fd: int, flags: Flags)
    | DelFlags(fd: int, flags: Flags)
    | Destroy(fd: int)

  /** One call of a handler; `gone` are the events destroyed before it in this pass. */
  datatype Call = Call(fd: int, flags: Flags, event: Event, gone: set<Event>)

  ghost predicate Scanned(ops: Backend) {
    ops == Select || ops == Poll
  }

  ghost predicate GoneOk(base: Base, gone: set<Event>)
    reads gone
  {
    forall e :: e in gone ==> e.base == null
  }

  /** One operation of a handler; a handler only uses events that are registered. */
  method Perform(base: Base, op: Op, ghost gone0: set<Event>) returns (ghost gone: set<Event>)
    requires base.Valid() && Scanned(base.ops) && GoneOk(base, gone0)
    requires op.New? ==> Persist in op.flags
    requires op.DelFlags? ==> Persist !in op.flags
    modifies base, base.evlist, base.pollFds, base.regs.Values
    ensures base.Valid() && GoneOk(base, gone) && gone0 <= gone
    ensures forall e :: e in base.regs.Values ==> e in old(base.regs.Values) || fresh(e)
    ensures gone - gone0 <= old(base.regs.Values) && Registered(old(base.regs)) <= Registered(base.regs) + gone
    ensures op.Destroy? ==> op.fd !in base.regs
    ensures op.New? && 0 <= op.fd < base.evlist.Length ==> op.fd in base.regs
    ensures forall x :: x != op.fd ==> (x in base.regs <==> x in old(base.regs))
    ensures forall x :: x != op.fd && x in base.regs ==>
      base.regs[x] == old(base.regs[x]) && base.regs[x].flags == old(base.regs[x].flags)
    ensures forall x :: 0 <= x < base.pollFds.Length && x != op.fd ==> base.pollFds[x] == old(base.pollFds[x])
    ensures forall x :: 0 <= x < base.pollFds.Length ==> Settled(old(base.pollFds[x]), base.pollFds[x])
  {
    gone := gone0;
    ghost var regs := base.regs;
    var fd := op.fd;
    if 0 <= fd < base.evlist.Length {
      var event := base.evlist[fd];
      match op {
        case New(_, flags) =>
          if event == null {
            event := new Event(fd, flags);
            var ret := base.Add(event);
            OneMore(regs, fd, event);
          }
        case AddFlags(_, flags) =>
          if event != null {
            EventAdd(event, flags);
          }
        case DelFlags(_, flags) =>
          if event != null {
            EventDel(event, flags);
          }
        case Destroy(_) =>
          if event != null {
            EventDestroy(event);
            gone := gone + {event};
            OneLess(regs, fd);
          }
      }
    }
  }

  ghost function Registered(regs: map<int, Event>): set<Event> {
    set fd | fd in regs :: regs[fd]
  }

  lemma OneLess(regs: map<int, Event>, fd: int)
    requires fd in regs
    ensures Registered(regs) <= Registered(regs - {fd}) + {regs[fd]}
  {
    forall e | e in Registered(regs) && e != regs[fd]
      ensures e in Registered(regs - {fd})
    {
      var x :| x in regs && regs[x] == e;
      assert (regs - {fd})[x] == e;
    }
  }

  lemma OneMore(regs: map<int, Event>, fd: int, event: Event)
    requires fd !in regs
    ensures Registered(regs) <= Registered(regs[fd := event])
  {
    forall e | e in Registered(regs)
      ensures e in Registered(regs[fd := event])
    {
      var x :| x in regs && regs[x] == e;
      assert regs[fd := event][x] == e;
    }
  }

  /** The bound the scan relies on. */
  lemma Bounded(base: Base)
    requires base.Valid() && Scanned(base.ops)
    ensures base.maxfd < base.evlist.Length == base.pollFds.Length
    ensures forall x :: x in base.regs ==> 0 <= x <= base.maxfd
  {
  }

  ghost predicate OpsOk(ops: seq<Op>) {
    forall i :: 0 <= i < |ops| ==>
      (ops[i].New? ==> Persist in ops[i].flags) && (ops[i].DelFlags? ==> Persist !in ops[i].flags)
  }

  /** The descriptors a handler deals with. */
  function FdsOf(ops: seq<Op>): set<int> {
    set i | 0 <= i < |ops| :: ops[i].fd
  }

  lemma OneMoreFd(ops: seq<Op>, i: nat)
    requires i < |ops|
    ensures FdsOf(ops[..i + 1]) == FdsOf(ops[..i]) + {ops[i].fd}
  {
    forall fd | fd in FdsOf(ops[..i])
      ensures fd in FdsOf(ops[..i + 1])
    {
      var k :| 0 <= k < i && ops[..i][k].fd == fd;
      assert ops[..i + 1][k].fd == fd;
    }
    assert ops[..i + 1][i].fd == ops[i].fd;
    forall fd | fd in FdsOf(ops[..i + 1])
      ensures fd in FdsOf(ops[..i]) + {ops[i].fd}
    {
      var k :| 0 <= k < i + 1 && ops[..i + 1][k].fd == fd;
      assert k < i ==> ops[..i][k].fd == fd;
    }
  }

  /** The descriptors the first `n` handlers of a pass deal with. */
  function Touched(script: nat -> seq<Op>, n: nat): set<int> {
    if n == 0 then {} else Touched(script, n - 1) + FdsOf(script(n - 1))
  }

  /** All that one handler does. */
  method RunHandler(base: Base, ops: seq<Op>, ghost gone0: set<Event>, ghost touched0: set<int>)
      returns (ghost gone: set<Event>, ghost touched: set<int>)
    requires base.Valid() && Scanned(base.ops) && GoneOk(base, gone0) && OpsOk(ops)
    modifies base, base.evlist, base.pollFds, base.regs.Values
    ensures base.Valid() && GoneOk(base, gone) && gone0 <= gone && touched == touched0 + FdsOf(ops)
    ensures forall e :: e in base.regs.Values ==> e in old(base.regs.Values) || fresh(e)
    ensures gone - gone0 <= old(base.regs.Values) + set e | e in gone && fresh(e)
    ensures Registered(old(base.regs)) <= Registered(base.regs) + gone
    ensures forall x :: x !in touched ==> (x in base.regs <==> x in old(base.regs))
    ensures forall x :: x !in touched && x in base.regs ==>
      base.regs[x] == old(base.regs[x]) && base.regs[x].flags == old(base.regs[x].flags)
    ensures forall x :: 0 <= x < base.pollFds.Length && x !in touched ==> base.pollFds[x] == old(base.pollFds[x])
    ensures forall x :: 0 <= x < base.pollFds.Length ==> Settled(old(base.pollFds[x]), base.pollFds[x])
  {
    hide Base.Armed, Base.Listed, Base.AllPersistent, Base.Wanted, Base.Quiet;
    gone, touched := gone0, touched0;
    var i := 0;
    while i < |ops|
      invariant 0 <= i <= |ops| && base.Valid() && GoneOk(base, gone) && gone0 <= gone
      invariant touched == touched0 + FdsOf(ops[..i])
      invariant Registered(old(base.regs)) <= Registered(base.regs) + gone
      invariant forall e :: e in base.regs.Values ==> e in old(base.regs.Values) || fresh(e)
      invariant gone - gone0 <= old(base.regs.Values) + set e | e in gone && fresh(e)
      invariant forall x :: x !in touched ==> (x in base.regs <==> x in old(base.regs))
      invariant forall x :: x !in touched && x in base.regs ==>
        base.regs[x] == old(base.regs[x]) && base.regs[x].flags == old(base.regs[x].flags)
      invariant forall x :: 0 <= x < base.pollFds.Length && x !in touched ==> base.pollFds[x] == old(base.pollFds[x])
      invariant forall x :: 0 <= x < base.pollFds.Length ==> Settled(old(base.pollFds[x]), base.pollFds[x])
    {
      gone := Perform(base, ops[i], gone);
      touched := touched + {ops[i].fd};
      OneMoreFd(ops, i);
      i := i + 1;
    }
    assert ops[..i] == ops;
  }

  // ---- select ----

  function Ready(rd: set<int>, wr: set<int>, fd: int): Flags {
    (if fd in rd then {Read} else {}) + (if fd in wr then {Write} else {})
  }

  ghost predicate InOrder(log: seq<Call>, below: int) {
    && (forall j, k :: 0 <= j < k < |log| ==> log[j].fd < log[k].fd)
    && (forall k :: 0 <= k < |log| ==> log[k].fd < below)
  }

  ghost predicate Logged(log: seq<Call>, fd: int, flags: Flags) {
    exists k :: 0 <= k < |log| && log[k].fd == fd && log[k].flags == flags
  }

  /** No call goes to an event destroyed earlier in the pass, and none comes without a reason. */
  ghost predicate Alive(log: seq<Call>) {
    forall k :: 0 <= k < |log| ==> log[k].event !in log[k].gone && log[k].flags != {}
  }

  lemma LogMore(log: seq<Call>, call: Call)
    requires InOrder(log, call.fd) && Alive(log) && call.event !in call.gone && call.flags != {}
    ensures InOrder(log + [call], call.fd + 1) && Alive(log + [call]) && Logged(log + [call], call.fd, call.flags)
    ensures forall fd, flags :: Logged(log, fd, flags) ==> Logged(log + [call], fd, flags)
  {
    var more := log + [call];
    assert more[|log|] == call;
    forall fd, flags | Logged(log, fd, flags)
      ensures Logged(more, fd, flags)
    {
      var k :| 0 <= k < |log| && log[k].fd == fd && log[k].flags == flags;
      assert more[k] == log[k];
    }
  }

  lemma Later(log: seq<Call>, i: int, j: int)
    requires i <= j
    ensures InOrder(log, i) ==> InOrder(log, j)
  {
  }

  /** `if((ev_flags &= ev->ev_flags)) event_active(ev, ev_flags)`, when there is an event. */
  method Turn(base: Base, i: nat, ready: Flags, ops: seq<Op>, ghost log0: seq<Call>, ghost gone0: set<Event>,
      ghost touched0: set<int>)
      returns (called: bool, ghost log: seq<Call>, ghost gone: set<Event>, ghost touched: set<int>)
    requires base.Valid() && Scanned(base.ops) && GoneOk(base, gone0) && OpsOk(ops)
    requires i < base.evlist.Length && InOrder(log0, i) && Alive(log0)
    modifies base, base.evlist, base.pollFds, base.regs.Values
    ensures base.Valid() && GoneOk(base, gone) && gone0 <= gone && InOrder(log, i + 1) && Alive(log)
    ensures called <==> log != log0
    ensures touched == if called then touched0 + FdsOf(ops) else touched0
    ensures Registered(old(base.regs)) <= Registered(base.regs) + gone
    ensures forall e :: e in base.regs.Values ==> e in old(base.regs.Values) || fresh(e)
    ensures forall x :: x !in touched ==> (x in base.regs <==> x in old(base.regs))
    ensures forall x :: x !in touched && x in base.regs ==>
      base.regs[x] == old(base.regs[x]) && base.regs[x].flags == old(base.regs[x].flags)
    ensures forall x :: 0 <= x < base.pollFds.Length && x !in touched ==> base.pollFds[x] == old(base.pollFds[x])
    ensures forall x :: 0 <= x < base.pollFds.Length ==> Settled(old(base.pollFds[x]), base.pollFds[x])
    ensures forall fd, flags :: Logged(log0, fd, flags) ==> Logged(log, fd, flags)
    ensures i in old(base.regs) && ready * old(base.regs[i].flags) != {} ==>
      Logged(log, i, ready * old(base.regs[i].flags))
    ensures ready == {} ==> log == log0
    ensures log != log0 ==>
      && |log| == |log0| + 1 && i in old(base.regs) && log[|log0|].gone == gone0
      && log[|log0|].event == old(base.regs[i]) && log[|log0|].flags == ready * old(base.regs[i].flags)
    ensures log == log0 || (|log| == |log0| + 1 && log[..|log0|] == log0 && log[|log0|].fd == i
      && log[|log0|].flags <= ready)
  {
    hide InOrder, Logged, Alive, OpsOk, Base.Armed, Base.Wanted, Base.AllPersistent, Base.Quiet;
    called, log, gone, touched := false, log0, gone0, touched0;
    var ev := base.evlist[i];
    Later(log0, i, i + 1);
    if ev != null {
      var evFlags := ready;
      if evFlags != {} {
        evFlags := evFlags * ev.flags;
        if evFlags != {} {
          called := true;
          ghost var call := Call(i, evFlags, ev, gone);
          LogMore(log, call);
          log := log + [call];
          gone, touched := RunHandler(base, ops, gone, touched);
        }
      }
    }
  }

  /** No call has flags that `select` did not report. */
  ghost predicate Selected(log: seq<Call>, rd: set<int>, wr: set<int>) {
    forall k :: 0 <= k < |log| ==> log[k].flags <= Ready(rd, wr, log[k].fd)
  }

  lemma NothingSelected(rd: set<int>, wr: set<int>)
    ensures Selected([], rd, wr)
  {
  }

  lemma SelectedMore(log0: seq<Call>, log: seq<Call>, rd: set<int>, wr: set<int>, i: nat)
    requires Selected(log0, rd, wr)
    requires log == log0 || (|log| == |log0| + 1 && log[..|log0|] == log0 && log[|log0|].fd == i
                             && log[|log0|].flags <= Ready(rd, wr, i))
    ensures Selected(log, rd, wr)
  {
    hide Ready;
    forall k | 0 <= k < |log|
      ensures log[k].flags <= Ready(rd, wr, log[k].fd)
    {
      if k < |log0| {
        assert log[..|log0|][k] == log0[k];
      }
    }
  }

  /** One descriptor of the scan. */
  method SelectTurn(base: Base, i: nat, rd: set<int>, wr: set<int>, ops: seq<Op>,
      ghost expected: map<int, Flags>, ghost log0: seq<Call>, ghost gone0: set<Event>, ghost touched0: set<int>)
      returns (called: bool, ghost log: seq<Call>, ghost gone: set<Event>, ghost touched: set<int>)
    requires base.Valid() && base.ops == Select && GoneOk(base, gone0) && OpsOk(ops)
    requires i < base.evlist.Length && InOrder(log0, i) && Alive(log0) && Selected(log0, rd, wr)
    requires Covered(log0, i, touched0, expected) && Justified(log0, touched0, expected)
    requires forall x :: x in base.regs && x !in touched0 ==> x in expected
    requires i in expected && i !in touched0 ==>
      i in base.regs && expected[i] == Ready(rd, wr, i) * base.regs[i].flags
    modifies base, base.evlist, base.pollFds, base.regs.Values
    ensures base.Valid() && GoneOk(base, gone) && gone0 <= gone && InOrder(log, i + 1) && Alive(log)
    ensures |log| == |log0| + if called then 1 else 0
    ensures touched == if called then touched0 + FdsOf(ops) else touched0
    ensures Registered(old(base.regs)) <= Registered(base.regs) + gone
    ensures forall e :: e in base.regs.Values ==> e in old(base.regs.Values) || fresh(e)
    ensures forall x :: x !in touched ==> (x in base.regs <==> x in old(base.regs))
    ensures forall x :: x !in touched && x in base.regs ==>
      base.regs[x] == old(base.regs[x]) && base.regs[x].flags == old(base.regs[x].flags)
    ensures Covered(log, i + 1, touched, expected) && Justified(log, touched, expected) && Selected(log, rd, wr)
  {
    hide InOrder, Logged, Alive, Covered, Justified, Selected, OpsOk, Ready, GoneOk;
    hide Base.Armed, Base.Wanted, Base.AllPersistent, Base.Listed, Base.Quiet;
    called, log, gone, touched := Turn(base, i, Ready(rd, wr, i), ops, log0, gone0, touched0);
    SelectedMore(log0, log, rd, wr, i);
    CoveredMore(log0, log, i, touched0, touched, expected);
    JustifiedMore(log0, log, i, touched0, touched, expected);
  }

  /**
    `evselect_loop` once `select` has returned `rd` and `wr`. Every ready descriptor whose event no handler has
    touched is dispatched with all its readiness; each descriptor at most once, in order; and never an event that is
    gone.
   */
  method SelectLoop(base: Base, rd: set<int>, wr: set<int>, script: nat -> seq<Op>)
      returns (ghost log: seq<Call>, ghost touched: set<int>, ghost gone: set<Event>)
    requires base.Valid() && base.ops == Select && rd <= base.readFds && wr <= base.writeFds
    requires forall k :: OpsOk(script(k))
    modifies base, base.evlist, base.pollFds, base.regs.Values
    ensures base.Valid() && touched == Touched(script, |log|)
    ensures GoneOk(base, gone) && Registered(old(base.regs)) <= Registered(base.regs) + gone
    ensures Covered(log, base.evlist.Length, touched, old(Expected(base, x => Ready(rd, wr, x))))
    ensures InOrder(log, base.evlist.Length) && Alive(log)
    ensures Selected(log, rd, wr)
    ensures Exact(log, touched, old(Interest(base)), x => x in rd, x => x in wr)
  {
    hide Expected, Interest, FdsOf, Registered, Reported;
    hide InOrder, Logged, Alive, Covered, Justified, Selected, Exact, OpsOk, Ready, GoneOk;
    hide Base.Armed, Base.Wanted, Base.AllPersistent, Base.Listed, Base.Quiet;
    log, touched, gone := [], {}, {};
    var n := 0;
    var i := 0;
    ghost var expected, wanted := Expected(base, x => Ready(rd, wr, x)), Interest(base);
    EmptyLog(touched, expected);
    NothingSelected(rd, wr);
    NobodyGone(base);
    Bounded(base);
    while i <= base.maxfd
      invariant base.maxfd < base.evlist.Length == base.pollFds.Length
      invariant forall x :: x in base.regs ==> 0 <= x <= base.maxfd
      invariant base.Valid() && GoneOk(base, gone) && 0 <= i <= base.evlist.Length
      invariant n == |log| && touched == Touched(script, n)
      invariant Registered(old(base.regs)) <= Registered(base.regs) + gone
      invariant forall e :: e in base.regs.Values ==> e in old(base.regs.Values) || fresh(e)
      invariant forall x :: x !in touched ==> (x in base.regs <==> x in old(base.regs))
      invariant forall x :: x !in touched && x in base.regs ==>
        base.regs[x] == old(base.regs[x]) && base.regs[x].flags == old(base.regs[x].flags)
      invariant InOrder(log, i) && Alive(log)
      invariant Selected(log, rd, wr)
      invariant Covered(log, i, touched, expected) && Justified(log, touched, expected)
      decreases base.evlist.Length - i
    {
      var called;
      called, log, gone, touched := SelectTurn(base, i, rd, wr, script(n), expected, log, gone, touched);
      Bounded(base);
      if called {
        n := n + 1;
      }
      i := i + 1;
    }
    Later(log, i, base.evlist.Length);
    CoveredRest(log, i, touched, expected, base.evlist.Length);
    SelectedDue(rd, wr, wanted, expected);
    ExactCalls(log, touched, base.evlist.Length, expected, wanted, x => x in rd, x => x in wr);
  }

  lemma EmptyLog(touched: set<int>, expected: map<int, Flags>)
    ensures InOrder([], 0) && Alive([]) && Covered([], 0, touched, expected) && Justified([], touched, expected)
  {
  }

  /** Every descriptor below `below` that no handler has touched has had the call it should have. */
  ghost predicate Covered(log: seq<Call>, below: int, touched: set<int>, expected: map<int, Flags>) {
    forall fd :: 0 <= fd < below && fd !in touched && fd in expected && expected[fd] != {} ==>
      Logged(log, fd, expected[fd])
  }

  /** Every call at a descriptor no handler has touched is the call it should have. */
  ghost predicate Justified(log: seq<Call>, touched: set<int>, expected: map<int, Flags>) {
    forall k :: 0 <= k < |log| && log[k].fd !in touched ==>
      log[k].fd in expected && log[k].flags == expected[log[k].fd]
  }

  lemma JustifiedMore(log: seq<Call>, log': seq<Call>, i: int, touched: set<int>, touched': set<int>,
      expected: map<int, Flags>)
    requires Justified(log, touched, expected) && touched <= touched'
    requires log' == log || (|log'| == |log| + 1 && log'[..|log|] == log && log'[|log|].fd == i)
    requires log' != log && |log'| > |log| && i !in touched' ==> i in expected && log'[|log|].flags == expected[i]
    ensures Justified(log', touched', expected)
  {
    forall k | 0 <= k < |log'| && log'[k].fd !in touched'
      ensures log'[k].fd in expected && log'[k].flags == expected[log'[k].fd]
    {
      if k < |log| {
        assert log'[..|log|][k] == log[k];
      }
    }
  }

  /** The flags of the registered events. */
  ghost function Interest(base: Base): (m: map<int, Flags>)
    reads base, base.regs.Values
    ensures m.Keys == base.regs.Keys && forall fd :: fd in m ==> m[fd] == base.regs[fd].flags
  {
    map fd | fd in base.regs :: base.regs[fd].flags
  }

  /**
    An event no handler has touched is called with Read exactly if it wants to read and its descriptor is readable, with
    Write exactly if it wants to write and it is writable, and not at all if neither holds.
   */
  ghost predicate Exact(log: seq<Call>, touched: set<int>, wanted: map<int, Flags>, readable: int -> bool,
      writable: int -> bool) {
    forall fd :: fd in wanted && fd !in touched ==>
      if Due(wanted[fd], readable(fd), writable(fd)) == {} then NotCalled(log, fd)
      else Logged(log, fd, Due(wanted[fd], readable(fd), writable(fd)))
  }

  function Due(wanted: Flags, readable: bool, writable: bool): Flags {
    (if Read in wanted && readable then {Read} else {}) + (if Write in wanted && writable then {Write} else {})
  }

  ghost predicate NotCalled(log: seq<Call>, fd: int) {
    forall k :: 0 <= k < |log| ==> log[k].fd != fd
  }

  lemma ExactCalls(log: seq<Call>, touched: set<int>, n: int, expected: map<int, Flags>, wanted: map<int, Flags>,
      readable: int -> bool, writable: int -> bool)
    requires Covered(log, n, touched, expected) && Justified(log, touched, expected) && Alive(log)
    requires forall fd :: fd in wanted ==>
      0 <= fd < n && fd in expected && expected[fd] == Due(wanted[fd], readable(fd), writable(fd))
    ensures Exact(log, touched, wanted, readable, writable)
  {
    hide Logged, Due;
    forall fd | fd in wanted && fd !in touched && expected[fd] == {}
      ensures NotCalled(log, fd)
    {
    }
  }

  lemma CoveredMore(log: seq<Call>, log': seq<Call>, i: int, touched: set<int>, touched': set<int>,
      expected: map<int, Flags>)
    requires Covered(log, i, touched, expected) && touched <= touched'
    requires forall fd, flags :: Logged(log, fd, flags) ==> Logged(log', fd, flags)
    requires i in expected && i !in touched' && expected[i] != {} ==> Logged(log', i, expected[i])
    ensures Covered(log', i + 1, touched', expected)
  {
    hide Logged;
  }

  /** The call each registered event should have, by what the system reports about its descriptor. */
  ghost function Expected(base: Base, report: int -> Flags): (m: map<int, Flags>)
    reads base, base.regs.Values
    ensures m.Keys == base.regs.Keys && forall fd :: fd in m ==> m[fd] == report(fd) * base.regs[fd].flags
  {
    map fd | fd in base.regs :: report(fd) * base.regs[fd].flags
  }

  /** Beyond `maxfd` there is nothing to cover. */
  lemma CoveredRest(log: seq<Call>, i: int, touched: set<int>, expected: map<int, Flags>, n: int)
    requires Covered(log, i, touched, expected) && forall fd :: fd in expected && fd !in touched ==> fd < i
    ensures Covered(log, n, touched, expected)
  {
    hide Logged;
  }

  lemma SelectedDue(rd: set<int>, wr: set<int>, wanted: map<int, Flags>, expected: map<int, Flags>)
    requires forall fd :: fd in wanted ==> fd in expected && expected[fd] == Ready(rd, wr, fd) * wanted[fd]
    ensures forall fd :: fd in wanted ==> expected[fd] == Due(wanted[fd], fd in rd, fd in wr)
  {
  }

  /** What `select` reports was asked for by a registered event, so all of it is expected to be dispatched. */
  lemma ReadyIsExpected(base: Base, rd: set<int>, wr: set<int>, fd: int)
    requires base.Valid() && base.ops == Select && rd <= base.readFds && wr <= base.writeFds
    requires Ready(rd, wr, fd) != {}
    ensures var expected := Expected(base, x => Ready(rd, wr, x)); fd in expected && expected[fd] == Ready(rd, wr, fd)
  {
    assert base.Armed(fd) == base.Wanted(fd);
    assert Ready(rd, wr, fd) * base.regs[fd].flags == Ready(rd, wr, fd);
  }

  // ---- poll ----

  /** What the results of `poll` mean: hang-up and error count as both. */
  function Meaning(r: set<Result>): Flags {
    (if PollIn in r || PollHup in r || PollErr in r then {Read} else {})
    + (if PollOut in r || PollHup in r || PollErr in r then {Write} else {})
  }

  function Reported(results: nat -> set<Result>, fd: int): Flags {
    if fd >= 0 then Meaning(results(fd)) else {}
  }

  /** `poll` fills in the results of the entries up to `maxfd`. */
  method FillResults(base: Base, results: nat -> set<Result>)
    requires base.Valid() && base.ops == Poll
    modifies base.pollFds
    ensures base.Valid()
    ensures forall x :: 0 <= x <= base.maxfd ==> base.pollFds[x].revents == results(x)
    ensures forall x :: base.maxfd < x < base.pollFds.Length && x >= 0 ==> base.pollFds[x].revents == {}
  {
    hide Base.Listed, Base.AllPersistent, Base.Wanted;
    Bounded(base);
    var i := 0;
    while i <= base.maxfd
      invariant 0 <= i && base.maxfd < base.pollFds.Length
      invariant forall x :: 0 <= x < i && x <= base.maxfd ==> base.pollFds[x].revents == results(x)
      invariant forall x :: 0 <= x < base.pollFds.Length ==> base.pollFds[x].events == old(base.pollFds[x].events)
      invariant base.Quiet()
    {
      base.pollFds[i] := base.pollFds[i].(revents := results(i));
      i := i + 1;
    }
    forall x
      ensures base.Armed(x) == old(base.Armed(x))
    {
    }
  }

  /** The entries hold what `poll` reported, up to `bound`, except that those a handler has written may hold nothing. */
  ghost predicate Holding(fds: seq<PollFd>, results: nat -> set<Result>, bound: int, touched: set<int>) {
    && (forall x :: 0 <= x < |fds| && x <= bound && x !in touched ==> fds[x].revents == results(x))
    && (forall x :: 0 <= x < |fds| ==> fds[x].revents == {} || (x <= bound && fds[x].revents == results(x)))
  }

  lemma NobodyGone(base: Base)
    ensures GoneOk(base, {})
  {
  }

  lemma AllHeld(fds: seq<PollFd>, results: nat -> set<Result>, bound: int)
    requires forall x :: 0 <= x < |fds| && x <= bound ==> fds[x].revents == results(x)
    requires forall x :: 0 <= x < |fds| && x > bound ==> fds[x].revents == {}
    ensures Holding(fds, results, bound, {})
  {
  }

  lemma HeldResult(fds: seq<PollFd>, results: nat -> set<Result>, bound: int, touched: set<int>, i: nat)
    requires Holding(fds, results, bound, touched) && i < |fds|
    ensures i <= bound && i !in touched ==> fds[i].revents == results(i)
    ensures Meaning(fds[i].revents) == {} || (i <= bound && Meaning(fds[i].revents) == Meaning(results(i)))
  {
  }

  lemma StillHolding(fds: seq<PollFd>, fds': seq<PollFd>, results: nat -> set<Result>, bound: int, touched: set<int>,
      touched': set<int>)
    requires Holding(fds, results, bound, touched) && |fds| == |fds'| && touched <= touched'
    requires forall x :: 0 <= x < |fds| && x !in touched' ==> fds'[x] == fds[x]
    requires forall x :: 0 <= x < |fds| ==> Settled(fds[x], fds'[x])
    ensures Holding(fds', results, bound, touched')
  {
  }

  /** No call has flags that `poll` did not report. */
  ghost predicate Within(log: seq<Call>, results: nat -> set<Result>, bound: int) {
    forall k :: 0 <= k < |log| ==> log[k].fd <= bound && log[k].flags <= Reported(results, log[k].fd)
  }

  lemma NothingWithin(results: nat -> set<Result>, bound: int)
    ensures Within([], results, bound)
  {
  }

  lemma LogWithin(log0: seq<Call>, log: seq<Call>, results: nat -> set<Result>, bound: int, i: nat)
    requires Within(log0, results, bound)
    requires log == log0 || (i <= bound && |log| == |log0| + 1 && log[..|log0|] == log0 && log[|log0|].fd == i
                             && log[|log0|].flags <= Reported(results, i))
    ensures Within(log, results, bound)
  {
    hide Reported;
    forall k | 0 <= k < |log|
      ensures log[k].fd <= bound && log[k].flags <= Reported(results, log[k].fd)
    {
      if k < |log0| {
        assert log[..|log0|][k] == log0[k];
      }
    }
  }

  /** `poll` has found the descriptor readable, or writable; a hang-up and an error count as both. */
  predicate Readable(results: nat -> set<Result>, fd: int) {
    fd >= 0 && (PollIn in results(fd) || PollHup in results(fd) || PollErr in results(fd))
  }

  predicate Writable(results: nat -> set<Result>, fd: int) {
    fd >= 0 && (PollOut in results(fd) || PollHup in results(fd) || PollErr in results(fd))
  }

  lemma PolledDue(results: nat -> set<Result>, wanted: map<int, Flags>, expected: map<int, Flags>)
    requires forall fd :: fd in wanted ==> fd in expected && expected[fd] == Reported(results, fd) * wanted[fd]
    ensures forall fd :: fd in wanted ==> expected[fd] == Due(wanted[fd], Readable(results, fd), Writable(results, fd))
  {
  }

  /** What `poll` may report for an entry apart from hang-ups and errors. */
  function Askable(events: Flags): set<Result> {
    (if Read in events then {PollIn} else {}) + (if Write in events then {PollOut} else {})
  }

  /** When `poll` reports only what was asked for, all of it is armed, wanted and expected to be dispatched. */
  lemma PolledIsExpected(base: Base, results: nat -> set<Result>, fd: int)
    requires base.Valid() && base.ops == Poll && 0 <= fd < base.pollFds.Length
    requires results(fd) <= Askable(base.pollFds[fd].events) && results(fd) != {}
    ensures Reported(results, fd) <= base.Armed(fd)
    ensures var expected := Expected(base, x => Reported(results, x));
      fd in expected && expected[fd] == Reported(results, fd) != {}
  {
    assert base.Armed(fd) == base.Wanted(fd);
    assert PollIn in results(fd) || PollOut in results(fd);
    assert Reported(results, fd) * base.regs[fd].flags == Reported(results, fd);
  }

  /** One entry of the scan. */
  method PollTurn(base: Base, i: nat, results: nat -> set<Result>, ops: seq<Op>, ghost bound: int,
      ghost expected: map<int, Flags>, ghost log0: seq<Call>, ghost gone0: set<Event>, ghost touched0: set<int>)
      returns (called: bool, ghost log: seq<Call>, ghost gone: set<Event>, ghost touched: set<int>)
    requires base.Valid() && base.ops == Poll && GoneOk(base, gone0) && OpsOk(ops)
    requires i < base.evlist.Length == base.pollFds.Length && InOrder(log0, i) && Alive(log0)
    requires Holding(base.pollFds[..], results, bound, touched0) && Within(log0, results, bound)
    requires Covered(log0, i, touched0, expected) && Justified(log0, touched0, expected)
    requires forall x :: x in base.regs && x !in touched0 ==> x in expected
    requires i in expected && i !in touched0 ==>
      i in base.regs && i <= bound && expected[i] == Meaning(results(i)) * base.regs[i].flags
    modifies base, base.evlist, base.pollFds, base.regs.Values
    ensures base.Valid() && GoneOk(base, gone) && gone0 <= gone && InOrder(log, i + 1) && Alive(log)
    ensures |log| == |log0| + if called then 1 else 0
    ensures touched == if called then touched0 + FdsOf(ops) else touched0
    ensures Registered(old(base.regs)) <= Registered(base.regs) + gone
    ensures forall e :: e in base.regs.Values ==> e in old(base.regs.Values) || fresh(e)
    ensures forall x :: x !in touched ==> (x in base.regs <==> x in old(base.regs))
    ensures forall x :: x !in touched && x in base.regs ==>
      base.regs[x] == old(base.regs[x]) && base.regs[x].flags == old(base.regs[x].flags)
    ensures Holding(base.pollFds[..], results, bound, touched) && Within(log, results, bound)
    ensures Covered(log, i + 1, touched, expected) && Justified(log, touched, expected)
  {
    hide Justified, Within, Holding, InOrder, Logged, Alive, Covered, Meaning, OpsOk, Settled;
    hide Base.Armed, Base.Wanted, Base.AllPersistent, Base.Listed, Base.Quiet, GoneOk;
    ghost var fds0 := base.pollFds[..];
    HeldResult(fds0, results, bound, touched0, i);
    called, log, gone, touched := Turn(base, i, Meaning(base.pollFds[i].revents), ops, log0, gone0, touched0);
    StillHolding(fds0, base.pollFds[..], results, bound, touched0, touched);
    LogWithin(log0, log, results, bound, i);
    CoveredMore(log0, log, i, touched0, touched, expected);
    JustifiedMore(log0, log, i, touched0, touched, expected);
  }

  /** The scan of `evpoll_loop`. */
  method PollScan(base: Base, results: nat -> set<Result>, script: nat -> seq<Op>)
      returns (ghost log: seq<Call>, ghost touched: set<int>, ghost gone: set<Event>)
    requires base.Valid() && base.ops == Poll && forall k :: OpsOk(script(k))
    requires Holding(base.pollFds[..], results, base.maxfd, {})
    modifies base, base.evlist, base.pollFds, base.regs.Values
    ensures base.Valid() && touched == Touched(script, |log|)
    ensures GoneOk(base, gone) && Registered(old(base.regs)) <= Registered(base.regs) + gone
    ensures Covered(log, base.evlist.Length, touched, old(Expected(base, x => Reported(results, x))))
    ensures InOrder(log, base.evlist.Length) && Alive(log)
    ensures Within(log, results, old(base.maxfd))
    ensures Exact(log, touched, old(Interest(base)), x => Readable(results, x), x => Writable(results, x))
  {
    hide Expected, Interest, FdsOf, Registered;
    hide Within, Holding, InOrder, Logged, Alive, Covered, Justified, Exact, Meaning, OpsOk, Settled;
    hide Base.Armed, Base.Wanted, Base.AllPersistent, Base.Listed, Base.Quiet, GoneOk;
    log, touched, gone := [], {}, {};
    var n := 0;
    var i := 0;
    ghost var expected, wanted := Expected(base, x => Reported(results, x)), Interest(base);
    ghost var bound := base.maxfd;
    EmptyLog(touched, expected);
    NothingWithin(results, bound);
    NobodyGone(base);
    Bounded(base);
    while i <= base.maxfd
      invariant base.maxfd < base.evlist.Length == base.pollFds.Length
      invariant forall x :: x in base.regs ==> 0 <= x <= base.maxfd
      invariant base.Valid() && GoneOk(base, gone) && 0 <= i <= base.evlist.Length
      invariant n == |log| && touched == Touched(script, n)
      invariant Registered(old(base.regs)) <= Registered(base.regs) + gone
      invariant forall e :: e in base.regs.Values ==> e in old(base.regs.Values) || fresh(e)
      invariant forall x :: x !in touched ==> (x in base.regs <==> x in old(base.regs))
      invariant forall x :: x !in touched && x in base.regs ==>
        base.regs[x] == old(base.regs[x]) && base.regs[x].flags == old(base.regs[x].flags) && x <= bound
      invariant Holding(base.pollFds[..], results, bound, touched)
      invariant InOrder(log, i) && Alive(log)
      invariant Within(log, results, bound)
      invariant Covered(log, i, touched, expected) && Justified(log, touched, expected)
      decreases base.evlist.Length - i
    {
      var called;
      called, log, gone, touched := PollTurn(base, i, results, script(n), bound, expected, log, gone, touched);
      Bounded(base);
      if called {
        n := n + 1;
      }
      i := i + 1;
    }
    Later(log, i, base.evlist.Length);
    CoveredRest(log, i, touched, expected, base.evlist.Length);
    PolledDue(results, wanted, expected);
    ExactCalls(log, touched, base.evlist.Length, expected, wanted, x => Readable(results, x),
               x => Writable(results, x));
  }

  /** `evpoll_loop` once `poll` has returned, with the same promises. */
  method PollLoop(base: Base, results: nat -> set<Result>, script: nat -> seq<Op>)
      returns (ghost log: seq<Call>, ghost touched: set<int>, ghost gone: set<Event>)
    requires base.Valid() && base.ops == Poll && forall k :: OpsOk(script(k))
    modifies base, base.evlist, base.pollFds, base.regs.Values
    ensures base.Valid() && touched == Touched(script, |log|)
    ensures GoneOk(base, gone) && Registered(old(base.regs)) <= Registered(base.regs) + gone
    ensures Covered(log, base.evlist.Length, touched, old(Expected(base, x => Reported(results, x))))
    ensures InOrder(log, base.evlist.Length) && Alive(log)
    ensures Within(log, results, old(base.maxfd))
    ensures Exact(log, touched, old(Interest(base)), x => Readable(results, x), x => Writable(results, x))
  {
    hide Within, Holding, InOrder, Logged, Alive, Covered, Exact, Meaning, OpsOk;
    hide Base.Armed, Base.Wanted, Base.AllPersistent, Base.Listed, Base.Quiet;
    FillResults(base, results);
    AllHeld(base.pollFds[..], results, base.maxfd);
    log, touched, gone := PollScan(base, results, script);
  }
}
