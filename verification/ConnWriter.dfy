/**
  The sending side of a connection as a state machine: pushers, the writer (`conn_outevent_handler`,
  `conn_output_handler`, `conn_write_handler`, `conn_send_handler`), and closing. Each step is one access to state
  that several threads share, so the steps of pushers and writer interleave in every order. The writer's handlers all
  run on one daemon thread.
 */
module ConnWriter {
  import opened Runs

  /**
    A queued chunk: the bytes left, none for the sentinel of `conn_over`; `end` is how much had been pushed with it.
   */
  datatype Item = Item(left: seq<int>, end: nat)

  /** Where the writer is; `msg` tells a message from write-readiness, `over` that a sentinel has been taken off. */
  datatype Pc =
    | Idle
    | Started(msg: bool)
    | Counting(msg: bool)
    | AtHead(msg: bool)
    | Writing(msg: bool)
    | Popping(msg: bool, over: bool)
    | Second(msg: bool, over: bool)
    | Ending(msg: bool, over: bool)
    | DelEmpty(msg: bool)
    | DelEnd(msg: bool)
    | PostEnd(msg: bool)
    | DelOver(msg: bool)
    | Shutting(msg: bool)
    | Done(msg: bool)
    | Rearm
    | Failing
    | FailShut

  datatype Cause = NotClosed | BySentinel(end: nat) | Otherwise

  /**
    `whileSend` is the SB_WHILE_SEND service flag; `armed` write interest; `outMsgs` and `endMsgs` queued messages;
    `shutMsgs` all SHUT messages ever posted; `pending` the pushers between their push and their post. `pushed`,
    `wire` and `cause` are history.
   */
  datatype State = State(whileSend: bool, queue: seq<Item>, armed: bool, outMsgs: nat, endMsgs: nat, shutMsgs: nat,
                         closed: bool, pending: nat, pc: Pc, sentinel: nat,
                         pushed: seq<int>, wire: seq<int>, cause: Cause)

  ghost predicate Init(s: State) {
    && s.queue == [] && !s.armed && s.outMsgs == 0 && s.endMsgs == 0 && s.shutMsgs == 0 && !s.closed && s.pending == 0
    && s.pc == Idle && s.pushed == [] && s.wire == [] && s.cause == NotClosed
  }

  // ---- Pushers and messages ----

  /** `SENDQPUSH`: a pusher that found the connection open, perhaps some time ago. No bytes is `conn_over_chunk`. */
  ghost predicate PushData(s: State, data: seq<int>, s': State) {
    s' == s.(queue := s.queue + [Item(data, |s.pushed| + |data|)], pushed := s.pushed + data, pending := s.pending + 1)
  }

  ghost predicate Push(s: State, s': State) {
    exists data: seq<int> :: PushData(s, data, s')
  }

  /** `CONN_OUTEVENT_MESSAGE` */
  ghost predicate Post(s: State, s': State) {
    s.pending > 0 && s' == s.(pending := s.pending - 1, outMsgs := s.outMsgs + 1)
  }

  /** `conn_end_handler`, on another thread: it posts a message of its own when the queue is not empty. */
  ghost predicate HandleEnd(s: State, s': State) {
    && s.endMsgs > 0
    && (if !s.closed && s.queue != [] then s' == s.(endMsgs := s.endMsgs - 1, pending := s.pending + 1)
        else s' == s.(endMsgs := s.endMsgs - 1))
  }

  // ---- Closing ----

  /** `conn_shut` under the mutex: only the first one posts a message. */
  ghost predicate Shut(s: State, cause: Cause, next: Pc, s': State) {
    if s.closed then s' == s.(pc := next)
    else s' == s.(closed := true, shutMsgs := s.shutMsgs + 1, cause := cause, pc := next)
  }

  ghost predicate CloseByOther(s: State, s': State) {
    Shut(s, Otherwise, s.pc, s')
  }

  /** `conn_terminate` sets the state without a message. */
  ghost predicate Terminate(s: State, s': State) {
    if s.closed then s' == s else s' == s.(closed := true, cause := Otherwise)
  }

  // ---- The writer ----

  /** `conn_outevent_handler` starts with the test of SENDQTOTAL. */
  ghost predicate TakeOut(s: State, s': State) {
    && s.pc == Idle && s.outMsgs > 0
    && (if s.queue == [] then s' == s.(outMsgs := s.outMsgs - 1)
        else s' == s.(outMsgs := s.outMsgs - 1, pc := Started(true)))
  }

  ghost predicate WriteReady(s: State, s': State) {
    s.pc == Idle && s.armed && s' == s.(pc := Started(false))
  }

  /** CONN_CHECK_RET, the test of SENDQTOTAL, and the status of the first chunk. */
  ghost predicate Enter(s: State, s': State) {
    || (s.pc.Started? && (if s.closed then s' == s.(pc := Failing) else s' == s.(pc := Counting(s.pc.msg))))
    || (s.pc.Counting? &&
          (if s.queue == [] then s' == s.(pc := DelEmpty(s.pc.msg)) else s' == s.(pc := AtHead(s.pc.msg))))
    || (s.pc.AtHead? && s.queue != [] &&
          (if s.queue[0].left == [] then s' == s.(pc := Popping(s.pc.msg, true))
           else s' == s.(pc := Writing(s.pc.msg))))
  }

  /** A write that would block, or the rest after a write that left something: `conn_send_handler` returns at once. */
  function AfterPart(s: State): Pc
    requires s.pc.Writing?
  {
    if s.whileSend then Done(s.pc.msg) else Second(s.pc.msg, false)
  }

  /** A write takes 1 to `left` bytes, would block, or fails. */
  ghost predicate WriteSome(s: State, n: nat, s': State) {
    && s.pc.Writing? && s.queue != [] && 1 <= n <= |s.queue[0].left|
    && var rest := [s.queue[0].(left := s.queue[0].left[n..])] + s.queue[1..];
       if n == |s.queue[0].left|
       then s' == s.(wire := s.wire + s.queue[0].left[..n], queue := rest, pc := Popping(s.pc.msg, false))
       else s' == s.(wire := s.wire + s.queue[0].left[..n], queue := rest, pc := AfterPart(s))
  }

  ghost predicate Write(s: State, s': State) {
    || (s.pc.Writing? && (s' == s.(pc := AfterPart(s)) || s' == s.(pc := Failing)))
    || exists n: nat :: WriteSome(s, n, s')
  }

  /** A finished chunk comes off the queue; `conn_write_handler` then also takes off a sentinel behind it. */
  ghost predicate Pop(s: State, s': State) {
    || (s.pc.Popping? && s.queue != [] &&
          (if s.pc.over then s' == s.(queue := s.queue[1..], sentinel := s.queue[0].end, pc := AfterPop(s))
           else s' == s.(queue := s.queue[1..], pc := AfterPop(s))))
    || (s.pc.Second? &&
          (if s.queue != [] && s.queue[0].left == []
           then s' == s.(queue := s.queue[1..], sentinel := s.queue[0].end, pc := Ending(s.pc.msg, true))
           else s' == s.(pc := Ending(s.pc.msg, s.pc.over))))
  }

  function AfterPop(s: State): Pc
    requires s.pc.Popping?
  {
    if s.whileSend then Ending(s.pc.msg, s.pc.over) else Second(s.pc.msg, s.pc.over)
  }

  /** The end of both handlers: stop writing when the queue is empty, close after a sentinel. */
  ghost predicate Finish(s: State, s': State) {
    || (s.pc.Ending? &&
          (if s.pc.over then s' == s.(pc := DelOver(s.pc.msg))
           else if s.queue == [] then s' == s.(pc := DelEnd(s.pc.msg))
           else s' == s.(pc := Done(s.pc.msg))))
    || (s.pc.DelEmpty? && s' == s.(armed := false, pc := Done(s.pc.msg)))
    || (s.pc.DelEnd? && s' == s.(armed := false, pc := PostEnd(s.pc.msg)))
    || (s.pc.PostEnd? &&
          (if s.closed then s' == s.(pc := Done(s.pc.msg))
           else s' == s.(endMsgs := s.endMsgs + 1, pc := Done(s.pc.msg))))
    || (s.pc.DelOver? && s' == s.(armed := false, pc := Shutting(s.pc.msg)))
    || (s.pc.Shutting? && Shut(s, BySentinel(s.sentinel), Done(s.pc.msg), s'))
  }

  /** Back in the event or message handler: after a message, write interest is armed while there is something left. */
  ghost predicate Return(s: State, s': State) {
    || (s.pc.Done? && (if s.pc.msg && s.queue != [] then s' == s.(pc := Rearm) else s' == s.(pc := Idle)))
    || (s.pc.Rearm? && s' == s.(armed := true, pc := Idle))
    || (s.pc.Failing? && s' == s.(armed := false, pc := FailShut))
    || (s.pc.FailShut? && Shut(s, Otherwise, Idle, s'))
  }

  ghost predicate OthersStep(s: State, s': State) {
    Push(s, s') || Post(s, s') || HandleEnd(s, s') || CloseByOther(s, s') || Terminate(s, s')
  }

  ghost predicate WriterStep(s: State, s': State) {
    || TakeOut(s, s') || WriteReady(s, s') || Enter(s, s') || Write(s, s') || Pop(s, s') || Finish(s, s')
    || Return(s, s')
  }

  ghost predicate Next(s: State, s': State) {
    OthersStep(s, s') || WriterStep(s, s')
  }

  // ---- No lost wakeup ----

  /** Somebody still has to tell the writer. */
  predicate Told(s: State) {
    s.outMsgs > 0 || s.pending > 0
  }

  /**
    At these places the writer has seen the queue empty since the last message, or has nothing armed to fall back on.
   */
  ghost predicate WakeupInv(s: State) {
    && (s.pc == Idle && !s.closed && s.queue != [] ==> s.armed || Told(s))
    && (s.pc.Started? || s.pc.Counting? || s.pc.AtHead? || s.pc.Writing? || s.pc.Popping? || AfterChunk(s.pc) ==>
          s.pc.msg || s.armed)
    && (s.pc.DelEmpty? || s.pc.DelEnd? || s.pc.PostEnd? ==> s.queue == [] || Told(s))
    && (s.pc.Done? && !s.pc.msg && !s.closed && s.queue != [] ==> s.armed || Told(s))
  }

  predicate AfterChunk(pc: Pc) {
    pc.Second? || pc.Ending?
  }

  lemma WakeupStart(s: State)
    requires Init(s)
    ensures WakeupInv(s)
  {
  }

  lemma WakeupOthers(s: State, s': State)
    requires WakeupInv(s) && OthersStep(s, s')
    ensures WakeupInv(s')
  {
  }

  lemma WakeupEntering(s: State, s': State)
    requires WakeupInv(s) && (TakeOut(s, s') || WriteReady(s, s') || Enter(s, s'))
    ensures WakeupInv(s')
  {
  }

  lemma WakeupWriting(s: State, s': State)
    requires WakeupInv(s) && (Write(s, s') || Pop(s, s'))
    ensures WakeupInv(s')
  {
  }

  lemma WakeupFinishing(s: State, s': State)
    requires WakeupInv(s) && (Finish(s, s') || Return(s, s'))
    ensures WakeupInv(s')
  {
  }

  lemma WakeupKept(s: State, s': State)
    requires WakeupInv(s) && Next(s, s')
    ensures WakeupInv(s')
  {
    hide WakeupInv, OthersStep, TakeOut, WriteReady, Enter, Write, Pop, Finish, Return;
    if OthersStep(s, s') {
      WakeupOthers(s, s');
    } else if Finish(s, s') || Return(s, s') {
      WakeupFinishing(s, s');
    } else if Write(s, s') || Pop(s, s') {
      WakeupWriting(s, s');
    } else {
      WakeupEntering(s, s');
    }
  }

  // ---- Conservation and graceful close ----

  function Flat(queue: seq<Item>): seq<int> {
    if queue == [] then [] else queue[0].left + Flat(queue[1..])
  }

  /** Every queued chunk ends where it was pushed to. */
  ghost predicate EndsFit(queue: seq<Item>, sent: nat)
    decreases |queue|
  {
    queue != [] ==> queue[0].end == sent + |queue[0].left| && EndsFit(queue[1..], queue[0].end)
  }

  lemma {:induction false} FlatAppend(queue: seq<Item>, item: Item)
    ensures Flat(queue + [item]) == Flat(queue) + item.left
  {
    if queue == [] {
      assert queue + [item] == [item] && [item][1..] == [];
      assert item.left + [] == item.left;
    } else {
      FlatAppend(queue[1..], item);
      assert (queue + [item])[1..] == queue[1..] + [item];
      assert queue[0].left + (Flat(queue[1..]) + item.left) == (queue[0].left + Flat(queue[1..])) + item.left;
    }
  }

  lemma {:induction false} EndsAppend(queue: seq<Item>, sent: nat, item: Item)
    requires EndsFit(queue, sent) && item.end == sent + |Flat(queue)| + |item.left|
    ensures EndsFit(queue + [item], sent)
    decreases |queue|
  {
    if queue == [] {
      assert queue + [item] == [item] && [item][1..] == [];
    } else {
      EndsAppend(queue[1..], queue[0].end, item);
      assert (queue + [item])[1..] == queue[1..] + [item];
    }
  }

  /** Sending the first bytes of the first chunk, all of them or not. */
  lemma SendPart(queue: seq<Item>, sent: nat, n: nat)
    requires queue != [] && EndsFit(queue, sent) && n <= |queue[0].left|
    ensures var queue' := [queue[0].(left := queue[0].left[n..])] + queue[1..];
      EndsFit(queue', sent + n) && Flat(queue) == queue[0].left[..n] + Flat(queue')
  {
    var queue' := [queue[0].(left := queue[0].left[n..])] + queue[1..];
    assert queue'[1..] == queue[1..];
    assert queue[0].left == queue[0].left[..n] + queue[0].left[n..];
    assert queue[0].left[..n] + (queue[0].left[n..] + Flat(queue[1..])) == queue[0].left + Flat(queue[1..]);
  }

  /**
    What was pushed is on the wire or still queued, in order; and a sentinel is reached only with all before it sent.
   */
  ghost predicate DataInv(s: State) {
    && s.wire + Flat(s.queue) == s.pushed && EndsFit(s.queue, |s.wire|)
    && (s.pc.AtHead? || s.pc.Writing? || s.pc.Popping? ==> s.queue != [])
    && (s.pc.Popping? ==> s.queue[0].left == [])
    && (AfterSentinel(s.pc) ==> |s.wire| == s.sentinel)
    && (s.cause.BySentinel? ==> |s.wire| == s.cause.end && NoMoreWrites(s.pc) && s.closed)
  }

  predicate AfterSentinel(pc: Pc) {
    (pc.Second? && pc.over) || (pc.Ending? && pc.over) || pc.DelOver? || pc.Shutting?
  }

  predicate NoMoreWrites(pc: Pc) {
    pc.Idle? || pc.Started? || pc.Done? || pc.Rearm? || pc.Failing? || pc.FailShut?
  }

  lemma DataStart(s: State)
    requires Init(s)
    ensures DataInv(s)
  {
  }

  lemma DataKept(s: State, s': State)
    requires DataInv(s) && Next(s, s')
    ensures DataInv(s')
  {
    hide DataInv, Push, Post, HandleEnd, CloseByOther, Terminate, TakeOut, WriteReady, Enter, Write, Pop, Finish,
      Return;
    if data: seq<int> :| PushData(s, data, s') {
      PushKeepsData(s, data, s');
    } else if Write(s, s') {
      WriteKeepsData(s, s');
    } else if Pop(s, s') {
      PopKeepsData(s, s');
    } else if OthersStep(s, s') {
      SomeData(s, s');
      OthersKeepData(s, s');
    } else if Finish(s, s') {
      FinishKeepsData(s, s');
    } else if Return(s, s') {
      ReturnKeepsData(s, s');
    } else {
      EnterKeepsData(s, s');
    }
  }

  lemma SomeData(s: State, s': State)
    ensures Push(s, s') <==> exists data: seq<int> :: PushData(s, data, s')
  {
  }

  lemma OthersKeepData(s: State, s': State)
    requires DataInv(s) && (Post(s, s') || HandleEnd(s, s') || CloseByOther(s, s') || Terminate(s, s'))
    ensures DataInv(s')
  {
    hide Flat, EndsFit;
  }

  lemma EnterKeepsData(s: State, s': State)
    requires DataInv(s) && (TakeOut(s, s') || WriteReady(s, s') || Enter(s, s'))
    ensures DataInv(s')
  {
    hide Flat, EndsFit;
  }

  lemma FinishKeepsData(s: State, s': State)
    requires DataInv(s) && Finish(s, s')
    ensures DataInv(s')
  {
    hide Flat, EndsFit;
  }

  lemma ReturnKeepsData(s: State, s': State)
    requires DataInv(s) && Return(s, s')
    ensures DataInv(s')
  {
    hide Flat, EndsFit;
  }

  lemma PushKeepsData(s: State, data: seq<int>, s': State)
    requires DataInv(s) && PushData(s, data, s')
    ensures DataInv(s')
  {
    hide Flat, EndsFit;
    var item := Item(data, |s.pushed| + |data|);
    FlatAppend(s.queue, item);
    EndsAppend(s.queue, |s.wire|, item);
    assert s.wire + (Flat(s.queue) + data) == (s.wire + Flat(s.queue)) + data;
  }

  lemma WriteKeepsData(s: State, s': State)
    requires DataInv(s) && Write(s, s')
    ensures DataInv(s')
  {
    hide Flat, EndsFit;
    if n: nat :| WriteSome(s, n, s') {
      SendPart(s.queue, |s.wire|, n);
      assert s.wire + (s.queue[0].left[..n] + Flat(s'.queue)) == (s.wire + s.queue[0].left[..n]) + Flat(s'.queue);
    }
  }

  lemma PopKeepsData(s: State, s': State)
    requires DataInv(s) && Pop(s, s')
    ensures DataInv(s')
  {
    hide Flat, EndsFit;
    if s.queue != [] {
      TakeEmpty(s.queue, |s.wire|);
    }
  }

  /** Taking an empty chunk off the queue. */
  lemma TakeEmpty(queue: seq<Item>, sent: nat)
    requires queue != [] && EndsFit(queue, sent)
    ensures queue[0].left == [] ==> queue[0].end == sent && EndsFit(queue[1..], sent) && Flat(queue) == Flat(queue[1..])
  {
    if queue[0].left == [] {
      assert [] + Flat(queue[1..]) == Flat(queue[1..]);
    }
  }

  // ---- One SHUT message ----

  ghost predicate ShutInv(s: State) {
    s.shutMsgs <= 1 && (s.shutMsgs == 1 ==> s.closed) && (s.cause == NotClosed <==> !s.closed)
  }

  lemma ShutByOthers(s: State, s': State)
    requires ShutInv(s) && OthersStep(s, s')
    ensures ShutInv(s') && (s.closed ==> s'.closed && s'.cause == s.cause)
  {
  }

  lemma ShutByEntering(s: State, s': State)
    requires ShutInv(s) && (TakeOut(s, s') || WriteReady(s, s') || Enter(s, s'))
    ensures ShutInv(s') && s'.closed == s.closed && s'.cause == s.cause
  {
  }

  lemma ShutByWriting(s: State, s': State)
    requires ShutInv(s) && (Write(s, s') || Pop(s, s'))
    ensures ShutInv(s') && s'.closed == s.closed && s'.cause == s.cause
  {
  }

  lemma ShutByFinishing(s: State, s': State)
    requires ShutInv(s) && (Finish(s, s') || Return(s, s'))
    ensures ShutInv(s') && (s.closed ==> s'.closed && s'.cause == s.cause)
  {
  }

  /** Closed once, for one reason. */
  lemma ShutKept(s: State, s': State)
    requires ShutInv(s) && Next(s, s')
    ensures ShutInv(s') && (s.closed ==> s'.closed && s'.cause == s.cause)
  {
    hide ShutInv, OthersStep, TakeOut, WriteReady, Enter, Write, Pop, Finish, Return;
    if OthersStep(s, s') {
      ShutByOthers(s, s');
    } else if Finish(s, s') || Return(s, s') {
      ShutByFinishing(s, s');
    } else if Write(s, s') || Pop(s, s') {
      ShutByWriting(s, s');
    } else {
      ShutByEntering(s, s');
    }
  }

  // ---- Runs ----

  ghost predicate IsRun(run: seq<State>) {
    run != [] && Init(run[0]) && Stepwise(Next, run, 0)
  }

  lemma {:induction false} RunKeeps(run: seq<State>, i: nat)
    requires IsRun(run) && i < |run|
    ensures WakeupInv(run[i]) && DataInv(run[i]) && ShutInv(run[i])
  {
    hide WakeupInv, DataInv, ShutInv, Next, Init;
    if i == 0 {
      WakeupStart(run[0]);
      DataStart(run[0]);
      ShutStart(run[0]);
    } else {
      RunKeeps(run, i - 1);
      assert Next(run[i - 1], run[i - 1 + 1]);
      WakeupKept(run[i - 1], run[i]);
      DataKept(run[i - 1], run[i]);
      ShutKept(run[i - 1], run[i]);
    }
  }

  lemma ShutStart(s: State)
    requires Init(s)
    ensures ShutInv(s)
  {
  }

  /** While the connection is open, data in the queue always has somebody who will make the writer look at it. */
  lemma NoLostWakeup(run: seq<State>, i: nat)
    requires IsRun(run) && i < |run| && !run[i].closed && run[i].queue != []
    ensures run[i].armed || run[i].outMsgs > 0 || run[i].pending > 0 || run[i].pc != Idle
  {
    hide DataInv, ShutInv;
    RunKeeps(run, i);
  }

  /** No byte is lost, invented or reordered. */
  lemma BytesConserved(run: seq<State>, i: nat)
    requires IsRun(run) && i < |run|
    ensures run[i].wire + Flat(run[i].queue) == run[i].pushed
  {
    hide WakeupInv, ShutInv;
    RunKeeps(run, i);
  }

  // ---- Whose sentinel closes ----

  /** How much had been pushed at each call of `conn_over_chunk` before step `i`. */
  ghost function Overs(run: seq<State>, i: nat): set<nat>
    requires i < |run|
  {
    if i == 0 then {}
    else Overs(run, i - 1) + if PushData(run[i - 1], [], run[i]) then {|run[i - 1].pushed|} else {}
  }

  lemma {:induction false} OverAt(run: seq<State>, i: nat, end: nat) returns (j: nat)
    requires i < |run| && end in Overs(run, i)
    ensures j < i && PushData(run[j], [], run[j + 1]) && |run[j].pushed| == end
  {
    hide PushData;
    if end in Overs(run, i - 1) {
      j := OverAt(run, i - 1, end);
    } else {
      j := i - 1;
    }
  }

  /** Every sentinel, queued, taken off, or the cause of the close, comes from one of these calls. */
  ghost predicate SentinelInv(s: State, overs: set<nat>) {
    && (forall k :: 0 <= k < |s.queue| && s.queue[k].left == [] && (k > 0 || !s.pc.Popping? || s.pc.over) ==>
          s.queue[k].end in overs)
    && (AfterSentinel(s.pc) ==> s.sentinel in overs)
    && (s.cause.BySentinel? ==> s.cause.end in overs)
  }

  lemma SentinelByPush(s: State, data: seq<int>, s': State, overs: set<nat>)
    requires SentinelInv(s, overs) && DataInv(s) && PushData(s, data, s')
    requires PushData(s, [], s') ==> |s.pushed| in overs
    ensures SentinelInv(s', overs)
  {
    hide Flat, EndsFit;
    if data == [] {
      assert s.pushed + [] == s.pushed;
    }
  }

  lemma SentinelByOthers(s: State, s': State, overs: set<nat>)
    requires SentinelInv(s, overs)
    requires Post(s, s') || HandleEnd(s, s') || CloseByOther(s, s') || Terminate(s, s') || TakeOut(s, s')
      || WriteReady(s, s')
    ensures SentinelInv(s', overs)
  {
  }

  lemma SentinelByEntering(s: State, s': State, overs: set<nat>)
    requires SentinelInv(s, overs) && Enter(s, s')
    ensures SentinelInv(s', overs)
  {
  }

  lemma SentinelByFinishing(s: State, s': State, overs: set<nat>)
    requires SentinelInv(s, overs) && Finish(s, s')
    ensures SentinelInv(s', overs)
  {
  }

  lemma SentinelByReturning(s: State, s': State, overs: set<nat>)
    requires SentinelInv(s, overs) && Return(s, s')
    ensures SentinelInv(s', overs)
  {
  }

  lemma SentinelByWriting(s: State, s': State, overs: set<nat>)
    requires SentinelInv(s, overs) && DataInv(s) && Write(s, s')
    ensures SentinelInv(s', overs)
  {
    hide Flat, EndsFit;
  }

  lemma SentinelByPopping(s: State, s': State, overs: set<nat>)
    requires SentinelInv(s, overs) && DataInv(s) && Pop(s, s')
    ensures SentinelInv(s', overs)
  {
    hide Flat, EndsFit;
  }

  lemma {:induction false} SentinelsKept(run: seq<State>, i: nat)
    requires IsRun(run) && i < |run|
    ensures SentinelInv(run[i], Overs(run, i))
  {
    hide SentinelInv, PushData, Post, HandleEnd, CloseByOther, Terminate, TakeOut, WriteReady, Enter, Write, Pop,
      Finish, Return;
    hide WakeupInv, DataInv, ShutInv;
    if i == 0 {
      SentinelStart(run[0]);
    } else {
      SentinelsKept(run, i - 1);
      RunKeeps(run, i - 1);
      var s, s', overs := run[i - 1], run[i - 1 + 1], Overs(run, i);
      assert Next(s, s');
      MoreOvers(s, Overs(run, i - 1), overs);
      if data: seq<int> :| PushData(s, data, s') {
        SentinelByPush(s, data, s', overs);
      } else if Write(s, s') {
        SentinelByWriting(s, s', overs);
      } else if Pop(s, s') {
        SentinelByPopping(s, s', overs);
      } else if Enter(s, s') {
        SentinelByEntering(s, s', overs);
      } else if Finish(s, s') {
        SentinelByFinishing(s, s', overs);
      } else if Return(s, s') {
        SentinelByReturning(s, s', overs);
      } else {
        SentinelByOthers(s, s', overs);
      }
    }
  }

  lemma SentinelStart(s: State)
    requires Init(s)
    ensures SentinelInv(s, {})
  {
  }

  lemma MoreOvers(s: State, overs: set<nat>, overs': set<nat>)
    requires SentinelInv(s, overs) && overs <= overs'
    ensures SentinelInv(s, overs')
  {
  }

  lemma {:induction false} PushedGrows(run: seq<State>, j: nat, i: nat)
    requires IsRun(run) && j <= i < |run|
    ensures run[j].pushed <= run[i].pushed
    decreases i
  {
    hide Next, Init;
    if j < i {
      PushedGrows(run, j, i - 1);
      PushedStep(run[i - 1], run[i - 1 + 1]);
    }
  }

  lemma PushedStep(s: State, s': State)
    requires Next(s, s')
    ensures s.pushed <= s'.pushed
  {
    hide OthersStep, WriterStep;
    if OthersStep(s, s') {
      PushedByOthers(s, s');
    } else {
      PushedByWriter(s, s');
    }
  }

  lemma PushedByOthers(s: State, s': State)
    requires OthersStep(s, s')
    ensures s.pushed <= s'.pushed
  {
  }

  lemma PushedByWriter(s: State, s': State)
    requires WriterStep(s, s')
    ensures s.pushed == s'.pushed
  {
    hide Enter, Write, Pop;
    if Enter(s, s') || Write(s, s') || Pop(s, s') {
      PushedByWriting(s, s');
    }
  }

  lemma PushedByWriting(s: State, s': State)
    requires Enter(s, s') || Write(s, s') || Pop(s, s')
    ensures s.pushed == s'.pushed
  {
  }

  /**
    A queued sentinel marks how much had been pushed when `conn_over_chunk` put it there; a chunk without bytes is a
    sentinel unless the writer has just sent the rest of it.
   */
  lemma SentinelPosition(run: seq<State>, i: nat, k: nat) returns (j: nat)
    requires IsRun(run) && i < |run| && k < |run[i].queue| && run[i].queue[k].left == []
    requires k > 0 || !run[i].pc.Popping? || run[i].pc.over
    ensures j < i && PushData(run[j], [], run[j + 1]) && run[i].queue[k].end == |run[j].pushed|
    ensures run[j].pushed <= run[i].pushed
  {
    hide Next, Init, PushData;
    SentinelsKept(run, i);
    j := OverAt(run, i, run[i].queue[k].end);
    PushedGrows(run, j, i);
  }

  /**
    When a sentinel has closed the connection, exactly the bytes pushed before that sentinel have been sent: some call
    of `conn_over_chunk` found pushed what is now on the wire.
   */
  lemma GracefulClose(run: seq<State>, i: nat) returns (j: nat)
    requires IsRun(run) && i < |run| && run[i].cause.BySentinel?
    ensures j < i && PushData(run[j], [], run[j + 1]) && run[i].wire == run[j].pushed <= run[i].pushed
  {
    hide WakeupInv, ShutInv, Flat, Next, Init, PushData;
    RunKeeps(run, i);
    SentinelsKept(run, i);
    j := OverAt(run, i, run[i].cause.end);
    PushedGrows(run, j, i);
    var s := run[i];
    assert (s.wire + Flat(s.queue))[..|s.wire|] == s.wire;
  }

  lemma OneShutMessage(run: seq<State>, i: nat)
    requires IsRun(run) && i < |run|
    ensures run[i].shutMsgs <= 1
  {
    hide WakeupInv, DataInv;
    RunKeeps(run, i);
  }
}
