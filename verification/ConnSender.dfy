/**
  The sending handlers of `conn.c` as methods on one connection, each run without interruption. Every method extends a
  ghost run of the state machine in ConnWriter by exactly the steps its code takes, so what is proved of all runs,
  with the steps of other threads in between, is about these bodies.
 */
module ConnSender {
  import opened Runs
  import opened ConnWriter

  /** What the socket does with a write: take up to `room` bytes, block, or fail. */
  datatype Socket = Takes(room: nat) | Blocks | Breaks

  predicate SocketOk(sock: Socket) {
    sock.Takes? ==> sock.room > 0
  }

  /** The result of writing `size` bytes. */
  function Accepted(sock: Socket, size: nat): (n: int)
    ensures sock.Takes? ==> 0 <= n <= size && n <= sock.room && (n == size || n == sock.room)
    ensures sock.Blocks? ==> n == 0
    ensures sock.Breaks? ==> n < 0
  {
    match sock
    case Takes(room) => if room < size then room else size
    case Blocks => 0
    case Breaks => -1
  }

  /** The queue after one chunk has been looked at: a sentinel goes, and so does a chunk the socket took the rest of. */
  function Sent(queue: seq<seq<int>>, sock: Socket): seq<seq<int>>
    requires SocketOk(sock) && queue != []
  {
    var n := Accepted(sock, |queue[0]|);
    if queue[0] == [] then queue[1..]
    else if n <= 0 then queue
    else if n == |queue[0]| then queue[1..]
    else [queue[0][n..]] + queue[1..]
  }

  predicate SentinelFirst(queue: seq<seq<int>>) {
    queue != [] && queue[0] == []
  }

  // ---- What a handler does ----

  /** The sending side without its history: `wire` is what has been sent. */
  datatype View = View(queue: seq<seq<int>>, wire: seq<int>, armed: bool, closed: bool, endMsgs: nat, shutMsgs: nat)

  /** A write is tried and fails. */
  predicate Fails(queue: seq<seq<int>>, sock: Socket) {
    queue != [] && queue[0] != [] && sock == Breaks
  }

  /** The bytes of the first chunk that go out. */
  function Bytes(queue: seq<seq<int>>, sock: Socket): seq<int>
    requires SocketOk(sock) && queue != []
  {
    var n := Accepted(sock, |queue[0]|);
    if queue[0] != [] && n > 0 then queue[0][..n] else []
  }

  /** One chunk has been looked at; without SB_WHILE_SEND also a sentinel that has come first. */
  function Remaining(queue: seq<seq<int>>, sock: Socket, whileSend: bool): seq<seq<int>>
    requires SocketOk(sock) && queue != []
  {
    var q := Sent(queue, sock);
    if !whileSend && SentinelFirst(q) then q[1..] else q
  }

  /** A sentinel has been taken off. */
  predicate Over(queue: seq<seq<int>>, sock: Socket, whileSend: bool)
    requires SocketOk(sock) && queue != []
  {
    SentinelFirst(queue) || (!whileSend && SentinelFirst(Sent(queue, sock)))
  }

  /** `conn_write_handler` and `conn_send_handler` */
  function Handled(v: View, sock: Socket, whileSend: bool): View
    requires SocketOk(sock)
  {
    if v.closed || Fails(v.queue, sock) then v
    else if v.queue == [] then v.(armed := false)
    else Written(v, Remaining(v.queue, sock, whileSend), Bytes(v.queue, sock), Over(v.queue, sock, whileSend))
  }

  /** A sentinel closes with a SHUT message, an emptied queue is told by an END message; both stop writing. */
  function Written(v: View, queue: seq<seq<int>>, bytes: seq<int>, over: bool): View {
    var w := v.(queue := queue, wire := v.wire + bytes);
    if over then w.(armed := false, closed := true, shutMsgs := v.shutMsgs + 1)
    else if queue == [] then w.(armed := false, endMsgs := v.endMsgs + 1)
    else w
  }

  /** What is left of the queue and when it closes. */
  lemma HandledMeans(v: View, sock: Socket, whileSend: bool)
    requires SocketOk(sock)
    ensures var w := Handled(v, sock, whileSend);
      && (v.closed || v.queue == [] ==> w.queue == v.queue && w.closed == v.closed)
      && (v.closed || Fails(v.queue, sock) ==> w == v)
      && (!v.closed && v.queue != [] && !Fails(v.queue, sock) ==>
            && w.queue == Remaining(v.queue, sock, whileSend)
            && w.closed == Over(v.queue, sock, whileSend))
  {
    hide Remaining, Over, Bytes;
  }

  lemma HandledNothing(v: View, sock: Socket, whileSend: bool)
    requires SocketOk(sock) && (v.closed || v.queue == [])
    ensures Handled(v, sock, whileSend) == if v.closed then v else v.(armed := false)
  {
  }

  lemma EmptiedStops(v: View, sock: Socket, whileSend: bool)
    requires SocketOk(sock) && !v.closed && v.queue != [] && !Fails(v.queue, sock)
    ensures Handled(v, sock, whileSend).queue == [] ==> !Handled(v, sock, whileSend).armed
  {
    hide Remaining, Over, Bytes;
  }

  /** A write that fails leaves all as it was. */
  lemma NothingSent(queue: seq<seq<int>>, sock: Socket)
    requires SocketOk(sock) && Fails(queue, sock)
    ensures Sent(queue, sock) == queue && Bytes(queue, sock) == []
  {
  }

  /** The two parts of `conn_write_handler` make up the whole. */
  lemma BothParts(v: View, sock: Socket)
    requires SocketOk(sock) && !v.closed && v.queue != [] && !Fails(v.queue, sock)
    ensures var q := Sent(v.queue, sock);
      var w := v.(queue := q, wire := v.wire + Bytes(v.queue, sock));
      Written(w, if SentinelFirst(q) then q[1..] else q, [], SentinelFirst(v.queue) || SentinelFirst(q))
      == Handled(v, sock, false)
  {
    hide Sent, Bytes, SentinelFirst;
    NothingMore(v.wire + Bytes(v.queue, sock));
  }

  /** `conn_send_handler` ends after a chunk that stays, or concludes. */
  lemma OnePart(v: View, sock: Socket, popped: bool)
    requires SocketOk(sock) && !v.closed && v.queue != [] && !Fails(v.queue, sock)
    requires popped <==> v.queue[0] == [] || Accepted(sock, |v.queue[0]|) == |v.queue[0]|
    ensures var q := Sent(v.queue, sock);
      var w := v.(queue := q, wire := v.wire + Bytes(v.queue, sock));
      Handled(v, sock, true) == if popped then Written(w, q, [], SentinelFirst(v.queue)) else w
  {
    hide Bytes;
    NothingMore(v.wire + Bytes(v.queue, sock));
  }

  lemma NothingMore(s: seq<int>)
    ensures s + [] == s
  {
  }

  function Failed(v: View): View {
    v.(armed := false, closed := true, shutMsgs := v.shutMsgs + if v.closed then 0 else 1)
  }

  /** `conn_output_handler` */
  function AfterReady(v: View, sock: Socket, whileSend: bool): View
    requires SocketOk(sock)
  {
    if v.closed || Fails(v.queue, sock) then Failed(v) else Handled(v, sock, whileSend)
  }

  /** `conn_outevent_handler`: write interest is armed for what is left. */
  function AfterMessage(v: View, sock: Socket, whileSend: bool): View
    requires SocketOk(sock)
  {
    if v.queue == [] then v
    else if v.closed || Fails(v.queue, sock) then Failed(v)
    else
      var w := Handled(v, sock, whileSend);
      w.(armed := w.queue != [])
  }

  function AfterDel(pc: Pc): Pc
    requires pc.DelEmpty? || pc.DelEnd? || pc.DelOver? || pc.Failing?
  {
    match pc
    case DelEmpty(msg) => Done(msg)
    case DelEnd(msg) => PostEnd(msg)
    case DelOver(msg) => Shutting(msg)
    case Failing => FailShut
  }

  function Lefts(queue: seq<Item>): (c: seq<seq<int>>)
    ensures |c| == |queue| && forall i :: 0 <= i < |c| ==> c[i] == queue[i].left
  {
    seq(|queue|, i requires 0 <= i < |queue| => queue[i].left)
  }

  class Sender {
    const whileSend: bool
    var queue: seq<seq<int>>
    var armed: bool
    var outMsgs: nat
    var endMsgs: nat
    var shutMsgs: nat
    var closed: bool
    ghost var run: seq<State>

    ghost function Now(): State
      requires |run| > 0
      reads `run
    {
      run[|run| - 1]
    }

    /** The fields are those of the last state of the run. */
    ghost predicate Shows(s: State)
      reads this
    {
      && s.whileSend == whileSend && Lefts(s.queue) == queue && s.armed == armed && s.outMsgs == outMsgs
      && s.endMsgs == endMsgs && s.shutMsgs == shutMsgs && s.closed == closed
    }

    ghost function Seen(): View
      requires |run| > 0
      reads this
    {
      View(queue, Now().wire, armed, closed, endMsgs, shutMsgs)
    }

    ghost predicate Valid()
      reads this
    {
      |run| > 0 && IsRun(run) && Shows(Now())
    }

    constructor (whileSend: bool)
      ensures Valid() && this.whileSend == whileSend && Now().pc == Idle && Now().pushed == []
    {
      this.whileSend := whileSend;
      queue, armed, outMsgs, endMsgs, shutMsgs, closed := [], false, 0, 0, 0, false;
      run := [State(whileSend, [], false, 0, 0, 0, false, 0, Idle, 0, [], [], NotClosed)];
    }

    /** Between handlers nobody sleeps on a non-empty queue, and no byte is lost. */
    lemma Awake()
      requires Valid() && Now().pc == Idle && Now().pending == 0
      ensures !closed && queue != [] ==> armed || outMsgs > 0
      ensures Now().wire + Flat(Now().queue) == Now().pushed && shutMsgs <= 1
    {
      hide Next, Init, Flat;
      if !closed && queue != [] {
        NoLostWakeup(run, |run| - 1);
      }
      BytesConserved(run, |run| - 1);
      OneShutMessage(run, |run| - 1);
    }

    // ---- Steps of the run ----

    ghost method Goes(s: State)
      requires |run| > 0 && IsRun(run) && WriterStep(Now(), s)
      modifies `run
      ensures run == old(run) + [s] && IsRun(run)
      ensures Went(WriterStep, old(run), run)
    {
      hide WriterStep, Went, Stepwise, Init;
      assert Next(Now(), s);
      OneMore(Next, run, 0, s);
      WentOne(WriterStep, run, s);
      run := run + [s];
    }

    ghost method OtherGoes(s: State)
      requires |run| > 0 && IsRun(run) && OthersStep(Now(), s)
      modifies `run
      ensures run == old(run) + [s] && IsRun(run)
    {
      hide Stepwise, Init, OthersStep;
      assert Next(Now(), s);
      OneMore(Next, run, 0, s);
      run := run + [s];
    }

    // ---- The steps of the handlers ----

    /** `conn_write_chunk` on the first chunk: how much was written, or -1. */
    method WriteChunk(sock: Socket) returns (n: int)
      requires Valid() && Now().pc.Writing? && queue != [] && queue[0] != [] && SocketOk(sock)
      modifies `queue, `run
      ensures Valid() && Went(WriterStep, old(run), run)
      ensures n == Accepted(sock, |old(queue[0])|)
      ensures n > 0 ==> queue == [old(queue[0])[n..]] + old(queue[1..])
      ensures n > 0 ==> Now().pc == if queue[0] == [] then Popping(old(Now()).pc.msg, false) else AfterPart(old(Now()))
      ensures n <= 0 ==> queue == old(queue) && run == old(run)
      ensures Now().pushed == old(Now()).pushed
      ensures n > 0 ==> Now().wire == old(Now()).wire + old(queue[0])[..n]
    {
      hide TakeOut, WriteReady, Enter, Pop, Finish, Return, Shut, Went, IsRun;
      WentOn(WriterStep, run);
      n := Accepted(sock, |queue[0]|);
      if n > 0 {
        ghost var s := Now();
        ghost var rest := [s.queue[0].(left := s.queue[0].left[n..])] + s.queue[1..];
        ghost var sent := s.wire + s.queue[0].left[..n];
        assert s.queue[0].left == queue[0];
        if n == |queue[0]| {
          ghost var t := s.(wire := sent, queue := rest, pc := Popping(s.pc.msg, false));
          assert WriteSome(s, n, t);
          Goes(t);
        } else {
          ghost var t := s.(wire := sent, queue := rest, pc := AfterPart(s));
          assert WriteSome(s, n, t);
          Goes(t);
        }
        queue := [queue[0][n..]] + queue[1..];
        assert Lefts(rest) == queue;
      }
    }

    /** SENDQPOP of a finished chunk. */
    method PopChunk()
      requires Valid() && queue != [] && queue[0] == []
      requires Now().pc.Popping? || (Now().pc.Second? && !Now().pc.over)
      modifies `queue, `run
      ensures Valid() && Went(WriterStep, old(run), run) && queue == old(queue[1..])
      ensures old(Now()).pc.Popping? ==> Now().pc == AfterPop(old(Now()))
      ensures old(Now()).pc.Second? ==> Now().pc == Ending(old(Now()).pc.msg, true)
      ensures Now().wire == old(Now()).wire && Now().pushed == old(Now()).pushed
    {
      hide TakeOut, WriteReady, Enter, Write, WriteSome, Finish, Return, Shut, Went, IsRun;
      WentOn(WriterStep, run);
      ghost var s := Now();
      assert s.queue[0].left == queue[0];
      if s.pc.Second? {
        Goes(s.(queue := s.queue[1..], sentinel := s.queue[0].end, pc := Ending(s.pc.msg, true)));
      } else if s.pc.over {
        Goes(s.(queue := s.queue[1..], sentinel := s.queue[0].end, pc := AfterPop(s)));
      } else {
        Goes(s.(queue := s.queue[1..], pc := AfterPop(s)));
      }
      queue := queue[1..];
      assert Lefts(s.queue[1..]) == queue;
    }

    /** CONN_OUTEVENT_DEL, or CONN_OUTEVENT_DESTROY after a failure. */
    method OutEventDel()
      requires Valid() && (Now().pc.DelEmpty? || Now().pc.DelEnd? || Now().pc.DelOver? || Now().pc.Failing?)
      modifies `armed, `run
      ensures Valid() && Went(WriterStep, old(run), run) && !armed
      ensures Now().pc == AfterDel(old(Now()).pc)
      ensures Now().wire == old(Now()).wire && Now().pushed == old(Now()).pushed
    {
      hide TakeOut, WriteReady, Enter, Write, WriteSome, Pop, Shut, Went, IsRun;
      WentOn(WriterStep, run);
      armed := false;
      Goes(Now().(armed := false, pc := AfterDel(Now().pc)));
    }

    /** `conn_push_message` of an END message: nothing on a closed connection. */
    method PushEnd()
      requires Valid() && Now().pc.PostEnd?
      modifies `endMsgs, `run
      ensures Valid() && Went(WriterStep, old(run), run) && Now().pc == Done(old(Now()).pc.msg)
      ensures Now().wire == old(Now()).wire && Now().pushed == old(Now()).pushed
      ensures endMsgs == old(endMsgs) + if closed then 0 else 1
    {
      hide TakeOut, WriteReady, Enter, Write, WriteSome, Pop, Return, Shut, Went, IsRun;
      WentOn(WriterStep, run);
      ghost var s := Now();
      if closed {
        Goes(s.(pc := Done(s.pc.msg)));
      } else {
        endMsgs := endMsgs + 1;
        Goes(s.(endMsgs := s.endMsgs + 1, pc := Done(s.pc.msg)));
      }
    }

    /** `conn_shut` by the writer, after a sentinel or a failure. */
    method ShutWriting()
      requires Valid() && (Now().pc.Shutting? || Now().pc.FailShut?)
      modifies `closed, `shutMsgs, `run
      ensures Valid() && Went(WriterStep, old(run), run) && closed
      ensures shutMsgs == if old(closed) then old(shutMsgs) else old(shutMsgs) + 1
      ensures Now().pc == if old(Now()).pc.Shutting? then Done(old(Now()).pc.msg) else Idle
      ensures Now().wire == old(Now()).wire && Now().pushed == old(Now()).pushed
    {
      hide TakeOut, WriteReady, Enter, Write, WriteSome, Pop, Went, IsRun;
      WentOn(WriterStep, run);
      ghost var s := Now();
      ghost var next := if s.pc.Shutting? then Done(s.pc.msg) else Idle;
      if closed {
        Goes(s.(pc := next));
      } else {
        closed := true;
        shutMsgs := shutMsgs + 1;
        if s.pc.Shutting? {
          Goes(s.(closed := true, shutMsgs := s.shutMsgs + 1, cause := BySentinel(s.sentinel), pc := next));
        } else {
          Goes(s.(closed := true, shutMsgs := s.shutMsgs + 1, cause := Otherwise, pc := next));
        }
      }
    }

    /** The tests at the head of both handlers: whether to go on with the first chunk. */
    method Begin() returns (ret: int, go: bool)
      requires Valid() && Now().pc.Started?
      modifies `armed, `run
      ensures Valid() && Went(WriterStep, old(run), run)
      ensures go <==> !closed && queue != []
      ensures ret < 0 && !go ==> closed
      ensures closed ==> ret < 0
      ensures go ==> Now().pc == AtHead(old(Now()).pc.msg)
      ensures !go && ret < 0 ==> Now().pc == Failing
      ensures !go && ret >= 0 ==> Now().pc == Done(old(Now()).pc.msg)
      ensures Now().wire == old(Now()).wire && Now().pushed == old(Now()).pushed
      ensures armed == (old(armed) && (closed || queue != []))
    {
      hide TakeOut, WriteReady, Write, WriteSome, Pop, Return, Shut, Went, IsRun;
      WentOn(WriterStep, run);
      ghost var msg := Now().pc.msg;
      ret, go := -1, false;
      if closed {
        Goes(Now().(pc := Failing));
      } else {
        Goes(Now().(pc := Counting(msg)));
        if |queue| > 0 {
          Goes(Now().(pc := AtHead(msg)));
          go := true;
        } else {
          Goes(Now().(pc := DelEmpty(msg)));
          OutEventDel();
          ret := 0;
        }
      }
    }

    /** The write of a chunk that is not over; `wrote` is its result. */
    method WriteFirst(sock: Socket) returns (wrote: int)
      requires Valid() && Now().pc.Writing? && queue != [] && queue[0] != [] && SocketOk(sock)
      modifies `queue, `run
      ensures Valid() && Went(WriterStep, old(run), run) && wrote == Accepted(sock, |old(queue[0])|)
      ensures queue == if wrote > 0 then [old(queue[0])[wrote..]] + old(queue[1..]) else old(queue)
      ensures wrote < 0 ==> Now().pc == Failing
      ensures wrote >= 0 && queue[0] == [] ==> Now().pc == Popping(old(Now()).pc.msg, false)
      ensures wrote >= 0 && queue[0] != [] ==> Now().pc == Resting(old(Now()).pc.msg)
      ensures Now().pushed == old(Now()).pushed
      ensures wrote > 0 ==> Now().wire == old(Now()).wire + old(queue[0])[..wrote]
      ensures wrote <= 0 ==> Now().wire == old(Now()).wire
    {
      hide WriterStep, Went, IsRun;
      WentOn(WriterStep, run);
      wrote := WriteChunk(sock);
      if wrote <= 0 {
        NothingWritten(wrote);
      }
    }

    /** A write that failed, or would block. */
    ghost method NothingWritten(wrote: int)
      requires Valid() && Now().pc.Writing? && wrote <= 0
      modifies `run
      ensures Valid() && Went(WriterStep, old(run), run)
      ensures Now() == old(Now()).(pc := if wrote < 0 then Failing else Resting(old(Now()).pc.msg))
    {
      hide TakeOut, WriteReady, WriteSome, Enter, Pop, Finish, Return, Shut, Went, IsRun;
      WentOn(WriterStep, run);
      if wrote < 0 {
        Goes(Now().(pc := Failing));
      } else {
        Goes(Now().(pc := AfterPart(Now())));
      }
    }

    /** Where a handler goes on after a write that left something. */
    ghost function Resting(msg: bool): Pc
      reads this
    {
      if whileSend then Done(msg) else Second(msg, false)
    }

    /** Where a handler goes on after taking a chunk off. */
    ghost function Popped(msg: bool, over: bool): Pc
      reads this
    {
      if whileSend then Ending(msg, over) else Second(msg, over)
    }

    /** The first chunk: a sentinel, or a write and then SENDQPOP if nothing is left of it. */
    method FirstChunk(sock: Socket) returns (ret: int, over: bool, popped: bool)
      requires Valid() && Now().pc.AtHead? && queue != [] && SocketOk(sock)
      modifies `queue, `run
      ensures Valid() && Went(WriterStep, old(run), run)
      ensures ret < 0 ==> Now().pc == Failing
      ensures ret >= 0 && popped ==> Now().pc == Popped(old(Now()).pc.msg, over)
      ensures ret >= 0 && !popped ==> !over && Now().pc == Resting(old(Now()).pc.msg)
      ensures ret < 0 <==> old(queue[0]) != [] && sock == Breaks
      ensures popped <==> old(queue[0]) == [] || Accepted(sock, |old(queue[0])|) == |old(queue[0])|
      ensures queue == Sent(old(queue), sock) && over == (old(queue[0]) == [])
      ensures Now().pushed == old(Now()).pushed && Now().wire == old(Now()).wire + Bytes(old(queue), sock)
    {
      hide TakeOut, WriteReady, Write, WriteSome, Pop, Finish, Return, Shut, Went, IsRun;
      WentOn(WriterStep, run);
      over, popped, ret := false, false, 0;
      NothingMore(Now().wire);
      assert Now().queue[0].left == queue[0];
      if |queue[0]| > 0 {
        Goes(Now().(pc := Writing(Now().pc.msg)));
        ret := WriteFirst(sock);
      } else {
        over := true;
        Goes(Now().(pc := Popping(Now().pc.msg, true)));
      }
      if ret >= 0 && |queue[0]| == 0 {
        PopChunk();
        popped := true;
      }
    }

    /** The end of both handlers: close after a sentinel, stop writing when the queue is empty. */
    method Conclude(over: bool)
      requires Valid() && !closed && Now().pc.Ending? && Now().pc.over == over
      modifies `armed, `endMsgs, `closed, `shutMsgs, `run
      ensures Valid() && Went(WriterStep, old(run), run) && Now().pc == Done(old(Now()).pc.msg)
      ensures Seen() == Written(old(Seen()), queue, [], over) && Now().pushed == old(Now()).pushed
    {
      hide TakeOut, WriteReady, Enter, Write, WriteSome, Pop, Return, Shut, Went, IsRun;
      WentOn(WriterStep, run);
      if over {
        CloseAfterSentinel();
      } else if |queue| < 1 {
        StopWriting();
      } else {
        Goes(Now().(pc := Done(Now().pc.msg)));
      }
    }

    method CloseAfterSentinel()
      requires Valid() && !closed && Now().pc.Ending? && Now().pc.over
      modifies `armed, `closed, `shutMsgs, `run
      ensures Valid() && Went(WriterStep, old(run), run) && Now().pc == Done(old(Now()).pc.msg)
      ensures closed && !armed && shutMsgs == old(shutMsgs) + 1
      ensures Now().wire == old(Now()).wire && Now().pushed == old(Now()).pushed
    {
      hide TakeOut, WriteReady, Enter, Write, WriteSome, Pop, Return, Shut, Went, IsRun;
      WentOn(WriterStep, run);
      Goes(Now().(pc := DelOver(Now().pc.msg)));
      OutEventDel();
      ShutWriting();
    }

    method StopWriting()
      requires Valid() && !closed && Now().pc.Ending? && !Now().pc.over && queue == []
      modifies `armed, `endMsgs, `run
      ensures Valid() && Went(WriterStep, old(run), run) && Now().pc == Done(old(Now()).pc.msg)
      ensures !armed && endMsgs == old(endMsgs) + 1
      ensures Now().wire == old(Now()).wire && Now().pushed == old(Now()).pushed
    {
      hide TakeOut, WriteReady, Enter, Write, WriteSome, Pop, Return, Shut, Went, IsRun;
      WentOn(WriterStep, run);
      Goes(Now().(pc := DelEnd(Now().pc.msg)));
      OutEventDel();
      PushEnd();
    }

    /** `conn_write_handler`: it also takes off a sentinel that has come first. */
    method WriteHandler(sock: Socket) returns (ret: int)
      requires Valid() && !whileSend && Now().pc.Started? && SocketOk(sock)
      modifies this
      ensures Valid() && Went(WriterStep, old(run), run)
      ensures Now().pc == if ret < 0 then Failing else Done(old(Now()).pc.msg)
      ensures ret < 0 <==> old(closed) || Fails(old(queue), sock)
      ensures ret < 0 ==> Seen() == old(Seen())
      ensures old(closed || queue == []) ==> queue == old(queue) && closed == old(closed)
      ensures !old(closed || queue == []) && ret >= 0 ==>
        queue == Remaining(old(queue), sock, whileSend) && closed == Over(old(queue), sock, whileSend)
      ensures Seen() == Handled(old(Seen()), sock, whileSend) && Now().pushed == old(Now()).pushed
      ensures outMsgs == old(outMsgs)
    {
      hide WriterStep, Went, IsRun, Sent, Bytes, Handled, Written, Over, Remaining;
      WentOn(WriterStep, run);
      var go, over, popped;
      ghost var v := Seen();
      HandledMeans(v, sock, false);
      ret, go := Begin();
      if go {
        ret, over, popped := FirstChunk(sock);
        if ret >= 0 {
          BothParts(v, sock);
          SecondChunk(over);
        } else {
          NothingSent(v.queue, sock);
          NothingMore(v.wire);
        }
      } else {
        HandledNothing(v, sock, false);
      }
    }

    /** The rest of `conn_write_handler`: the chunk that is now first. */
    method SecondChunk(over: bool)
      requires Valid() && !closed && Now().pc.Second? && Now().pc.over == over
      modifies `queue, `armed, `endMsgs, `closed, `shutMsgs, `run
      ensures Valid() && Went(WriterStep, old(run), run) && Now().pc == Done(old(Now()).pc.msg)
      ensures Now().pushed == old(Now()).pushed
      ensures var q := old(queue);
        Seen() == Written(old(Seen()), if SentinelFirst(q) then q[1..] else q, [], over || SentinelFirst(q))
    {
      hide TakeOut, WriteReady, Enter, Write, WriteSome, Finish, Return, Shut, Went, IsRun;
      WentOn(WriterStep, run);
      var end := over;
      if |queue| > 0 && |queue[0]| == 0 {
        assert Now().queue[0].left == queue[0];
        TakeSentinel(over);
        end := true;
      } else {
        Goes(Now().(pc := Ending(Now().pc.msg, over)));
      }
      Conclude(end);
    }

    /** A sentinel behind the first chunk, or in its place. */
    method TakeSentinel(over: bool)
      requires Valid() && queue != [] && queue[0] == [] && Now().pc.Second? && Now().pc.over == over
      modifies `queue, `run
      ensures Valid() && Went(WriterStep, old(run), run) && queue == old(queue[1..])
      ensures Now().pc == Ending(old(Now()).pc.msg, true)
      ensures Now().wire == old(Now()).wire && Now().pushed == old(Now()).pushed
    {
      hide TakeOut, WriteReady, Enter, Write, WriteSome, Finish, Return, Shut, Went, IsRun;
      WentOn(WriterStep, run);
      ghost var s := Now();
      assert s.queue[0].left == queue[0];
      Goes(s.(queue := s.queue[1..], sentinel := s.queue[0].end, pc := Ending(s.pc.msg, true)));
      queue := queue[1..];
      assert Lefts(s.queue[1..]) == queue;
    }

    /** `conn_send_handler`, the handler under SB_WHILE_SEND; every path leaves its loop in the first turn. */
    method SendHandler(sock: Socket) returns (ret: int)
      requires Valid() && whileSend && Now().pc.Started? && SocketOk(sock)
      modifies this
      ensures Valid() && Went(WriterStep, old(run), run)
      ensures Now().pc == if ret < 0 then Failing else Done(old(Now()).pc.msg)
      ensures ret < 0 <==> old(closed) || Fails(old(queue), sock)
      ensures ret < 0 ==> Seen() == old(Seen())
      ensures old(closed || queue == []) ==> queue == old(queue) && closed == old(closed)
      ensures !old(closed || queue == []) && ret >= 0 ==>
        queue == Remaining(old(queue), sock, whileSend) && closed == Over(old(queue), sock, whileSend)
      ensures Seen() == Handled(old(Seen()), sock, whileSend) && Now().pushed == old(Now()).pushed
      ensures outMsgs == old(outMsgs)
    {
      hide WriterStep, Went, IsRun, Sent, Bytes, Handled, Written, Over, Remaining;
      WentOn(WriterStep, run);
      var go, over, popped;
      ghost var v := Seen();
      HandledMeans(v, sock, true);
      ret, go := Begin();
      if go {
        ret, over, popped := FirstChunk(sock);
        if ret >= 0 {
          OnePart(v, sock, popped);
          if popped {
            Conclude(over);
            ret := 0;
          }
        } else {
          NothingSent(v.queue, sock);
          NothingMore(v.wire);
        }
      } else {
        HandledNothing(v, sock, true);
      }
    }

    /** The handler that goes with SB_WHILE_SEND, or the other one. */
    method Handler(sock: Socket) returns (ret: int)
      requires Valid() && Now().pc.Started? && SocketOk(sock)
      modifies this
      ensures Valid() && Went(WriterStep, old(run), run)
      ensures Now().pc == if ret < 0 then Failing else Done(old(Now()).pc.msg)
      ensures ret < 0 <==> old(closed) || Fails(old(queue), sock)
      ensures ret < 0 ==> Seen() == old(Seen())
      ensures Seen() == Handled(old(Seen()), sock, whileSend) && Now().pushed == old(Now()).pushed
      ensures outMsgs == old(outMsgs)
    {
      hide WriterStep, Went, IsRun, Sent, SentinelFirst, Handled;
      if whileSend {
        ret := SendHandler(sock);
      } else {
        ret := WriteHandler(sock);
      }
    }

    /** CONN_OUTEVENT_DESTROY and `conn_shut` after a failure. */
    method Fail()
      requires Valid() && Now().pc == Failing
      modifies this
      ensures Valid() && Went(WriterStep, old(run), run) && Now().pc == Idle && closed
      ensures Seen() == Failed(old(Seen())) && Now().pushed == old(Now()).pushed && outMsgs == old(outMsgs)
    {
      hide WriterStep, Went, IsRun;
      WentOn(WriterStep, run);
      OutEventDel();
      ShutWriting();
    }

    /** CONN_OUTEVENT_ADD if something is left. */
    method ArmForRest()
      requires Valid() && Now().pc == Done(true)
      modifies `armed, `run
      ensures Valid() && Went(WriterStep, old(run), run) && Now().pc == Idle && armed == (old(armed) || queue != [])
      ensures Now().wire == old(Now()).wire && Now().pushed == old(Now()).pushed
    {
      hide TakeOut, WriteReady, Enter, Write, WriteSome, Pop, Finish, Shut, Went, IsRun;
      WentOn(WriterStep, run);
      if |queue| > 0 {
        Goes(Now().(pc := Rearm));
        armed := true;
        Goes(Now().(armed := true, pc := Idle));
      } else {
        Goes(Now().(pc := Idle));
      }
    }

    /** `conn_outevent_handler` on an OUT message. */
    method OutEventHandler(sock: Socket)
      requires Valid() && Now().pc == Idle && outMsgs > 0 && SocketOk(sock)
      modifies this
      ensures Valid() && Went(WriterStep, old(run), run) && Now().pc == Idle
      ensures outMsgs == old(outMsgs) - 1 && Now().pushed == old(Now()).pushed
      ensures Seen() == AfterMessage(old(Seen()), sock, whileSend)
    {
      hide WriteReady, Enter, Write, WriteSome, Pop, Finish, Return, Shut, Went, IsRun, Handled, Fails;
      WentOn(WriterStep, run);
      ghost var v := Seen();
      outMsgs := outMsgs - 1;
      if |queue| > 0 {
        Goes(Now().(outMsgs := outMsgs, pc := Started(true)));
        assert Seen() == v;
        var ret := Handler(sock);
        if ret < 0 {
          Fail();
        } else {
          EmptiedStops(v, sock, whileSend);
          ArmForRest();
        }
      } else {
        Goes(Now().(outMsgs := outMsgs));
      }
    }

    /** `conn_output_handler` when the descriptor is ready for writing. */
    method OutputHandler(sock: Socket)
      requires Valid() && Now().pc == Idle && armed && SocketOk(sock)
      modifies this
      ensures Valid() && Went(WriterStep, old(run), run) && Now().pc == Idle
      ensures outMsgs == old(outMsgs) && Now().pushed == old(Now()).pushed
      ensures Seen() == AfterReady(old(Seen()), sock, whileSend)
    {
      hide TakeOut, Enter, Write, WriteSome, Pop, Finish, Shut, Went, IsRun, Handled, Fails;
      WentOn(WriterStep, run);
      ghost var v := Seen();
      Goes(Now().(pc := Started(false)));
      assert Seen() == v;
      var ret := Handler(sock);
      assert ret >= 0 ==> Seen() == AfterReady(v, sock, whileSend);
      if ret < 0 {
        Fail();
      } else {
        Goes(Now().(pc := Idle));
      }
    }

    // ---- The callers' side ----

    /** `conn_push_chunk`, and with no data `conn_over_chunk`: queue the chunk, then post an OUT message. */
    method PushChunk(data: seq<int>) returns (ret: int)
      requires Valid()
      modifies `queue, `outMsgs, `run
      ensures Valid() && ret == if closed then -1 else 0
      ensures closed ==> run == old(run)
      ensures !closed ==> queue == old(queue) + [data] && Now().pushed == old(Now()).pushed + data
      ensures !closed ==>
        outMsgs == old(outMsgs) + 1 && Now().pending == old(Now()).pending && Now().pc == old(Now()).pc
    {
      ret := -1;
      if !closed {
        ghost var s := Now();
        ghost var t := s.(queue := s.queue + [Item(data, |s.pushed| + |data|)], pushed := s.pushed + data,
                          pending := s.pending + 1);
        assert PushData(s, data, t);
        OtherGoes(t);
        queue := queue + [data];
        assert Lefts(t.queue) == queue;
        outMsgs := outMsgs + 1;
        OtherGoes(t.(pending := t.pending - 1, outMsgs := t.outMsgs + 1));
        ret := 0;
      }
    }

    /** `conn_end_handler` on an END message: an OUT message when something has been queued since. */
    method EndHandler()
      requires Valid() && endMsgs > 0
      modifies `endMsgs, `outMsgs, `run
      ensures Valid() && Now().pc == old(Now()).pc && Now().pending == old(Now()).pending
      ensures endMsgs == old(endMsgs) - 1
      ensures outMsgs == old(outMsgs) + if !closed && queue != [] then 1 else 0
    {
      ghost var s := Now();
      endMsgs := endMsgs - 1;
      if !closed && |queue| > 0 {
        ghost var t := s.(endMsgs := s.endMsgs - 1, pending := s.pending + 1);
        OtherGoes(t);
        outMsgs := outMsgs + 1;
        OtherGoes(t.(pending := t.pending - 1, outMsgs := t.outMsgs + 1));
      } else {
        OtherGoes(s.(endMsgs := s.endMsgs - 1));
      }
    }
  }
}
