/**
  The receiving side of a connection as a state machine: the reader thread (`conn_read_handler`,
  `conn_buffer_handler`, `conn_packet_reader`) and the handler thread (`conn_packet_handler`, SESSION_RESET),
  interleaved at every access to the session state, the packet and the buffer.
 */
module ConnReader {
  import opened Runs
  import opened ConnFraming

  datatype ReaderPc =
    | ReaderIdle
    | TestState
    | TestPacket
    | TestBuffered
    | Entered
    | Scanning
    | Deleting(n: nat)
    | Marking
    | Posting

  datatype HandlerPc = HandlerIdle | Running | ResetPacket | ResetState | TestBuffer | PostBuffer

  /** `handling` is `s_state` other than 0; `received` and `delivered` are history. */
  datatype State = State(f: Framing, buffer: seq<int>, packet: seq<int>, handling: bool, closed: bool,
                         bufferMsgs: nat, packetMsgs: nat, reader: ReaderPc, handler: HandlerPc,
                         received: seq<int>, delivered: seq<seq<int>>)

  ghost predicate Init(s: State) {
    && FramingOk(s.f) && s.buffer == [] && s.packet == [] && !s.handling && !s.closed && s.bufferMsgs == 0
    && s.packetMsgs == 0
    && s.reader == ReaderIdle && s.handler == HandlerIdle && s.received == [] && s.delivered == []
  }

  // ---- The reader thread ----

  /** MMB_READ appends what has come. */
  ghost predicate Read(s: State, data: seq<int>, s': State) {
    && s.reader == ReaderIdle
    && s' == s.(buffer := s.buffer + data, received := s.received + data, reader := TestState)
  }

  /** A BUFFER message. */
  ghost predicate TakeBuffer(s: State, s': State) {
    s.reader == ReaderIdle && s.bufferMsgs > 0 && s' == s.(bufferMsgs := s.bufferMsgs - 1, reader := TestBuffered)
  }

  /** The tests before the packet reader, and its own. */
  ghost predicate ReaderTests(s: State, s': State) {
    || (s.reader == TestState &&
          (if s.handling then s' == s.(reader := ReaderIdle) else s' == s.(reader := TestPacket)))
    || (s.reader == TestPacket &&
          (if s.packet != [] then s' == s.(reader := ReaderIdle) else s' == s.(reader := Entered)))
    || (s.reader == TestBuffered &&
          (if s.closed || s.handling then s' == s.(reader := ReaderIdle) else s' == s.(reader := Entered)))
    || (s.reader == Entered &&
          (if s.closed || s.handling then s' == s.(reader := ReaderIdle) else s' == s.(reader := Scanning)))
  }

  /** A complete packet is copied out. */
  ghost predicate CopyPacket(s: State, s': State) {
    && s.reader == Scanning
    && var n := PacketLen(s.f, s.buffer);
       if n == 0 then s' == s.(reader := ReaderIdle) else s' == s.(packet := s.buffer[..n], reader := Deleting(n))
  }

  ghost predicate DeletePacket(s: State, s': State) {
    && s.reader.Deleting? && s.reader.n <= |s.buffer|
    && s' == s.(buffer := s.buffer[s.reader.n..], delivered := s.delivered + [s.packet], reader := Marking)
  }

  /** The session state changes before the PACKET message is posted; on a closed connection none is. */
  ghost predicate HandOver(s: State, s': State) {
    || (s.reader == Marking && s' == s.(handling := true, reader := Posting))
    || (s.reader == Posting &&
          (if s.closed then s' == s.(reader := ReaderIdle)
           else s' == s.(packetMsgs := s.packetMsgs + 1, reader := ReaderIdle)))
  }

  // ---- The handler thread ----

  ghost predicate TakePacket(s: State, s': State) {
    && s.handler == HandlerIdle && s.packetMsgs > 0
    && (if s.closed then s' == s.(packetMsgs := s.packetMsgs - 1)
        else s' == s.(packetMsgs := s.packetMsgs - 1, handler := Running))
  }

  /** The session's own handler, and then SESSION_RESET. */
  ghost predicate Handle(s: State, s': State) {
    || (s.handler == Running &&
          (if s.handling then s' == s.(handler := ResetPacket) else s' == s.(handler := HandlerIdle)))
    || (s.handler == ResetPacket && s' == s.(packet := [], handler := ResetState))
    || (s.handler == ResetState && s' == s.(handling := false, handler := TestBuffer))
    || (s.handler == TestBuffer &&
          (if s.buffer != [] then s' == s.(handler := PostBuffer) else s' == s.(handler := HandlerIdle)))
    || (s.handler == PostBuffer &&
          (if s.closed then s' == s.(handler := HandlerIdle)
           else s' == s.(bufferMsgs := s.bufferMsgs + 1, handler := HandlerIdle)))
  }

  /** `conn_end_handler`, which found the session free and something in the buffer, perhaps some time ago. */
  ghost predicate PostByEnd(s: State, s': State) {
    !s.closed && s' == s.(bufferMsgs := s.bufferMsgs + 1)
  }

  ghost predicate Close(s: State, s': State) {
    s' == s.(closed := true)
  }

  ghost predicate ReaderStep(s: State, s': State) {
    || (exists data: seq<int> :: Read(s, data, s')) || TakeBuffer(s, s') || ReaderTests(s, s') || CopyPacket(s, s')
    || DeletePacket(s, s') || HandOver(s, s')
  }

  ghost predicate Next(s: State, s': State) {
    ReaderStep(s, s') || TakePacket(s, s') || Handle(s, s') || PostByEnd(s, s') || Close(s, s')
  }

  // ---- The handshake ----

  predicate Extracting(pc: ReaderPc) {
    pc.Entered? || pc.Scanning? || pc.Deleting? || pc.Marking?
  }

  /** How many are working on the current packet, or are about to. */
  function Workers(s: State): nat {
    (if s.reader == Posting then 1 else 0) + s.packetMsgs
    + if s.handler == Running || s.handler == ResetPacket || s.handler == ResetState then 1 else 0
  }

  ghost predicate HandshakeInv(s: State) {
    && FramingOk(s.f)
    && Workers(s) <= (if s.handling then 1 else 0)
    && (s.reader == TestPacket || Extracting(s.reader) ==> !s.handling)
    && (!s.handling && !s.reader.Deleting? && !s.reader.Marking? ==> s.packet == [])
    && (s.handler == ResetState ==> s.packet == [])
    && (s.reader.Deleting? ==> s.reader.n == PacketLen(s.f, s.buffer) > 0 && s.packet == s.buffer[..s.reader.n])
    && (!s.handling && !s.closed && PacketLen(s.f, s.buffer) > 0 ==>
          s.reader != ReaderIdle || s.handler == TestBuffer || s.handler == PostBuffer || s.bufferMsgs > 0)
  }

  lemma HandshakeStart(s: State)
    requires Init(s)
    ensures HandshakeInv(s)
  {
    NoPacketInNothing(s.f);
  }

  lemma HandshakeReading(s: State, s': State)
    requires HandshakeInv(s)
    requires (exists data: seq<int> :: Read(s, data, s')) || TakeBuffer(s, s') || ReaderTests(s, s')
    ensures HandshakeInv(s')
  {
    hide PacketLen;
  }

  lemma HandshakeCutting(s: State, s': State)
    requires HandshakeInv(s) && (CopyPacket(s, s') || DeletePacket(s, s') || HandOver(s, s'))
    ensures HandshakeInv(s')
  {
    hide PacketLen;
  }

  lemma HandshakeHandling(s: State, s': State)
    requires HandshakeInv(s) && (TakePacket(s, s') || Handle(s, s') || PostByEnd(s, s') || Close(s, s'))
    ensures HandshakeInv(s')
  {
    hide PacketLen;
    NoPacketInNothing(s.f);
  }

  // ---- The packets ----

  /** Delivered packets and the buffer are what was received, cut greedily. */
  ghost predicate PacketsInv(s: State) {
    && FramingOk(s.f)
    && (s.reader.Deleting? ==> s.reader.n == PacketLen(s.f, s.buffer) > 0 && s.packet == s.buffer[..s.reader.n])
    && Joined(s.delivered) + s.buffer == s.received
    && Split(s.f, s.received) == Cut(s.delivered + Split(s.f, s.buffer).packets, Split(s.f, s.buffer).rest)
  }

  lemma {:induction false} JoinedAppend(packets: seq<seq<int>>, p: seq<int>)
    ensures Joined(packets + [p]) == Joined(packets) + p
  {
    if packets == [] {
      assert [p][1..] == [] && packets + [p] == [p];
      assert p + [] == p;
    } else {
      JoinedAppend(packets[1..], p);
      assert (packets + [p])[1..] == packets[1..] + [p];
      assert packets[0] + (Joined(packets[1..]) + p) == (packets[0] + Joined(packets[1..])) + p;
    }
  }

  lemma PacketsStart(s: State)
    requires Init(s)
    ensures PacketsInv(s)
  {
    hide PacketLen;
    assert [] + s.buffer == s.received;
  }

  lemma ReadKeepsPackets(s: State, data: seq<int>, s': State)
    requires PacketsInv(s) && Read(s, data, s')
    ensures PacketsInv(s')
  {
    hide PacketLen, Split, Joined;
    SplitInTwo(s.f, s.received, data);
    SplitInTwo(s.f, s.buffer, data);
    var first := Split(s.f, s.buffer);
    var second := Split(s.f, first.rest + data);
    assert (s.delivered + first.packets) + second.packets == s.delivered + (first.packets + second.packets);
    assert Joined(s.delivered) + (s.buffer + data) == (Joined(s.delivered) + s.buffer) + data;
  }

  lemma DeleteKeepsPackets(s: State, s': State)
    requires PacketsInv(s) && DeletePacket(s, s')
    ensures PacketsInv(s')
  {
    hide PacketLen, Joined;
    var n := s.reader.n;
    JoinedAppend(s.delivered, s.packet);
    assert Joined(s.delivered) + s.buffer == (Joined(s.delivered) + s.packet) + s.buffer[n..];
    var tail := Split(s.f, s.buffer[n..]);
    assert s.delivered + ([s.packet] + tail.packets) == (s.delivered + [s.packet]) + tail.packets;
  }

  lemma OthersKeepPackets(s: State, s': State)
    requires PacketsInv(s)
    requires TakeBuffer(s, s') || ReaderTests(s, s') || CopyPacket(s, s') || HandOver(s, s')
      || PostByEnd(s, s') || Close(s, s')
    ensures PacketsInv(s')
  {
    hide PacketLen, Split, Joined;
  }

  /** The handler only resets the packet when the reader is not using it. */
  lemma HandlerKeepsPackets(s: State, s': State)
    requires PacketsInv(s) && HandshakeInv(s) && (TakePacket(s, s') || Handle(s, s'))
    ensures PacketsInv(s')
  {
    hide PacketLen, Split, Joined;
  }

  lemma InvKept(s: State, s': State)
    requires HandshakeInv(s) && PacketsInv(s) && Next(s, s')
    ensures HandshakeInv(s') && PacketsInv(s')
  {
    hide HandshakeInv, PacketsInv, TakeBuffer, ReaderTests, CopyPacket, DeletePacket, HandOver, TakePacket, Handle,
      Close, Read;
    hide PostByEnd;
    if data: seq<int> :| Read(s, data, s') {
      HandshakeReading(s, s');
      ReadKeepsPackets(s, data, s');
    } else if DeletePacket(s, s') {
      HandshakeCutting(s, s');
      DeleteKeepsPackets(s, s');
    } else if TakePacket(s, s') || Handle(s, s') {
      HandshakeHandling(s, s');
      HandlerKeepsPackets(s, s');
    } else {
      OthersKeepPackets(s, s');
      if TakeBuffer(s, s') || ReaderTests(s, s') {
        HandshakeReading(s, s');
      } else if PostByEnd(s, s') || Close(s, s') {
        HandshakeHandling(s, s');
      } else {
        HandshakeCutting(s, s');
      }
    }
  }

  // ---- Runs ----

  ghost predicate IsRun(run: seq<State>) {
    run != [] && Init(run[0]) && Stepwise(Next, run, 0)
  }

  lemma {:induction false} RunKeeps(run: seq<State>, i: nat)
    requires IsRun(run) && i < |run|
    ensures HandshakeInv(run[i]) && PacketsInv(run[i])
  {
    hide HandshakeInv, PacketsInv, Next, Init;
    if i == 0 {
      HandshakeStart(run[0]);
      PacketsStart(run[0]);
    } else {
      RunKeeps(run, i - 1);
      assert Next(run[i - 1], run[i - 1 + 1]);
      InvKept(run[i - 1], run[i]);
    }
  }

  predicate BothIdle(s: State) {
    s.reader == ReaderIdle && s.handler == HandlerIdle
  }

  /** When both threads are idle and a complete packet waits on a free session, a BUFFER message is queued. */
  lemma NeverStalls(run: seq<State>, i: nat)
    requires IsRun(run) && i < |run| && BothIdle(run[i]) && !run[i].handling && !run[i].closed
    requires PacketLen(run[i].f, run[i].buffer) > 0
    ensures run[i].bufferMsgs > 0
  {
    hide PacketsInv, PacketLen;
    RunKeeps(run, i);
  }

  /** At every step: the packets delivered and the buffer make up the stream. */
  lemma StreamConserved(run: seq<State>, i: nat)
    requires IsRun(run) && i < |run|
    ensures Joined(run[i].delivered) + run[i].buffer == run[i].received
    ensures run[i].delivered <= Split(run[i].f, run[i].received).packets
  {
    hide HandshakeInv, PacketLen, Split, Joined;
    RunKeeps(run, i);
  }

  /** With nothing left to do, exactly the greedy split of the whole stream has been delivered. */
  lemma AllDelivered(run: seq<State>, i: nat)
    requires IsRun(run) && i < |run| && BothIdle(run[i]) && !run[i].handling && !run[i].closed && run[i].bufferMsgs == 0
    ensures Split(run[i].f, run[i].received) == Cut(run[i].delivered, run[i].buffer)
  {
    hide PacketLen, Joined;
    RunKeeps(run, i);
    var s := run[i];
    assert s.delivered + [] == s.delivered;
  }
}
