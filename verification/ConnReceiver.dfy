/**
  The receiving handlers of `conn.c` as methods on one connection, each run without interruption. Every method extends a
  ghost run of the state machine in ConnReader by exactly the steps its code takes.
 */
module ConnReceiver {
  import opened Runs
  import opened ConnFraming
  import opened ConnReader

  class Receiver {
    const f: Framing
    var buffer: seq<int>
    var packet: seq<int>
    var handling: bool
    var closed: bool
    var bufferMsgs: nat
    var packetMsgs: nat
    ghost var run: seq<State>

    ghost function Now(): State
      requires |run| > 0
      reads `run
    {
      run[|run| - 1]
    }

    /** The fields are those of the last state of the run. */
    ghost predicate Shows(s: State)
      reads this
    {
      && s.f == f && s.buffer == buffer && s.packet == packet && s.handling == handling && s.closed == closed
      && s.bufferMsgs == bufferMsgs && s.packetMsgs == packetMsgs
    }

    ghost predicate Valid()
      reads this
    {
      |run| > 0 && IsRun(run) && Shows(Now())
    }

    ghost predicate Idle()
      requires |run| > 0
      reads `run
    {
      BothIdle(Now())
    }

    constructor (f: Framing)
      requires FramingOk(f)
      ensures Valid() && Idle() && this.f == f && Now().received == [] && Now().delivered == []
    {
      this.f := f;
      buffer, packet, handling, closed, bufferMsgs, packetMsgs := [], [], false, false, 0, 0;
      run := [State(f, [], [], false, false, 0, 0, ReaderIdle, HandlerIdle, [], [])];
    }

    /**
      Between handlers the packets cut off so far and the buffer are the stream; and when nothing is left to do, these
      packets are its greedy split.
     */
    lemma Settled()
      requires Valid() && Idle()
      ensures Joined(Now().delivered) + buffer == Now().received && Now().delivered <= Split(f, Now().received).packets
      ensures !handling && !closed && PacketLen(f, buffer) > 0 ==> bufferMsgs > 0
      ensures !handling && !closed && bufferMsgs == 0 ==> Split(f, Now().received) == Cut(Now().delivered, buffer)
    {
      hide Joined, Split, PacketLen, Next, Init;
      StreamConserved(run, |run| - 1);
      if !handling && !closed && bufferMsgs == 0 {
        AllDelivered(run, |run| - 1);
      }
      if !handling && !closed && PacketLen(f, buffer) > 0 {
        NeverStalls(run, |run| - 1);
      }
    }

    ghost method Goes(s: State)
      requires |run| > 0 && IsRun(run) && Next(Now(), s)
      modifies `run
      ensures run == old(run) + [s] && IsRun(run) && Went(Next, old(run), run)
    {
      hide Next, Went, Stepwise, Init;
      OneMore(Next, run, 0, s);
      WentOne(Next, run, s);
      run := run + [s];
    }

    // ---- Handlers ----

    /** `conn_packet_reader`: at most one packet is cut off and handed over. */
    method PacketReader() returns (len: int)
      requires Valid() && Now().reader == Entered && Now().handler == HandlerIdle
      modifies this
      ensures Valid() && Went(Next, old(run), run) && Idle()
      ensures closed == old(closed) && bufferMsgs == old(bufferMsgs) && Now().received == old(Now()).received
      ensures closed || old(handling) || PacketLen(f, old(buffer)) == 0 ==>
                len <= 0 && buffer == old(buffer) && packet == old(packet) && Now().delivered == old(Now()).delivered
                && handling == old(handling) && packetMsgs == old(packetMsgs)
      ensures !closed && !old(handling) && PacketLen(f, old(buffer)) > 0 ==>
                && len == PacketLen(f, old(buffer)) && packet == old(buffer)[..len] && buffer == old(buffer)[len..]
                && Now().delivered == old(Now()).delivered + [packet] && handling && packetMsgs == old(packetMsgs) + 1
    {
      hide PacketLen, Went, IsRun, Read, TakeBuffer, TakePacket, Handle, PostByEnd, Close;
      WentOn(Next, run);
      len := -1;
      if closed || handling {
        Goes(Now().(reader := ReaderIdle));
      } else {
        Goes(Now().(reader := Scanning));
        len := PacketLen(f, buffer);
        if len > 0 {
          packet := buffer[..len];
          Goes(Now().(packet := packet, reader := Deleting(len)));
          buffer := buffer[len..];
          Goes(Now().(buffer := buffer, delivered := Now().delivered + [packet], reader := Marking));
          HandOverPacket();
        } else {
          Goes(Now().(reader := ReaderIdle));
        }
      }
    }

    /** The session state changes, and then the PACKET message is posted. */
    method HandOverPacket()
      requires Valid() && Now().reader == Marking && !closed
      modifies `handling, `packetMsgs, `run
      ensures Valid() && Went(Next, old(run), run) && handling && packetMsgs == old(packetMsgs) + 1
      ensures Now() == old(Now()).(handling := true, packetMsgs := old(packetMsgs) + 1, reader := ReaderIdle)
    {
      hide PacketLen, Went, IsRun, Read, TakeBuffer, ReaderTests, CopyPacket, DeletePacket, TakePacket, Handle,
        PostByEnd, Close;
      WentOn(Next, run);
      handling := true;
      Goes(Now().(handling := true, reader := Posting));
      packetMsgs := packetMsgs + 1;
      Goes(Now().(packetMsgs := packetMsgs, reader := ReaderIdle));
    }

    /** `conn_read_handler`: MMB_READ appends what has come, and a free session is offered it. */
    method ReadHandler(data: seq<int>) returns (ret: int)
      requires Valid() && Idle()
      modifies this
      ensures Valid() && Went(Next, old(run), run) && Idle() && closed == old(closed)
      ensures ret == -1 <==> closed || data == []
      ensures ret == -1 ==> run == old(run)
      ensures ret != -1 ==> Now().received == old(Now()).received + data
      ensures ret != -1 && (old(handling) || old(packet) != [] || PacketLen(f, old(buffer) + data) == 0) ==>
                buffer == old(buffer) + data && packet == old(packet) && Now().delivered == old(Now()).delivered
      ensures ret != -1 && !old(handling) && old(packet) == [] && PacketLen(f, old(buffer) + data) > 0 ==>
                handling && Now().delivered == old(Now()).delivered + [packet] && packet + buffer == old(buffer) + data
                && |packet| == PacketLen(f, old(buffer) + data)
    {
      hide PacketLen, Went, IsRun, TakeBuffer, CopyPacket, DeletePacket, HandOver, TakePacket, Handle, PostByEnd, Close;
      WentOn(Next, run);
      ret := -1;
      if !closed && |data| > 0 {
        ghost var s := Now();
        buffer := buffer + data;
        ghost var t := s.(buffer := buffer, received := s.received + data, reader := TestState);
        assert Read(s, data, t);
        Goes(t);
        if handling {
          Goes(Now().(reader := ReaderIdle));
        } else {
          Goes(Now().(reader := TestPacket));
          if |packet| == 0 {
            Goes(Now().(reader := Entered));
            var len := PacketReader();
          } else {
            Goes(Now().(reader := ReaderIdle));
          }
        }
        ret := 0;
      }
    }

    /** `conn_buffer_handler` on a BUFFER message. */
    method BufferHandler()
      requires Valid() && Idle() && bufferMsgs > 0
      modifies this
      ensures Valid() && Went(Next, old(run), run) && Idle() && closed == old(closed)
      ensures bufferMsgs == old(bufferMsgs) - 1 && Now().received == old(Now()).received
      ensures old(closed || handling) || PacketLen(f, old(buffer)) == 0 ==>
                buffer == old(buffer) && packet == old(packet) && Now().delivered == old(Now()).delivered
      ensures !old(closed || handling) && PacketLen(f, old(buffer)) > 0 ==>
                handling && Now().delivered == old(Now()).delivered + [packet] && packet + buffer == old(buffer)
                && |packet| == PacketLen(f, old(buffer))
    {
      hide PacketLen, Went, IsRun, Read, CopyPacket, DeletePacket, HandOver, TakePacket, Handle, PostByEnd, Close;
      WentOn(Next, run);
      bufferMsgs := bufferMsgs - 1;
      Goes(Now().(bufferMsgs := bufferMsgs, reader := TestBuffered));
      if closed || handling {
        Goes(Now().(reader := ReaderIdle));
      } else {
        Goes(Now().(reader := Entered));
        var len := PacketReader();
      }
    }

    /** SESSION_RESET: the packet first, then the state, then a BUFFER message if something is left in the buffer. */
    method SessionReset()
      requires Valid() && Now().reader == ReaderIdle && Now().handler == ResetPacket
      modifies this
      ensures Valid() && Went(Next, old(run), run) && Idle() && closed == old(closed) && buffer == old(buffer)
      ensures packet == [] && !handling && packetMsgs == old(packetMsgs)
      ensures Now().delivered == old(Now()).delivered && Now().received == old(Now()).received
      ensures bufferMsgs == old(bufferMsgs) + if buffer != [] && !closed then 1 else 0
    {
      hide PacketLen, Went, IsRun, Read, TakeBuffer, ReaderTests, CopyPacket, DeletePacket, HandOver, TakePacket,
        PostByEnd, Close;
      WentOn(Next, run);
      packet := [];
      Goes(Now().(packet := [], handler := ResetState));
      handling := false;
      Goes(Now().(handling := false, handler := TestBuffer));
      RestOfBuffer();
    }

    /** `if(MMB_NDATA(conn->buffer) > 0){PUSH_INQMESSAGE(conn, MESSAGE_BUFFER);}` */
    method RestOfBuffer()
      requires Valid() && Now().handler == TestBuffer
      modifies `bufferMsgs, `run
      ensures Valid() && Went(Next, old(run), run)
      ensures Now() == old(Now()).(bufferMsgs := bufferMsgs, handler := HandlerIdle)
      ensures bufferMsgs == old(bufferMsgs) + if buffer != [] && !closed then 1 else 0
    {
      hide PacketLen, Went, IsRun, Read, TakeBuffer, ReaderTests, CopyPacket, DeletePacket, HandOver, TakePacket;
      hide PostByEnd, Close;
      WentOn(Next, run);
      if |buffer| > 0 {
        Goes(Now().(handler := PostBuffer));
        if !closed {
          bufferMsgs := bufferMsgs + 1;
        }
        Goes(Now().(bufferMsgs := bufferMsgs, handler := HandlerIdle));
      } else {
        Goes(Now().(handler := HandlerIdle));
      }
    }

    /**
      `conn_packet_handler` on a PACKET message; the session's own handler sees the packet and changes nothing here.
     */
    method PacketHandler()
      requires Valid() && Idle() && packetMsgs > 0
      modifies this
      ensures Valid() && Went(Next, old(run), run) && Idle() && closed == old(closed) && buffer == old(buffer)
      ensures packetMsgs == old(packetMsgs) - 1
      ensures Now().delivered == old(Now()).delivered && Now().received == old(Now()).received
      ensures old(closed || !handling) ==>
        packet == old(packet) && handling == old(handling) && bufferMsgs == old(bufferMsgs)
      ensures !old(closed) && old(handling) ==>
                packet == [] && !handling && bufferMsgs == old(bufferMsgs) + if buffer != [] then 1 else 0
    {
      hide PacketLen, Went, IsRun, Read, TakeBuffer, ReaderTests, CopyPacket, DeletePacket, HandOver, PostByEnd, Close;
      WentOn(Next, run);
      packetMsgs := packetMsgs - 1;
      if closed {
        Goes(Now().(packetMsgs := packetMsgs));
      } else {
        Goes(Now().(packetMsgs := packetMsgs, handler := Running));
        if handling {
          Goes(Now().(handler := ResetPacket));
          SessionReset();
        } else {
          Goes(Now().(handler := HandlerIdle));
        }
      }
    }

    /** `conn_end_handler` on an END message: a free session is told again of what is in the buffer. */
    method EndHandler()
      requires Valid() && Idle()
      modifies `bufferMsgs, `run
      ensures Valid() && Went(Next, old(run), run) && Idle()
      ensures bufferMsgs == old(bufferMsgs) + if !closed && !handling && buffer != [] then 1 else 0
      ensures Now().delivered == old(Now()).delivered && Now().received == old(Now()).received
    {
      hide PacketLen, Went, IsRun, Read, TakeBuffer, ReaderTests, CopyPacket, DeletePacket, HandOver, TakePacket,
        Handle;
      WentOn(Next, run);
      if !closed && !handling && |buffer| > 0 {
        bufferMsgs := bufferMsgs + 1;
        Goes(Now().(bufferMsgs := bufferMsgs));
      }
    }
  }
}
