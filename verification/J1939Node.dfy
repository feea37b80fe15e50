/** The node as the firmware has it: a context updated in place, one 1785-byte buffer, a
    handler table, a CAN device and a clock. Each method does what the J1939 module says. */
module J1939Node {
  import opened Bits
  import opened Can
  import opened J1939
  import opened J1939RoundTrip

  const ENOMEM: int := 12

  ghost predicate PacketsSpaced(packets: seq<Event>) {
    forall i | 1 <= i < |packets| :: packets[i].at >= packets[i - 1].at + TP_SPACING_MS
  }

  /** The data packets of a message, everything after its RTS, keep the sender's spacing. */
  ghost predicate Spaced(out: seq<Event>) {
    out != [] ==> PacketsSpaced(out[1..])
  }

  lemma SpacedAfterRts(rts: Event, packets: seq<Event>)
    requires PacketsSpaced(packets)
    ensures Spaced([rts] + packets)
  {
    assert ([rts] + packets)[1..] == packets;
  }

  lemma SpacedSnoc(packets: seq<Event>, e: Event)
    requires PacketsSpaced(packets)
    requires packets != [] ==> e.at >= packets[|packets| - 1].at + TP_SPACING_MS
    ensures PacketsSpaced(packets + [e])
  {}

  /** The frame a failed send was given and did not put on the bus. */
  function Failed(ret: SendResult): nat {
    if ret == 0 then 0 else 1
  }

  /** The frames `out` of `all` went out, in order, all of them exactly on success; the device was given
      one more when it failed. */
  ghost predicate SentPart(all: seq<Frame>, before: seq<Frame>, tried: seq<Frame>, out: seq<Event>, ret: SendResult) {
    && |out| + Failed(ret) <= |all| && Frames(out) == all[..|out|] && (ret == 0 <==> |out| == |all|)
    && tried == before + all[..|out| + Failed(ret)]
  }

  lemma PrefixCons(f: Frame, fs: seq<Frame>, n: nat)
    requires n <= |fs|
    ensures ([f] + fs)[..n + 1] == [f] + fs[..n]
  {}

  /** The first `n` of the frames went out, and nothing else was tried. */
  ghost predicate SentSoFar(all: seq<Frame>, before: seq<Frame>, tried: seq<Frame>, out: seq<Event>, n: nat) {
    |out| == n <= |all| && Frames(out) == all[..n] && tried == before + all[..n]
  }

  lemma SentOneMore(all: seq<Frame>, before: seq<Frame>, tried: seq<Frame>, out: seq<Event>, e: Event)
    requires |out| < |all| && e.frame == all[|out|] && |tried| > 0
    requires SentSoFar(all, before, tried[..|tried| - 1], out, |out|) && tried[|tried| - 1] == e.frame
    ensures SentSoFar(all, before, tried, out + [e], |out| + 1)
  {
    FramesSnoc(out, e);
    assert all[..|out| + 1] == all[..|out|] + [e.frame];
    assert tried == tried[..|tried| - 1] + [e.frame];
  }

  lemma SentShort(all: seq<Frame>, before: seq<Frame>, tried: seq<Frame>, out: seq<Event>, n: nat, ret: SendResult)
    requires n < |all| && ret < 0 && |tried| > 0
    requires SentSoFar(all, before, tried[..|tried| - 1], out, n) && tried[|tried| - 1] == all[n]
    ensures SentPart(all, before, tried, out, ret)
  {
    assert all[..n + 1] == all[..n] + [all[n]];
    assert tried == tried[..|tried| - 1] + [all[n]];
  }

  lemma NothingSent(first: Frame, rest: seq<Frame>, before: seq<Frame>, ret: SendResult)
    requires ret < 0
    ensures SentPart([first] + rest, before, before + [first], [], ret)
  {
    PrefixCons(first, rest, 0);
    assert Frames([]) == [];
  }

  lemma SentAfter(first: Event, all: seq<Frame>, before: seq<Frame>, tried: seq<Frame>, out: seq<Event>,
                  ret: SendResult)
    requires SentPart(all, before + [first.frame], tried, out, ret)
    ensures SentPart([first.frame] + all, before, tried, [first] + out, ret)
  {
    FramesCons(first, out);
    PrefixCons(first.frame, all, |out|);
    PrefixCons(first.frame, all, |out| + Failed(ret));
  }

  lemma FramesSnoc(out: seq<Event>, e: Event)
    ensures Frames(out + [e]) == Frames(out) + [e.frame]
  {}

  lemma FramesCons(e: Event, out: seq<Event>)
    ensures Frames([e] + out) == [e.frame] + Frames(out)
  {}

  class Context {
    const sourceAddress: byte
    // The surroundings: the result and the duration of each send, and how late each sleep ends.
    const sendResult: nat -> SendResult
    const sendTime: nat -> nat
    const lateness: nat -> nat

    var tpInProgress: bool
    var tpPgn: uint32
    var tpTotalSize: uint16
    var tpNumPackets: byte
    var tpNextPacket: byte
    var tpStartTime: uint32
    const tpBuffer: array<byte>
    var handlers: seq<Handler>

    var clock: nat
    // Every frame given to the CAN device, those it put on the bus and when, and every call made.
    var tried: seq<Frame>
    var sent: seq<Event>
    var delivered: seq<Call>
    var dispatched: seq<Call>
    ghost var history: seq<seq<byte>>

    constructor (source: byte, sendResult: nat -> SendResult, sendTime: nat -> nat, lateness: nat -> nat)
      ensures ValidContext() && fresh(tpBuffer) && sourceAddress == source
      ensures !tpInProgress && handlers == [] && tried == [] && sent == [] && delivered == [] && dispatched == []
      ensures clock == 0 && history == []
    {
      sourceAddress := source;
      this.sendResult, this.sendTime, this.lateness := sendResult, sendTime, lateness;
      tpInProgress, tpPgn, tpTotalSize, tpNumPackets, tpNextPacket, tpStartTime := false, 0, 0, 0, 0, 0;
      tpBuffer := new byte[TP_BUFFER_SIZE](_ => 0);
      handlers, clock, tried, sent, delivered, dispatched, history := [], 0, [], [], [], [], [];
    }

    ghost predicate ValidContext()
      reads this
    {
      tpBuffer.Length == TP_BUFFER_SIZE && tpTotalSize <= TP_BUFFER_SIZE
    }

    ghost function State(): (s: Session)
      reads this, tpBuffer
      requires ValidContext()
      ensures Valid(s)
    {
      Session(tpInProgress, tpPgn, tpTotalSize, tpNumPackets, tpNextPacket, tpStartTime, tpBuffer[..], history)
    }

    ghost function Self(): Node
      reads this
    {
      Node(sourceAddress, handlers)
    }

    method RegisterHandler(pgn: uint32, callback: nat) returns (ret: int)
      modifies this`handlers
      ensures ret == if |old(handlers)| >= 32 then -12 else 0
      ensures handlers == if ret == 0 then old(handlers) + [Handler(pgn, callback)] else old(handlers)
    {
      if |handlers| >= MAX_PGN_HANDLERS {
        return -ENOMEM;
      }
      handlers := handlers + [Handler(pgn, callback)];
      ret := 0;
    }

    /** `j1939_send_pgn`: the frame goes out when the device accepts it. */
    method SendPgn(pgn: uint32, data: seq<byte>) returns (ret: SendResult)
      requires |data| <= 8
      modifies this`clock, this`tried, this`sent
      ensures tried == old(tried) + [PgnFrame(sourceAddress, pgn, data)] && ret == sendResult(|old(tried)|)
      ensures sent == old(sent) + if ret == 0 then [Event(clock, PgnFrame(sourceAddress, pgn, data))] else []
      ensures clock >= old(clock)
    {
      var frame := PgnFrame(sourceAddress, pgn, data);
      ret := sendResult(|tried|);
      clock := clock + sendTime(|tried|);
      tried := tried + [frame];
      if ret == 0 {
        sent := sent + [Event(clock, frame)];
      }
    }

    /** `k_sleep`: at least `ms` milliseconds. */
    method Sleep(ms: nat)
      modifies this`clock
      ensures clock >= old(clock) + ms
    {
      clock := clock + ms + lateness(|tried|);
    }

    /** `j1939_send_tp_data`: a prefix of the message's frames goes out, the whole message exactly
        when 0 is returned, and its data packets at least 50 ms apart. */
    method SendTpData(pgn: uint32, data: seq<byte>, filler: Filler) returns (ret: SendResult, ghost out: seq<Event>)
      requires |data| < 0x1_0000
      modifies this`clock, this`tried, this`sent
      ensures sent == old(sent) + out && Spaced(out)
      ensures SentPart(MessageFrames(sourceAddress, pgn, data, filler), old(tried), tried, out, ret)
      ensures ret == 0 || ret == sendResult(|tried| - 1)
    {
      if |data| <= 8 {
        ret := SendPgn(pgn, data);
        out := if ret == 0 then [Event(clock, PgnFrame(sourceAddress, pgn, data))] else [];
      } else {
        ret, out := SendPacketed(pgn, data, filler);
      }
    }

    /** `j1939_send_tp_data` past its first test: the RTS and the packets. */
    method SendPacketed(pgn: uint32, data: seq<byte>, filler: Filler)
      returns (ret: SendResult, ghost out: seq<Event>)
      requires 8 < |data| < 0x1_0000
      modifies this`clock, this`tried, this`sent
      ensures sent == old(sent) + out && Spaced(out)
      ensures SentPart(MessageFrames(sourceAddress, pgn, data, filler), old(tried), tried, out, ret)
      ensures ret == 0 || ret == sendResult(|tried| - 1)
    {
      ghost var dts := DtFrames(sourceAddress, data, filler);
      ghost var rts := RtsFrame(sourceAddress, pgn, |data|);
      ret := SendRts(pgn, |data|);
      if ret < 0 {
        out := [];
        NothingSent(rts, dts, old(tried), ret);
        return;
      }
      ghost var opening := Event(clock, rts);
      ret, out := SendPackets(data, PacketCount(|data|), filler);
      SpacedAfterRts(opening, out);
      SentAfter(opening, dts, old(tried), tried, out, ret);
      out := [opening] + out;
    }

    method SendRts(pgn: uint32, len: uint16) returns (ret: SendResult)
      modifies this`clock, this`tried, this`sent
      ensures tried == old(tried) + [RtsFrame(sourceAddress, pgn, len)] && ret == sendResult(|old(tried)|)
      ensures sent == old(sent) + if ret == 0 then [Event(clock, RtsFrame(sourceAddress, pgn, len))] else []
    {
      ret := SendPgn(PGN_TP_CM, [TP_CM_RTS, len % 0x100, len / 0x100, PacketCount(len), 0xFF,
                                 PgnByte(pgn, 0), PgnByte(pgn, 1), PgnByte(pgn, 2)]);
    }

    /** The loop of `j1939_send_tp_data` over its packets. */
    method SendPackets(data: seq<byte>, numPackets: byte, filler: Filler)
      returns (ret: SendResult, ghost out: seq<Event>)
      requires |data| < 0x1_0000 && numPackets == PacketCount(|data|)
      modifies this`clock, this`tried, this`sent
      ensures sent == old(sent) + out && PacketsSpaced(out)
      ensures SentPart(DtFrames(sourceAddress, data, filler), old(tried), tried, out, ret)
      ensures ret == 0 || ret == sendResult(|tried| - 1)
    {
      out := [];
      ghost var dts := DtFrames(sourceAddress, data, filler);
      var i := 0;
      while i < numPackets
        invariant 0 <= i <= numPackets && SentSoFar(dts, old(tried), tried, out, i)
        invariant sent == old(sent) + out && PacketsSpaced(out)
        invariant i > 0 ==> clock >= out[i - 1].at + TP_SPACING_MS
      {
        assert dts[i] == DtFrame(sourceAddress, data, i, filler);
        ret := SendPgn(PGN_TP_DT, DataPacket(data, i, filler));
        if ret < 0 {
          SentShort(dts, old(tried), tried, out, i, ret);
          return;
        }
        ghost var packet := Event(clock, dts[i]);
        SentOneMore(dts, old(tried), tried, out, packet);
        SpacedSnoc(out, packet);
        out := out + [packet];
        Sleep(TP_SPACING_MS);
        i := i + 1;
      }
      ret := 0;
    }

    method SendAbort(reason: byte)
      modifies this`clock, this`tried, this`sent
      ensures tried == old(tried) + [AbortFrame(sourceAddress, reason)]
    {
      var _ := SendPgn(PGN_TP_CM, [TP_CM_ABORT, reason, 0xFF, 0xFF, 0, 0, 0, 0]);
    }

    /** Looks up the handlers in order and calls the first one registered for `pgn`. */
    method FindHandler(pgn: uint32, data: seq<byte>) returns (calls: seq<Call>)
      ensures calls == Handed(handlers, pgn, data)
    {
      calls := [];
      for i := 0 to |handlers|
        invariant calls == [] && Handed(handlers, pgn, data) == Handed(handlers[i..], pgn, data)
      {
        assert handlers[i..][1..] == handlers[i + 1..];
        if handlers[i].pgn == pgn {
          return [Call(handlers[i].callback, data)];
        }
      }
    }

    method HandleTpRts(frame: Frame)
      requires ValidContext()
      modifies this
      ensures ValidContext() && Self() == old(Self()) && tpBuffer[..] == old(tpBuffer[..])
      ensures var step := HandleRts(old(Self()), old(State()), old(clock) % TWO32, frame);
              && State() == step.session && tried == old(tried) + step.replies
              && delivered == old(delivered) && dispatched == old(dispatched)
    {
      if tpInProgress {
        SendAbort(1);
        return;
      }
      var size := RtsSize(frame);
      var numPackets := frame.data[3];
      var pgn := RtsPgn(frame);
      if !SizeMatches(size, numPackets) {
        SendAbort(2);
        return;
      }
      OpenSession(pgn, size, numPackets);
      var _ := SendPgn(PGN_TP_CM, [TP_CM_CTS, numPackets, 1, 0xFF, 0xFF,
                                   PgnByte(pgn, 0), PgnByte(pgn, 1), PgnByte(pgn, 2)]);
    }

    /** Starts the session now, with nothing received. */
    method OpenSession(pgn: uint32, size: uint16, numPackets: byte)
      requires ValidContext() && size <= TP_BUFFER_SIZE
      modifies this`tpInProgress, this`tpPgn, this`tpTotalSize, this`tpNumPackets
      modifies this`tpNextPacket, this`tpStartTime, this`history
      ensures ValidContext()
      ensures State() == Session(true, pgn, size, numPackets, 1, clock % TWO32, old(tpBuffer[..]), [])
    {
      tpPgn := pgn;
      tpTotalSize := size;
      tpNumPackets := numPackets;
      tpNextPacket := 1;
      tpStartTime := clock % TWO32;
      tpInProgress := true;
      history := [];
    }

    method HandleTpDt(frame: Frame)
      requires ValidContext()
      modifies this, tpBuffer
      ensures ValidContext() && Self() == old(Self())
      ensures var step := HandleDt(old(Self()), old(State()), old(clock) % TWO32, frame);
              && State() == step.session && tried == old(tried) + step.replies
              && delivered == old(delivered) + step.delivered && dispatched == old(dispatched)
    {
      if !tpInProgress {
        return;
      }
      if Elapsed(clock % TWO32, tpStartTime) > TP_TIMEOUT_MS {
        SendAbort(3);
        tpInProgress := false;
        return;
      }
      var seqno := frame.data[0];
      if seqno != tpNextPacket {
        SendAbort(4);
        tpInProgress := false;
        return;
      }
      var offset := PacketOffset(seqno);
      var len := PacketLength(tpTotalSize, seqno);
      if offset + len > tpTotalSize {
        SendAbort(5);
        tpInProgress := false;
        return;
      }
      TakePacket(frame);
      if tpNextPacket > tpNumPackets {
        if tpTotalSize != offset + len {
          SendAbort(6);
          tpInProgress := false;
          return;
        }
        DeliverMessage();
      }
    }

    /** Copies the packet's bytes into the buffer, within its bounds, and counts it. */
    method TakePacket(frame: Frame)
      requires ValidContext() && frame.data[0] == tpNextPacket
      requires PacketOffset(tpNextPacket) + PacketLength(tpTotalSize, tpNextPacket) <= tpTotalSize
      modifies this`tpNextPacket, this`history, tpBuffer
      ensures ValidContext() && State() == AfterPacket(old(State()), frame)
    {
      var offset := PacketOffset(tpNextPacket);
      var len := PacketLength(tpTotalSize, tpNextPacket);
      forall i | 0 <= i < len {
        tpBuffer[offset + i] := frame.data[1 + i];
      }
      assert tpBuffer[..] == Overwritten(old(tpBuffer[..]), offset, frame.data[1..1 + len]);
      tpNextPacket := (tpNextPacket + 1) % 0x100;
      history := history + [frame.data[1..]];
    }

    /** Acknowledges the complete message, hands it over and closes the session. */
    method DeliverMessage()
      requires ValidContext()
      modifies this`clock, this`tried, this`sent, this`delivered, this`tpInProgress
      ensures State() == old(State()).(open := false)
      ensures tried == old(tried) + [AckFrame(sourceAddress, tpTotalSize, tpNumPackets, tpPgn)]
      ensures delivered == old(delivered) + Handed(handlers, tpPgn, tpBuffer[..tpTotalSize])
    {
      var low: byte, high: byte := tpTotalSize % 0x100, tpTotalSize / 0x100;
      var _ := SendPgn(PGN_TP_CM, [TP_CM_END_OF_MSG_ACK, low, high, tpNumPackets, 0xFF,
                                   PgnByte(tpPgn, 0), PgnByte(tpPgn, 1), PgnByte(tpPgn, 2)]);
      var calls := FindHandler(tpPgn, tpBuffer[..tpTotalSize]);
      delivered := delivered + calls;
      tpInProgress := false;
    }

    /** `j1939_process_message` takes one step of the receiving session. */
    method ProcessMessage(frame: Frame)
      requires ValidContext()
      modifies this, tpBuffer
      ensures ValidContext() && Self() == old(Self())
      ensures var step := Process(old(Self()), old(State()), old(clock) % TWO32, frame);
              && State() == step.session && tried == old(tried) + step.replies
              && delivered == old(delivered) + step.delivered && dispatched == old(dispatched) + step.dispatched
    {
      var pgn := PgnOfId(frame.id);
      if pgn == PGN_TP_CM {
        if frame.data[0] == TP_CM_RTS {
          HandleTpRts(frame);
        } else if frame.data[0] == TP_CM_END_OF_MSG_ACK || frame.data[0] == TP_CM_ABORT {
          tpInProgress := false;
        }
        return;
      }
      if pgn == PGN_TP_DT {
        HandleTpDt(frame);
        return;
      }
      var calls := FindHandler(pgn, frame.data[..frame.dlc]);
      dispatched := dispatched + calls;
    }
  }
}
