/** What goes on the bus, byte by byte: the frames a message is sent in, and the answer to every
    received frame. */
module J1939Answers {
  import opened Bits
  import opened Can
  import opened J1939
  import opened J1939Session
  import opened J1939RoundTrip

  /** A full frame of this group, priority 3, from this address, with these bytes. */
  ghost predicate Carries(f: Frame, pgn: uint32, source: byte, bytes: seq<byte>) {
    && f.id / 0x400_0000 == 3 && f.id / 0x100 % 0x2_0000 == pgn && f.id % 0x100 == source
    && f.dlc == 8 && f.data == bytes
  }

  /** An identifier holds priority, group and source address; only group bits from 2^18 up run into
      the priority. */
  lemma IdFields(pgn: uint32, priority: byte, source: byte)
    ensures BuildId(pgn, priority, source) % 0x100 == source
    ensures pgn < 0x4_0000 ==> BuildId(pgn, priority, source) / 0x400_0000 == priority % 64
  {
    var high := IdValue(pgn, priority, source);
    IdSplits(high, pgn % 0x4_0000, source);
  }

  lemma IdSplits(high: nat, low: nat, source: byte)
    requires low < 0x4_0000
    ensures var id := (high * 0x4_0000 + low) * 0x100 + source; id % 0x100 == source && id / 0x400_0000 == high
  {}

  lemma PgnFrameCarries(source: byte, pgn: uint32, data: seq<byte>)
    requires |data| == 8 && pgn < 0x2_0000
    ensures Carries(PgnFrame(source, pgn, data), pgn, source, data)
  {
    IdFields(pgn, PRIORITY_MEDIUM, source);
    PgnSurvivesId(pgn, PRIORITY_MEDIUM, source);
  }

  lemma AbortCarries(source: byte, reason: byte)
    ensures Carries(AbortFrame(source, reason), 0xEC00, source, [0xFF, reason, 0xFF, 0xFF, 0, 0, 0, 0])
  {
    PgnFrameCarries(source, PGN_TP_CM, [TP_CM_ABORT, reason, 0xFF, 0xFF, 0, 0, 0, 0]);
  }

  lemma CtsCarries(source: byte, count: byte, pgn: uint32)
    ensures Carries(CtsFrame(source, count, pgn), 0xEC00, source,
                    [0x11, count, 1, 0xFF, 0xFF, pgn % 0x100, pgn / 0x100 % 0x100, pgn / 0x1_0000 % 0x100])
  {
    PgnFrameCarries(source, PGN_TP_CM,
                    [TP_CM_CTS, count, 1, 0xFF, 0xFF, PgnByte(pgn, 0), PgnByte(pgn, 1), PgnByte(pgn, 2)]);
  }

  lemma AckCarries(source: byte, size: uint16, count: byte, pgn: uint32)
    ensures Carries(AckFrame(source, size, count, pgn), 0xEC00, source,
                    [0x13, size % 0x100, size / 0x100, count, 0xFF,
                     pgn % 0x100, pgn / 0x100 % 0x100, pgn / 0x1_0000 % 0x100])
  {
    PgnFrameCarries(source, PGN_TP_CM,
                    [TP_CM_END_OF_MSG_ACK, size % 0x100, size / 0x100, count, 0xFF,
                     PgnByte(pgn, 0), PgnByte(pgn, 1), PgnByte(pgn, 2)]);
  }

  // ---------------------------------------------------------------- the sender

  /** The RTS of a message: its length, low byte first, the number of packets modulo 256, the group. */
  lemma RtsBytes(source: byte, pgn: uint32, len: uint16)
    ensures Carries(RtsFrame(source, pgn, len), 0xEC00, source,
                    [0x10, len % 0x100, len / 0x100, (len + 6) / 7 % 0x100, 0xFF,
                     pgn % 0x100, pgn / 0x100 % 0x100, pgn / 0x1_0000 % 0x100])
  {
    PgnFrameCarries(source, PGN_TP_CM,
                    [TP_CM_RTS, len % 0x100, len / 0x100, PacketCount(len), 0xFF,
                     PgnByte(pgn, 0), PgnByte(pgn, 1), PgnByte(pgn, 2)]);
  }

  /** Data packet `i`: its number and the message's bytes from `7 i` on, whatever follows them. */
  lemma DtBytes(source: byte, data: seq<byte>, i: nat, filler: Filler)
    requires 7 * i < |data| && i < 0xFF
    ensures var f, n := DtFrame(source, data, i, filler), Min(7, |data| - 7 * i);
            Carries(f, 0xEB00, source, f.data) && f.data[..1 + n] == [i + 1] + data[7 * i..7 * i + n]
  {
    PgnFrameCarries(source, PGN_TP_DT, DataPacket(data, i, filler));
    assert DtFrame(source, data, i, filler).data == DataPacket(data, i, filler);
  }

  // ---------------------------------------------------------------- the receiver

  lemma GroupBytes(f: Frame)
    ensures RtsPgn(f) % 0x100 == f.data[5]
    ensures RtsPgn(f) / 0x100 % 0x100 == f.data[6]
    ensures RtsPgn(f) / 0x1_0000 % 0x100 == f.data[7]
  {}

  /** The size in bytes 1 and 2 of an RTS, and the number of packets that takes, rounded up. */
  ghost predicate Acceptable(f: Frame) {
    var size := f.data[1] as int + 0x100 * f.data[2] as int;
    1 <= size <= 1785 && 7 * (f.data[3] as int - 1) < size <= 7 * f.data[3] as int
  }

  /** An RTS at an idle receiver has exactly one answer. If its size is 1 to 1785 and its count the size
      over seven, rounded up, a session opens and the answer clears all its packets to be sent;
      otherwise nothing opens, and the answer is an abort with reason 2. */
  lemma RtsAnswered(node: Node, s: Session, now: uint32, f: Frame)
    requires Valid(s) && !s.open && IsCommand(f, 0x10)
    ensures var r := Process(node, s, now, f);
            && |r.replies| == 1 && r.delivered == [] && r.dispatched == []
            && if Acceptable(f) then
                 && r.session.open && r.session.next == 1 && r.session.start == now && r.session.count == f.data[3]
                 && r.session.size == f.data[1] as int + 0x100 * f.data[2] as int
                 && Carries(r.replies[0], 0xEC00, node.source,
                            [0x11, f.data[3], 1, 0xFF, 0xFF, f.data[5], f.data[6], f.data[7]])
               else
                 && r.session == s
                 && Carries(r.replies[0], 0xEC00, node.source, [0xFF, 2, 0xFF, 0xFF, 0, 0, 0, 0])
  {
    AcceptableSize(f);
    GroupBytes(f);
    CtsCarries(node.source, f.data[3], RtsPgn(f));
    AbortCarries(node.source, 2);
  }

  lemma AcceptableSize(f: Frame)
    ensures Acceptable(f) <==> SizeMatches(RtsSize(f), f.data[3])
  {
    SizeCheck(RtsSize(f), f.data[3]);
  }

  /** An RTS at a receiver in a session changes nothing and is aborted with reason 1. */
  lemma BusyRefuses(node: Node, s: Session, now: uint32, f: Frame)
    requires Valid(s) && s.open && IsCommand(f, 0x10)
    ensures var r := Process(node, s, now, f);
            && r.session == s && r.delivered == [] && r.dispatched == [] && |r.replies| == 1
            && Carries(r.replies[0], 0xEC00, node.source, [0xFF, 1, 0xFF, 0xFF, 0, 0, 0, 0])
  {
    AbortCarries(node.source, 1);
  }

  /** A data frame in a session: late ones end it with reason 3, else those out of order with reason 4,
      else one after packet 255 with reason 5. The others are taken, without an answer until the last,
      which is acknowledged with the message's size, count and group. */
  lemma DataAnswered(node: Node, s: Session, now: uint32, f: Frame)
    requires Inv(s) && s.open && IsDt(f)
    ensures var r, late, wrong := Process(node, s, now, f), Elapsed(now, s.start) > 750, f.data[0] != s.next;
            if late || wrong || s.next == 0 then
              && !r.session.open && |r.replies| == 1 && r.delivered == []
              && Carries(r.replies[0], 0xEC00, node.source,
                         [0xFF, if late then 3 else if wrong then 4 else 5, 0xFF, 0xFF, 0, 0, 0, 0])
            else if s.next < s.count || s.next == 255 then r.session.open && r.replies == []
            else
              && !r.session.open && |r.replies| == 1
              && Carries(r.replies[0], 0xEC00, node.source,
                         [0x13, s.size % 0x100, s.size / 0x100, s.count, 0xFF,
                          s.pgn % 0x100, s.pgn / 0x100 % 0x100, s.pgn / 0x1_0000 % 0x100])
  {
    if Accepts(s, now, f) {
      AcceptedDt(node, s, now, f);
      AckCarries(node.source, s.size, s.count, s.pgn);
    } else {
      RejectedDt(node, s, now, f);
      AbortCarries(node.source, 3);
      AbortCarries(node.source, 4);
      AbortCarries(node.source, 5);
    }
  }

  /** A data frame at an idle receiver does nothing. */
  lemma IdleDt(node: Node, s: Session, now: uint32, f: Frame)
    requires Valid(s) && !s.open && IsDt(f)
    ensures Process(node, s, now, f) == Step(s, [], [], [])
  {}

  /** An acknowledgement or an abort ends the session, whatever its state, and is not answered; any other
      command but an RTS does nothing. */
  lemma ClosingFrames(node: Node, s: Session, now: uint32, f: Frame)
    requires Valid(s) && PgnOfId(f.id) == 0xEC00 && f.data[0] != 0x10
    ensures Process(node, s, now, f)
         == Step(if f.data[0] in {0x13, 0xFF} then s.(open := false) else s, [], [], [])
  {}

  /** A frame of any other group leaves the session alone and goes to the group's first handler, with
      as many bytes as it carries. */
  lemma OtherGroups(node: Node, s: Session, now: uint32, f: Frame)
    requires Valid(s) && PgnOfId(f.id) != 0xEC00 && PgnOfId(f.id) != 0xEB00
    ensures Process(node, s, now, f) == Step(s, [], [], Handed(node.handlers, PgnOfId(f.id), f.data[..f.dlc]))
  {}
}
