/** What holds of the receiving session under any stream of frames whatever. */
module J1939Session {
  import opened Bits
  import opened Can
  import opened J1939

  /** Seven-byte packets a message of `size` bytes needs. */
  function Packets(size: nat): nat {
    (size + 6) / 7
  }

  function Concat(payloads: seq<seq<byte>>): seq<byte> {
    if payloads == [] then []
    else Concat(payloads[..|payloads| - 1]) + payloads[|payloads| - 1]
  }

  lemma {:induction false} ConcatLength(payloads: seq<seq<byte>>)
    requires forall p <- payloads :: |p| == 7
    ensures |Concat(payloads)| == 7 * |payloads|
  {
    if payloads != [] {
      ConcatLength(payloads[..|payloads| - 1]);
    }
  }

  /** The session invariant. `next` is 0 only after packet 255 has been taken. */
  ghost predicate Inv(s: Session) {
    && Valid(s)
    && (s.open ==>
          && 1 <= s.size
          && s.count == Packets(s.size)
          && s.next <= s.count
          && (s.next == 0 ==> s.count == 255)
          && |s.history| == (if s.next == 0 then 255 else s.next - 1)
          && (forall p <- s.history :: |p| == 7)
          && Stored(s))
  }

  /** The buffer starts with the accepted payloads, the last one cut at the message size. */
  ghost predicate Stored(s: Session)
    requires Valid(s)
  {
    var m := Min(7 * |s.history|, s.size);
    m <= |Concat(s.history)| && s.buffer[..m] == Concat(s.history)[..m]
  }

  /** The size check of an RTS says exactly that the count is the size in packets, rounded up. */
  lemma SizeCheck(size: uint16, count: byte)
    ensures SizeMatches(size, count) <==> 1 <= size <= TP_BUFFER_SIZE && count == Packets(size)
  {}

  /** In an open session every packet but the last is full, and the last ends the message. */
  lemma PacketGeometry(size: uint16, seqno: byte)
    requires 1 <= size <= TP_BUFFER_SIZE && 1 <= seqno <= Packets(size)
    ensures PacketOffset(seqno) == 7 * (seqno - 1)
    ensures PacketOffset(seqno) + PacketLength(size, seqno) == Min(7 * seqno, size)
    ensures seqno == Packets(size) ==> 7 * seqno >= size
    ensures PacketLength(size, seqno) <= 7
  {}

  lemma StoreKeepsPrefix(s: Session, f: Frame)
    requires Inv(s) && s.open && s.next > 0
    ensures var offset, n := PacketOffset(s.next), PacketLength(s.size, s.next);
            && offset == 7 * |s.history| && offset + n == Min(7 * (|s.history| + 1), s.size)
            && Overwritten(s.buffer, offset, f.data[1..1 + n])[..offset + n]
               == Concat(s.history + [f.data[1..]])[..offset + n]
            && |Concat(s.history + [f.data[1..]])| >= offset + n
  {
    PacketGeometry(s.size, s.next);
    var offset, n := PacketOffset(s.next), PacketLength(s.size, s.next);
    var h, p := s.history, f.data[1..];
    assert (h + [p])[..|h|] == h;
    ConcatLength(h);
    assert s.buffer[..offset] == Concat(h)[..offset] == Concat(h);
    assert Concat(h + [p]) == Concat(h) + p;
    assert p[..n] == f.data[1..1 + n];
  }

  predicate IsDt(f: Frame) {
    PgnOfId(f.id) == PGN_TP_DT
  }

  predicate IsCommand(f: Frame, command: byte) {
    PgnOfId(f.id) == PGN_TP_CM && f.data[0] == command
  }

  /** The data frame is the one an open session waits for, and is in time. */
  predicate Accepts(s: Session, now: uint32, f: Frame) {
    s.open && Elapsed(now, s.start) <= TP_TIMEOUT_MS && f.data[0] == s.next && s.next > 0
  }

  lemma StoredAfterPacket(s: Session, f: Frame)
    requires Inv(s) && s.open && s.next > 0
    ensures PacketOffset(s.next) + PacketLength(s.size, s.next) <= s.size
    ensures Stored(AfterPacket(s, f))
  {
    PacketGeometry(s.size, s.next);
    StoreKeepsPrefix(s, f);
    StoredUpTo(AfterPacket(s, f), PacketOffset(s.next) + PacketLength(s.size, s.next));
  }

  lemma StoredUpTo(s: Session, m: nat)
    requires Valid(s) && m == Min(7 * |s.history|, s.size) <= |Concat(s.history)|
    requires s.buffer[..m] == Concat(s.history)[..m]
    ensures Stored(s)
  {}

  /** What becomes of a packet in its place. */
  lemma TakenDt(node: Node, s: Session, now: uint32, f: Frame)
    requires Valid(s) && Accepts(s, now, f)
    requires PacketOffset(s.next) + PacketLength(s.size, s.next) <= s.size
    ensures var t, end := AfterPacket(s, f), PacketOffset(s.next) + PacketLength(s.size, s.next);
            HandleDt(node, s, now, f)
            == if t.next <= t.count then Step(t, [], [], [])
               else if s.size != end then AbortSession(node, t, 6)
               else Step(t.(open := false), [AckFrame(node.source, s.size, s.count, s.pgn)],
                         Handed(node.handlers, s.pgn, t.buffer[..s.size]), [])
  {}

  lemma NextPacket(next: byte, count: byte)
    requires 0 < next <= count
    ensures (next + 1) % 0x100 <= count <==> next == 255 || next < count
  {}

  /** A data frame the session waits for is stored; it completes the session when it is the last. */
  lemma AcceptedDt(node: Node, s: Session, now: uint32, f: Frame)
    requires Inv(s) && Accepts(s, now, f)
    ensures var r := HandleDt(node, s, now, f);
            && r.session == Session(s.next == 255 || s.next < s.count,
                                    s.pgn, s.size, s.count, (s.next + 1) % 0x100, s.start,
                                    r.session.buffer, s.history + [f.data[1..]])
            && Stored(r.session)
            && r.delivered == (if r.session.open then [] else Handed(node.handlers, s.pgn, r.session.buffer[..s.size]))
            && r.replies == (if r.session.open then [] else [AckFrame(node.source, s.size, s.count, s.pgn)])
            && r.dispatched == []
  {
    PacketGeometry(s.size, s.next);
    StoredAfterPacket(s, f);
    TakenDt(node, s, now, f);
    NextPacket(s.next, s.count);
  }

  /** Any other data frame ends the session and delivers nothing. */
  lemma RejectedDt(node: Node, s: Session, now: uint32, f: Frame)
    requires Inv(s) && s.open && !Accepts(s, now, f)
    ensures var reason := if Elapsed(now, s.start) > TP_TIMEOUT_MS then 3 else if f.data[0] != s.next then 4 else 5;
            HandleDt(node, s, now, f) == AbortSession(node, s, reason)
  {}

  lemma HistoryGrows(h: seq<seq<byte>>, p: seq<byte>)
    requires (forall q <- h :: |q| == 7) && |p| == 7
    ensures forall q <- h + [p] :: |q| == 7
  {}

  lemma RtsKeepsInv(node: Node, s: Session, now: uint32, f: Frame)
    requires Inv(s)
    ensures Inv(HandleRts(node, s, now, f).session)
  {
    SizeCheck(RtsSize(f), f.data[3]);
    var t := HandleRts(node, s, now, f).session;
    if t != s {
      assert Stored(t) by { assert t.buffer[..0] == Concat(t.history)[..0]; }
    }
  }

  lemma InvAfterAccept(s: Session, t: Session, payload: seq<byte>)
    requires Inv(s) && s.open && s.next > 0 && Valid(t)
    requires t.open <==> s.next == 255 || s.next < s.count
    requires t.size == s.size && t.count == s.count && t.next == (s.next + 1) % 0x100
    requires t.history == s.history + [payload] && |payload| == 7 && Stored(t)
    ensures Inv(t)
  {
    HistoryGrows(s.history, payload);
  }

  lemma DtKeepsInv(node: Node, s: Session, now: uint32, f: Frame)
    requires Inv(s)
    ensures Inv(HandleDt(node, s, now, f).session)
  {
    if s.open {
      if Accepts(s, now, f) {
        AcceptedDt(node, s, now, f);
        InvAfterAccept(s, HandleDt(node, s, now, f).session, f.data[1..]);
      } else {
        RejectedDt(node, s, now, f);
      }
    }
  }

  /** Every frame, in or out of order, on time or late, keeps the session invariant. */
  lemma StepKeepsInv(node: Node, s: Session, now: uint32, f: Frame)
    requires Inv(s)
    ensures Inv(Process(node, s, now, f).session)
  {
    if IsDt(f) {
      DtKeepsInv(node, s, now, f);
    } else {
      RtsKeepsInv(node, s, now, f);
    }
  }

  lemma {:induction false} RunKeepsInv(node: Node, s: Session, es: seq<Event>)
    requires Inv(s)
    ensures Inv(Run(node, s, es).session)
  {
    if es != [] {
      var last := es[|es| - 1];
      RunKeepsInv(node, s, es[..|es| - 1]);
      StepKeepsInv(node, Run(node, s, es[..|es| - 1]).session, last.at % TWO32, last.frame);
    }
  }

  // ---------------------------------------------------------------- aborts

  /** Once packet 255 is in, no data frame can do anything but abort the session. */
  lemma ExhaustedSessionAborts(node: Node, s: Session, now: uint32, f: Frame)
    requires Inv(s) && s.open && s.next == 0 && IsDt(f)
    ensures var r := Process(node, s, now, f);
            && !r.session.open && r.delivered == []
            && exists reason :: reason in {3, 4, 5} && r.replies == [AbortFrame(node.source, reason)]
  {
    RejectedDt(node, s, now, f);
  }

  lemma RepliesDiffer(source: byte, reason: byte, other: byte, s: Session, count: byte, pgn: uint32)
    ensures AbortFrame(source, reason) != AckFrame(source, s.size, s.count, s.pgn)
    ensures AbortFrame(source, reason) != CtsFrame(source, count, pgn)
    ensures reason != other ==> AbortFrame(source, reason) != AbortFrame(source, other)
  {
    assert AbortFrame(source, reason).data[..2] == [TP_CM_ABORT, reason];
    assert AbortFrame(source, other).data[..2] == [TP_CM_ABORT, other];
    assert AckFrame(source, s.size, s.count, s.pgn).data[0] == TP_CM_END_OF_MSG_ACK;
    assert CtsFrame(source, count, pgn).data[0] == TP_CM_CTS;
  }

  /** Abort reason 6 is never sent; reason 5 answers exactly a timely frame numbered 0 in a
      session whose packet counter has wrapped. */
  lemma AbortReasons(node: Node, s: Session, now: uint32, f: Frame)
    requires Inv(s)
    ensures AbortFrame(node.source, 6) !in Process(node, s, now, f).replies
    ensures AbortFrame(node.source, 5) in Process(node, s, now, f).replies
        <==> IsDt(f) && s.open && s.next == 0 && f.data[0] == 0 && Elapsed(now, s.start) <= TP_TIMEOUT_MS
  {
    forall reason: byte, other: byte {
      RepliesDiffer(node.source, reason, other, s, f.data[3], RtsPgn(f));
    }
    if IsDt(f) && s.open {
      if Accepts(s, now, f) { AcceptedDt(node, s, now, f); } else { RejectedDt(node, s, now, f); }
    }
  }

  lemma {:induction false} NoRunSendsReason6(node: Node, s: Session, es: seq<Event>)
    requires Inv(s)
    ensures AbortFrame(node.source, 6) !in Run(node, s, es).replies
  {
    if es != [] {
      var last, init := es[|es| - 1], es[..|es| - 1];
      NoRunSendsReason6(node, s, init);
      RunKeepsInv(node, s, init);
      AbortReasons(node, Run(node, s, init).session, last.at % TWO32, last.frame);
    }
  }

  // ---------------------------------------------------------------- a sender that falls silent

  predicate EndsSession(f: Frame) {
    IsCommand(f, TP_CM_END_OF_MSG_ACK) || IsCommand(f, TP_CM_ABORT)
  }

  /** How many of the frames are RTS. */
  function RtsCount(es: seq<Event>): nat {
    if es == [] then 0
    else RtsCount(es[..|es| - 1]) + if IsCommand(es[|es| - 1].frame, TP_CM_RTS) then 1 else 0
  }

  lemma SilentStep(node: Node, s: Session, now: uint32, f: Frame)
    requires Valid(s) && s.open && !IsDt(f) && !EndsSession(f)
    ensures var r := Process(node, s, now, f);
            && r.session == s && r.delivered == []
            && r.replies == if IsCommand(f, TP_CM_RTS) then [AbortFrame(node.source, 1)] else []
  {}

  /** Nothing but a data frame, an acknowledgement or an abort ends an open session, however long its
      sender has been silent: until one comes, the session stays as it is, and every RTS is refused
      with reason 1. */
  lemma {:induction false} SilentSessionStays(node: Node, s: Session, es: seq<Event>)
    requires Valid(s) && s.open
    requires forall i | 0 <= i < |es| :: !IsDt(es[i].frame) && !EndsSession(es[i].frame)
    ensures var r := Run(node, s, es);
            && r.session == s && r.delivered == []
            && r.replies == seq(RtsCount(es), _ => AbortFrame(node.source, 1))
  {
    if es != [] {
      var init, last := es[..|es| - 1], es[|es| - 1];
      SilentSessionStays(node, s, init);
      SilentStep(node, s, last.at % TWO32, last.frame);
    }
  }

  // ---------------------------------------------------------------- deliveries

  lemma {:induction false} HandedOnce(handlers: seq<Handler>, pgn: uint32, data: seq<byte>)
    ensures |Handed(handlers, pgn, data)| <= 1
    ensures forall c <- Handed(handlers, pgn, data) :: c.data == data
  {
    if handlers != [] { HandedOnce(handlers[1..], pgn, data); }
  }

  /** What a step that closes a session with a delivery found in it. */
  lemma DeliveringStep(node: Node, s: Session, now: uint32, f: Frame)
    requires Inv(s) && Process(node, s, now, f).delivered != []
    ensures IsDt(f) && s.open && f.data[0] == s.next == s.count < 255
    ensures Elapsed(now, s.start) <= TP_TIMEOUT_MS
    ensures s.size <= |Concat(s.history + [f.data[1..]])|
    ensures Process(node, s, now, f).delivered
         == Handed(node.handlers, s.pgn, Concat(s.history + [f.data[1..]])[..s.size])
  {
    if Accepts(s, now, f) { AcceptedDt(node, s, now, f); } else if s.open { RejectedDt(node, s, now, f); }
  }

  /** A 255-packet session, the size the buffer is made for, never delivers: in every run
      every reassembled message has at most 254 packets. */
  lemma {:induction false} NoTopSizeDelivery(node: Node, s: Session, es: seq<Event>)
    requires Inv(s)
    ensures forall c <- Run(node, s, es).delivered :: |c.data| <= 7 * 254
  {
    if es != [] {
      var last, init := es[|es| - 1], es[..|es| - 1];
      NoTopSizeDelivery(node, s, init);
      RunKeepsInv(node, s, init);
      var t := Run(node, s, init).session;
      if Process(node, t, last.at % TWO32, last.frame).delivered != [] {
        DeliveringStep(node, t, last.at % TWO32, last.frame);
        HandedOnce(node.handlers, t.pgn, Concat(t.history + [last.frame.data[1..]])[..t.size]);
      }
    }
  }

  // ---------------------------------------------------------------- deliveries against the trace

  /** The data frames of a stream, in order. */
  function DtEvents(es: seq<Event>): seq<Event> {
    if es == [] then []
    else DtEvents(es[..|es| - 1]) + (if IsDt(es[|es| - 1].frame) then [es[|es| - 1]] else [])
  }

  function Payloads(es: seq<Event>): seq<seq<byte>> {
    seq(|es|, i requires 0 <= i < |es| => es[i].frame.data[1..])
  }

  /** Data frames numbered from 1 and each within the deadline of the RTS at `start`. */
  ghost predicate NumberedInTime(ds: seq<Event>, start: nat) {
    forall k | 0 <= k < |ds| ::
      ds[k].frame.data[0] == (k + 1) % 0x100 && Elapsed(ds[k].at % TWO32, start % TWO32) <= TP_TIMEOUT_MS
  }

  /** Session `s` was opened by the RTS at position `j`, and its history is exactly the data
      frames since. */
  ghost predicate OpenedAt(es: seq<Event>, j: nat, s: Session) {
    && j < |es|
    && IsCommand(es[j].frame, TP_CM_RTS)
    && s.size == RtsSize(es[j].frame) && s.pgn == RtsPgn(es[j].frame) && s.count == es[j].frame.data[3]
    && s.start == es[j].at % TWO32
    && s.history == Payloads(DtEvents(es[j + 1..]))
    && NumberedInTime(DtEvents(es[j + 1..]), es[j].at)
  }

  /** Taking one more event into account, seen from position `j`. */
  lemma TraceSnoc(es: seq<Event>, j: nat)
    requires j + 1 < |es|
    ensures var ds, last := DtEvents(es[..|es| - 1][j + 1..]), es[|es| - 1];
            DtEvents(es[j + 1..]) == if IsDt(last.frame) then ds + [last] else ds
  {
    assert es[j + 1..][..|es[j + 1..]| - 1] == es[..|es| - 1][j + 1..];
  }

  lemma PayloadsSnoc(ds: seq<Event>, last: Event)
    ensures Payloads(ds + [last]) == Payloads(ds) + [last.frame.data[1..]]
  {}

  /** The accepted frame is the next one in the numbering. */
  lemma NumberingGrows(s: Session, ds: seq<Event>, last: Event, start: nat)
    requires Inv(s) && s.start == start % TWO32 && |ds| == |s.history| && NumberedInTime(ds, start)
    requires Accepts(s, last.at % TWO32, last.frame)
    ensures NumberedInTime(ds + [last], start)
  {
    assert |ds| == s.next - 1;
  }

  /** An open session survives a frame only unchanged, or by accepting it. */
  lemma StaysOpen(node: Node, s: Session, now: uint32, f: Frame)
    requires Inv(s) && s.open && Process(node, s, now, f).session.open
    ensures IsDt(f) ==> Accepts(s, now, f)
    ensures var t := Process(node, s, now, f).session;
            if IsDt(f) then
              && t.size == s.size && t.pgn == s.pgn && t.count == s.count && t.start == s.start
              && t.history == s.history + [f.data[1..]]
            else t == s
  {
    if IsDt(f) {
      if Accepts(s, now, f) { AcceptedDt(node, s, now, f); } else { RejectedDt(node, s, now, f); }
    }
  }

  /** A session only ever opens on an acceptable RTS, with an empty history. */
  lemma Opens(node: Node, s: Session, now: uint32, f: Frame)
    requires Valid(s) && !s.open && Process(node, s, now, f).session.open
    ensures IsCommand(f, TP_CM_RTS)
    ensures var t := Process(node, s, now, f).session;
            && t.size == RtsSize(f) && t.pgn == RtsPgn(f) && t.count == f.data[3] && t.start == now
            && t.history == []
  {}

  lemma OpenedStaysOpened(es: seq<Event>, j: nat, s: Session, t: Session)
    requires es != [] && OpenedAt(es[..|es| - 1], j, s) && Inv(s)
    requires var last := es[|es| - 1];
             if IsDt(last.frame) then
               && t.size == s.size && t.pgn == s.pgn && t.count == s.count && t.start == s.start
               && t.history == s.history + [last.frame.data[1..]]
               && s.open && Accepts(s, last.at % TWO32, last.frame)
             else t == s
    ensures OpenedAt(es, j, t)
  {
    var last, ds := es[|es| - 1], DtEvents(es[..|es| - 1][j + 1..]);
    TraceSnoc(es, j);
    PayloadsSnoc(ds, last);
    if IsDt(last.frame) {
      NumberingGrows(s, ds, last, es[j].at);
    }
  }

  lemma {:induction false} OpenSessionComesFromTrace(node: Node, s: Session, es: seq<Event>) returns (j: nat)
    requires Inv(s) && !s.open && Run(node, s, es).session.open
    ensures OpenedAt(es, j, Run(node, s, es).session)
  {
    var last, init := es[|es| - 1], es[..|es| - 1];
    var t := Run(node, s, init).session;
    RunKeepsInv(node, s, init);
    if t.open {
      j := OpenSessionComesFromTrace(node, s, init);
      StaysOpen(node, t, last.at % TWO32, last.frame);
      OpenedStaysOpened(es, j, t, Run(node, s, es).session);
    } else {
      j := |es| - 1;
      Opens(node, t, last.at % TWO32, last.frame);
    }
  }

  /** Delivery soundness, for any frames in any order: a message is only ever handed over at
      the last of exactly the right number of data frames, numbered from 1 and in time, since
      an RTS that announced its size and group; and it is those frames' payloads, in order,
      cut to that size. */
  lemma DeliveryComesFromTrace(node: Node, s: Session, es: seq<Event>) returns (j: nat)
    requires Inv(s) && !s.open && es != []
    requires var last := es[|es| - 1];
             Process(node, Run(node, s, es[..|es| - 1]).session, last.at % TWO32, last.frame).delivered != []
    ensures j < |es| && IsCommand(es[j].frame, TP_CM_RTS)
    ensures var ds, size := DtEvents(es[j + 1..]), RtsSize(es[j].frame);
            && |ds| == Packets(size) <= 254 && NumberedInTime(ds, es[j].at)
            && size <= |Concat(Payloads(ds))|
            && Run(node, s, es).delivered == Run(node, s, es[..|es| - 1]).delivered
                 + Handed(node.handlers, RtsPgn(es[j].frame), Concat(Payloads(ds))[..size])
  {
    var last, init := es[|es| - 1], es[..|es| - 1];
    var t := Run(node, s, init).session;
    RunKeepsInv(node, s, init);
    DeliveringStep(node, t, last.at % TWO32, last.frame);
    j := OpenSessionComesFromTrace(node, s, init);
    TraceSnoc(es, j);
    var ds := DtEvents(init[j + 1..]);
    PayloadsSnoc(ds, last);
    NumberingGrows(t, ds, last, es[j].at);
    assert DtEvents(es[j + 1..]) == ds + [last];
  }
}
