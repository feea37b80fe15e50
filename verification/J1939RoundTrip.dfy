/** A message sent by `j1939_send_tp_data` and what a receiver makes of it. */
module J1939RoundTrip {
  import opened Bits
  import opened Can
  import opened J1939
  import opened J1939Session

  // ---------------------------------------------------------------- identifiers and headers

  lemma ShiftedPriority(priority: byte)
    ensures (priority * 0x400_0000) % TWO32 == (priority % 64) * 0x400_0000
  {
    assert priority * 0x400_0000 == (priority / 64) * TWO32 + (priority % 64) * 0x400_0000;
  }

  lemma ShiftedPgn(pgn: uint32)
    ensures (pgn * 0x100) % TWO32 == (pgn % 0x100_0000 / 0x4_0000) * 0x400_0000 + (pgn % 0x4_0000) * 0x100
  {
    var r := pgn % 0x100_0000;
    assert pgn * 0x100 == (pgn / 0x100_0000) * TWO32 + r * 0x100;
    assert r % 0x4_0000 == pgn % 0x4_0000;
  }

  lemma OrFields(x: nat, a: nat, low: nat, source: byte)
    requires low < 0x4_0000
    ensures Or(Or(x * 0x400_0000, a * 0x400_0000 + low * 0x100), source)
         == (Or(x, a) * 0x4_0000 + low) * 0x100 + source
  {
    OrAt26(x, a, low * 0x100);
    OrAt8(Or(x, a) * 0x4_0000 + low, source);
  }

  lemma PgnOfFields(high: nat, low: nat, source: byte, id: uint32)
    requires low < 0x4_0000 && id == (high * 0x4_0000 + low) * 0x100 + source
    ensures PgnOfId(id) == low % 0x2_0000
  {
    assert id / 0x100 == high * 0x4_0000 + low;
  }

  lemma IdValue(pgn: uint32, priority: byte, source: byte) returns (high: nat)
    ensures BuildId(pgn, priority, source) == (high * 0x4_0000 + pgn % 0x4_0000) * 0x100 + source
    ensures high == Or(priority % 64, pgn % 0x100_0000 / 0x4_0000)
  {
    var x, a := priority % 64, pgn % 0x100_0000 / 0x4_0000;
    ShiftedPriority(priority);
    ShiftedPgn(pgn);
    OrFields(x, a, pgn % 0x4_0000, source);
    high := Or(x, a);
  }

  /** The receiver reads back the low 17 bits of the group number, whatever the priority. */
  lemma PgnSurvivesId(pgn: uint32, priority: byte, source: byte)
    ensures PgnOfId(BuildId(pgn, priority, source)) == pgn % 0x2_0000
  {
    var high := IdValue(pgn, priority, source);
    PgnOfFields(high, pgn % 0x4_0000, source, BuildId(pgn, priority, source));
    LowBits(pgn);
  }

  lemma LowBits(pgn: uint32)
    ensures pgn % 0x4_0000 % 0x2_0000 == pgn % 0x2_0000
  {}

  lemma PgnReadsBack(pgn: uint32)
    ensures PgnByte(pgn, 0) + 0x100 * PgnByte(pgn, 1) + 0x1_0000 * PgnByte(pgn, 2) == pgn % 0x100_0000
  {
    var q, r := pgn / 0x100, pgn / 0x1_0000;
    assert pgn == 0x100 * q + PgnByte(pgn, 0) && q == 0x100 * r + PgnByte(pgn, 1);
    assert r == 0x100 * (r / 0x100) + PgnByte(pgn, 2);
  }

  lemma RtsReadsBack(source: byte, pgn: uint32, len: uint16)
    ensures var f := RtsFrame(source, pgn, len);
            && IsCommand(f, TP_CM_RTS) && RtsSize(f) == len && RtsPgn(f) == pgn % 0x100_0000
            && f.data[3] == PacketCount(len)
  {
    PgnSurvivesId(PGN_TP_CM, PRIORITY_MEDIUM, source);
    PgnReadsBack(pgn);
    assert RtsFrame(source, pgn, len).data
        == [TP_CM_RTS, len % 0x100, len / 0x100, PacketCount(len), 0xFF,
            PgnByte(pgn, 0), PgnByte(pgn, 1), PgnByte(pgn, 2)];
  }

  lemma DtReadsBack(source: byte, data: seq<byte>, i: nat, filler: Filler)
    requires 7 * i < |data| && i < 0xFF
    ensures var f, n := DtFrame(source, data, i, filler), Min(7, |data| - 7 * i);
            IsDt(f) && f.data[0] == i + 1 && f.data[1..][..n] == data[7 * i..7 * i + n]
  {
    PgnSurvivesId(PGN_TP_DT, PRIORITY_MEDIUM, source);
    assert DtFrame(source, data, i, filler).data == DataPacket(data, i, filler);
  }

  /** `Handed` calls the first handler registered for the group, once. */
  lemma {:induction false} HandedToFirst(handlers: seq<Handler>, pgn: uint32, data: seq<byte>, i: nat)
    requires i < |handlers| && handlers[i].pgn == pgn
    requires forall k | 0 <= k < i :: handlers[k].pgn != pgn
    ensures Handed(handlers, pgn, data) == [Call(handlers[i].callback, data)]
  {
    if i > 0 {
      assert forall k | 0 <= k < i - 1 :: handlers[1..][k] == handlers[k + 1];
      HandedToFirst(handlers[1..], pgn, data, i - 1);
    }
  }

  /** Without a registered handler nobody is called. */
  lemma {:induction false} HandedToNobody(handlers: seq<Handler>, pgn: uint32, data: seq<byte>)
    requires forall h <- handlers :: h.pgn != pgn
    ensures Handed(handlers, pgn, data) == []
  {
    if handlers != [] { HandedToNobody(handlers[1..], pgn, data); }
  }

  // ---------------------------------------------------------------- progress of a session

  /** A stream that opens with an acceptable RTS and ends no session by itself. */
  ghost predicate Undisturbed(es: seq<Event>) {
    && es != []
    && IsCommand(es[0].frame, TP_CM_RTS) && SizeMatches(RtsSize(es[0].frame), es[0].frame.data[3])
    && forall i | 1 <= i < |es| :: !EndsSession(es[i].frame)
  }

  lemma UndisturbedPrefix(es: seq<Event>)
    requires Undisturbed(es) && |es| > 1
    ensures Undisturbed(es[..|es| - 1])
    ensures es[..|es| - 1][0] == es[0]
  {}

  lemma NumberedPrefix(ds: seq<Event>, last: Event, start: nat)
    requires NumberedInTime(ds + [last], start)
    ensures NumberedInTime(ds, start)
    ensures last.frame.data[0] == (|ds| + 1) % 0x100 && Elapsed(last.at % TWO32, start % TWO32) <= TP_TIMEOUT_MS
  {
    assert (ds + [last])[|ds|] == last;
    forall k | 0 <= k < |ds|
      ensures ds[k].frame.data[0] == (k + 1) % 0x100 && Elapsed(ds[k].at % TWO32, start % TWO32) <= TP_TIMEOUT_MS
    {
      assert (ds + [last])[k] == ds[k];
    }
  }

  /** One more frame of an undisturbed stream: other traffic leaves the open session as it
      is, and the awaited data frame is taken. */
  lemma UndisturbedStep(node: Node, s: Session, now: uint32, f: Frame)
    requires Inv(s) && s.open && !EndsSession(f)
    requires IsDt(f) ==> Accepts(s, now, f)
    ensures var r := Process(node, s, now, f);
            if IsDt(f) then r == HandleDt(node, s, now, f)
            else r.session == s && r.delivered == []
  {}

  /** The open session after an RTS and the data frames `ds`. */
  ghost predicate Collecting(rts: Event, ds: seq<Event>, s: Session) {
    && s.open
    && s.size == RtsSize(rts.frame) && s.pgn == RtsPgn(rts.frame) && s.count == rts.frame.data[3]
    && s.start == rts.at % TWO32
    && s.history == Payloads(ds)
  }

  lemma AwaitedNumber(s: Session)
    requires Inv(s) && s.open && |s.history| < s.count
    ensures s.next == |s.history| + 1 == (|s.history| + 1) % 0x100
  {}

  /** A data frame the collecting session waits for. */
  lemma AwaitedDt(rts: Event, ds: seq<Event>, s: Session, e: Event)
    requires Inv(s) && Collecting(rts, ds, s) && NumberedInTime(ds + [e], rts.at) && |ds| < s.count
    ensures Accepts(s, e.at % TWO32, e.frame) && s.next == |ds| + 1
  {
    AwaitedNumber(s);
    NumberedPrefix(ds, e, rts.at);
  }

  lemma CollectingStep(node: Node, rts: Event, ds: seq<Event>, s: Session, e: Event)
    requires Inv(s) && Collecting(rts, ds, s) && !EndsSession(e.frame)
    requires IsDt(e.frame) ==> NumberedInTime(ds + [e], rts.at) && |ds| < s.count
    ensures var r := Process(node, s, e.at % TWO32, e.frame);
            if !IsDt(e.frame) then Collecting(rts, ds, r.session) && r.delivered == []
            else |ds| + 1 < s.count || s.count == 255 ==> Collecting(rts, ds + [e], r.session) && r.delivered == []
  {
    if IsDt(e.frame) {
      AwaitedDt(rts, ds, s, e);
      PayloadsSnoc(ds, e);
      AcceptedDt(node, s, e.at % TWO32, e.frame);
    }
    UndisturbedStep(node, s, e.at % TWO32, e.frame);
  }

  lemma OpeningStep(node: Node, s: Session, rts: Event)
    requires Inv(s) && !s.open && Undisturbed([rts])
    ensures Collecting(rts, [], Run(node, s, [rts]).session) && Run(node, s, [rts]).delivered == []
  {
    assert [rts][..|[rts]| - 1] == [];
    assert Run(node, s, []) == Step(s, [], [], []);
  }

  /** The session opened by `rts` has collected `ds`, and nothing has been delivered. */
  ghost predicate InProgress(r: Step, rts: Event, ds: seq<Event>) {
    Collecting(rts, ds, r.session) && r.delivered == []
  }

  /** The data frames are numbered from 1, in time, and short of the last. */
  ghost predicate Unfinished(rts: Event, ds: seq<Event>) {
    NumberedInTime(ds, rts.at) && (|ds| < rts.frame.data[3] || |ds| == rts.frame.data[3] == 255)
  }

  lemma UnfinishedSnoc(rts: Event, ds: seq<Event>, last: Event)
    requires Unfinished(rts, ds + [last])
    ensures Unfinished(rts, ds) && |ds| < rts.frame.data[3]
  {
    NumberedPrefix(ds, last, rts.at);
  }

  /** The data frames `ds` before `last`, out of an unfinished message's `after` it. */
  lemma UnfinishedStep(rts: Event, ds: seq<Event>, last: Event, after: seq<Event>)
    requires Unfinished(rts, after) && after == if IsDt(last.frame) then ds + [last] else ds
    ensures Unfinished(rts, ds)
    ensures IsDt(last.frame) ==> NumberedInTime(ds + [last], rts.at) && |ds| < rts.frame.data[3]
  {
    if IsDt(last.frame) { UnfinishedSnoc(rts, ds, last); }
  }

  lemma UnfinishedPrefix(es: seq<Event>)
    requires |es| > 1 && Unfinished(es[0], DtEvents(es[1..]))
    ensures var last, ds := es[|es| - 1], DtEvents(es[..|es| - 1][1..]);
            && Unfinished(es[0], ds)
            && (IsDt(last.frame) ==> NumberedInTime(ds + [last], es[0].at) && |ds| < es[0].frame.data[3])
  {
    TraceSnoc(es, 0);
    UnfinishedStep(es[0], DtEvents(es[..|es| - 1][1..]), es[|es| - 1], DtEvents(es[1..]));
  }

  /** From what `CollectingStep` says of a step's outcome to the run with it. */
  lemma ProgressMore(rts: Event, ds: seq<Event>, last: Event, after: seq<Event>, step: Step, run: Step)
    requires Unfinished(rts, after) && after == if IsDt(last.frame) then ds + [last] else ds
    requires if !IsDt(last.frame) then InProgress(step, rts, ds)
             else |ds| + 1 < rts.frame.data[3] || rts.frame.data[3] == 255 ==> InProgress(step, rts, ds + [last])
    requires run.session == step.session && run.delivered == step.delivered
    ensures InProgress(run, rts, after)
  {}

  lemma ProgressOver(es: seq<Event>, step: Step, run: Step)
    requires |es| > 1 && Unfinished(es[0], DtEvents(es[1..]))
    requires var ds, last, count := DtEvents(es[..|es| - 1][1..]), es[|es| - 1], es[0].frame.data[3];
             if !IsDt(last.frame) then InProgress(step, es[0], ds)
             else |ds| + 1 < count || count == 255 ==> InProgress(step, es[0], ds + [last])
    requires run.session == step.session && run.delivered == step.delivered
    ensures InProgress(run, es[0], DtEvents(es[1..]))
  {
    TraceSnoc(es, 0);
    ProgressMore(es[0], DtEvents(es[..|es| - 1][1..]), es[|es| - 1], DtEvents(es[1..]), step, run);
  }

  /** While the data frames are numbered from 1 and in time, the session stays open, delivers
      nothing and collects their payloads, whatever other traffic comes between them. */
  lemma {:induction false} Progress(node: Node, s: Session, es: seq<Event>)
    requires Inv(s) && !s.open && Undisturbed(es) && Unfinished(es[0], DtEvents(es[1..]))
    ensures InProgress(Run(node, s, es), es[0], DtEvents(es[1..]))
  {
    if |es| == 1 {
      assert es == [es[0]];
      OpeningStep(node, s, es[0]);
    } else {
      var last, init := es[|es| - 1], es[..|es| - 1];
      UndisturbedPrefix(es);
      UnfinishedPrefix(es);
      Progress(node, s, init);
      RunKeepsInv(node, s, init);
      var r := Run(node, s, init).session;
      CollectingStep(node, es[0], DtEvents(init[1..]), r, last);
      ProgressOver(es, Process(node, r, last.at % TWO32, last.frame), Run(node, s, es));
    }
  }

  lemma DeliveringCut(node: Node, s: Session, now: uint32, f: Frame)
    requires Inv(s) && IsDt(f) && Accepts(s, now, f) && s.next == s.count < 255
    ensures s.size <= |Concat(s.history + [f.data[1..]])|
    ensures !Process(node, s, now, f).session.open
    ensures Process(node, s, now, f).delivered
         == Handed(node.handlers, s.pgn, Concat(s.history + [f.data[1..]])[..s.size])
  {
    AcceptedDt(node, s, now, f);
    StoreKeepsPrefix(s, f);
  }

  lemma CompletingStep(node: Node, rts: Event, ds: seq<Event>, s: Session, e: Event)
    requires Inv(s) && Collecting(rts, ds, s) && IsDt(e.frame)
    requires NumberedInTime(ds + [e], rts.at) && |ds| + 1 == s.count < 255
    ensures var r, all := Process(node, s, e.at % TWO32, e.frame), Concat(Payloads(ds + [e]));
            && !r.session.open && RtsSize(rts.frame) <= |all|
            && r.delivered == Handed(node.handlers, RtsPgn(rts.frame), all[..RtsSize(rts.frame)])
  {
    AwaitedDt(rts, ds, s, e);
    PayloadsSnoc(ds, e);
    DeliveringCut(node, s, e.at % TWO32, e.frame);
  }

  /** The data frames are the announced ones, numbered from 1 and in time. */
  ghost predicate Finished(rts: Event, ds: seq<Event>) {
    NumberedInTime(ds, rts.at) && |ds| == rts.frame.data[3] < 255
  }

  lemma FinishedPrefix(es: seq<Event>)
    requires |es| > 1 && IsDt(es[|es| - 1].frame) && Finished(es[0], DtEvents(es[1..]))
    ensures var ds := DtEvents(es[..|es| - 1][1..]);
            && DtEvents(es[1..]) == ds + [es[|es| - 1]]
            && Unfinished(es[0], ds)
  {
    TraceSnoc(es, 0);
    NumberedPrefix(DtEvents(es[..|es| - 1][1..]), es[|es| - 1], es[0].at);
  }

  /** The session is closed and what the data frames carried, cut to the announced size, is delivered. */
  ghost predicate Completed(node: Node, r: Step, rts: Event, ds: seq<Event>) {
    var all := Concat(Payloads(ds));
    && !r.session.open && RtsSize(rts.frame) <= |all|
    && r.delivered == Handed(node.handlers, RtsPgn(rts.frame), all[..RtsSize(rts.frame)])
  }

  /** Delivery completeness, the converse of `DeliveryComesFromTrace`: when the last of the
      announced number of data frames arrives, all numbered from 1 and in time, their payloads
      cut to the announced size are handed over and the session is closed. */
  lemma Completion(node: Node, s: Session, es: seq<Event>)
    requires Inv(s) && !s.open && Undisturbed(es) && |es| > 1 && IsDt(es[|es| - 1].frame)
    requires Finished(es[0], DtEvents(es[1..]))
    ensures Completed(node, Run(node, s, es), es[0], DtEvents(es[1..]))
  {
    var last, init := es[|es| - 1], es[..|es| - 1];
    UndisturbedPrefix(es);
    FinishedPrefix(es);
    Progress(node, s, init);
    RunKeepsInv(node, s, init);
    CompletingStep(node, es[0], DtEvents(init[1..]), Run(node, s, init).session, last);
  }

  // ---------------------------------------------------------------- round trip

  function Frames(es: seq<Event>): seq<Frame> {
    seq(|es|, i requires 0 <= i < |es| => es[i].frame)
  }

  ghost predicate InTime(es: seq<Event>, start: nat) {
    forall e <- es :: Elapsed(e.at % TWO32, start % TWO32) <= TP_TIMEOUT_MS
  }

  lemma ChunkExtends(source: byte, data: seq<byte>, i: nat, filler: Filler, taken: seq<byte>)
    requires 7 * i < |data| && i < 0xFF && taken == data[..7 * i]
    ensures var m := Min(7 * (i + 1), |data|);
            (taken + DtFrame(source, data, i, filler).data[1..])[..m] == data[..m]
  {
    DtReadsBack(source, data, i, filler);
    var m, p := Min(7 * (i + 1), |data|), DtFrame(source, data, i, filler).data[1..];
    assert p[..m - 7 * i] == data[7 * i..m];
    assert (taken + p)[..m] == taken + p[..m - 7 * i];
  }

  /** The payloads of the data frames, end to end, begin with the message. */
  lemma {:induction false} ChunksConcat(source: byte, data: seq<byte>, filler: Filler, payloads: seq<seq<byte>>)
    requires |data| <= TP_BUFFER_SIZE && |payloads| <= Packets(|data|)
    requires forall i | 0 <= i < |payloads| :: payloads[i] == DtFrame(source, data, i, filler).data[1..]
    ensures var m := Min(7 * |payloads|, |data|);
            |Concat(payloads)| == 7 * |payloads| && Concat(payloads)[..m] == data[..m]
  {
    if payloads != [] {
      var k := |payloads| - 1;
      ChunksConcat(source, data, filler, payloads[..k]);
      assert Concat(payloads[..k]) == data[..7 * k];
      ChunkExtends(source, data, k, filler, Concat(payloads[..k]));
    }
  }

  lemma DtFramesNumbered(source: byte, data: seq<byte>, filler: Filler, ds: seq<Event>, start: nat)
    requires |data| <= TP_BUFFER_SIZE && Frames(ds) == DtFrames(source, data, filler) && InTime(ds, start)
    ensures NumberedInTime(ds, start)
  {
    forall k | 0 <= k < |ds|
      ensures ds[k].frame.data[0] == (k + 1) % 0x100 && Elapsed(ds[k].at % TWO32, start % TWO32) <= TP_TIMEOUT_MS
    {
      assert ds[k].frame == Frames(ds)[k] == DtFrame(source, data, k, filler);
      DtReadsBack(source, data, k, filler);
    }
  }

  lemma PacketCounted(len: uint16)
    requires len <= TP_BUFFER_SIZE
    ensures PacketCount(len) == Packets(len)
  {}

  lemma PayloadAt(source: byte, data: seq<byte>, filler: Filler, ds: seq<Event>, i: nat)
    requires |data| <= TP_BUFFER_SIZE && Frames(ds) == DtFrames(source, data, filler) && i < |ds|
    ensures |ds| == Packets(|data|) && Payloads(ds)[i] == DtFrame(source, data, i, filler).data[1..]
  {
    assert |ds| == |Frames(ds)| == PacketCount(|data|);
    PacketCounted(|data|);
    assert ds[i].frame == Frames(ds)[i] == DtFrames(source, data, filler)[i];
  }

  lemma MessagePayloads(source: byte, data: seq<byte>, filler: Filler, ds: seq<Event>)
    requires |data| <= 7 * 254 && Frames(ds) == DtFrames(source, data, filler)
    ensures |data| <= |Concat(Payloads(ds))| && Concat(Payloads(ds))[..|data|] == data
  {
    var ps := Payloads(ds);
    assert |ds| == |Frames(ds)| == Packets(|data|);
    forall i | 0 <= i < |ps| ensures ps[i] == DtFrame(source, data, i, filler).data[1..] {
      PayloadAt(source, data, filler, ds, i);
    }
    ChunksConcat(source, data, filler, ps);
  }

  /** The frames of one message reach the receiver in order and in time, amid any other
      traffic that ends no session. */
  ghost predicate Arrives(es: seq<Event>, source: byte, pgn: uint32, data: seq<byte>, filler: Filler)
    requires |data| < 0x1_0000
  {
    && es != []
    && es[0].frame == RtsFrame(source, pgn, |data|)
    && (forall i | 1 <= i < |es| :: !EndsSession(es[i].frame))
    && Frames(DtEvents(es[1..])) == DtFrames(source, data, filler)
    && InTime(DtEvents(es[1..]), es[0].at)
  }

  lemma CountMatches(len: uint16)
    requires 9 <= len <= TP_BUFFER_SIZE
    ensures PacketCount(len) == Packets(len) && SizeMatches(len, PacketCount(len))
  {}

  lemma RtsIsAccepted(source: byte, pgn: uint32, len: uint16)
    requires 9 <= len <= TP_BUFFER_SIZE
    ensures var f := RtsFrame(source, pgn, len);
            && IsCommand(f, TP_CM_RTS) && SizeMatches(RtsSize(f), f.data[3])
            && f.data[3] == Packets(len) && RtsSize(f) == len && RtsPgn(f) == pgn % 0x100_0000
  {
    CountMatches(len);
    RtsReadsBack(source, pgn, len);
  }

  lemma ArrivalOpens(es: seq<Event>, source: byte, pgn: uint32, data: seq<byte>, filler: Filler)
    requires 9 <= |data| <= TP_BUFFER_SIZE && Arrives(es, source, pgn, data, filler)
    ensures Undisturbed(es) && NumberedInTime(DtEvents(es[1..]), es[0].at)
    ensures |DtEvents(es[1..])| == es[0].frame.data[3] == Packets(|data|)
    ensures RtsSize(es[0].frame) == |data| && RtsPgn(es[0].frame) == pgn % 0x100_0000
  {
    RtsIsAccepted(source, pgn, |data|);
    DtFramesNumbered(source, data, filler, DtEvents(es[1..]), es[0].at);
  }

  /** The round trip: a message of 9 to 1778 bytes that arrives at an idle receiver is handed
      over exactly once, byte for byte, to the first handler of its group, and leaves the
      receiver idle. */
  lemma RoundTrip(node: Node, s: Session, es: seq<Event>,
                  source: byte, pgn: uint32, data: seq<byte>, filler: Filler)
    requires Inv(s) && !s.open && 9 <= |data| <= 7 * 254
    requires Arrives(es, source, pgn, data, filler) && IsDt(es[|es| - 1].frame)
    ensures Run(node, s, es).delivered == Handed(node.handlers, pgn % 0x100_0000, data)
    ensures !Run(node, s, es).session.open
  {
    ArrivalOpens(es, source, pgn, data, filler);
    assert |es| > 1;
    Completion(node, s, es);
    MessagePayloads(source, data, filler, DtEvents(es[1..]));
  }

  // ---------------------------------------------------------------- every length, undisturbed

  lemma {:induction false} AllDt(es: seq<Event>)
    requires forall i | 0 <= i < |es| :: IsDt(es[i].frame)
    ensures DtEvents(es) == es
  {
    if es != [] {
      AllDt(es[..|es| - 1]);
      DtSnoc(es);
    }
  }

  lemma DtSnoc(es: seq<Event>)
    requires es != [] && IsDt(es[|es| - 1].frame) && DtEvents(es[..|es| - 1]) == es[..|es| - 1]
    ensures DtEvents(es) == es
  {}

  /** Exactly the frames of one message, one after the other. */
  ghost predicate Direct(es: seq<Event>, source: byte, pgn: uint32, data: seq<byte>, filler: Filler)
    requires |data| < 0x1_0000
  {
    |es| > 0 && Frames(es) == MessageFrames(source, pgn, data, filler)
  }

  lemma DtFramesAreDt(source: byte, data: seq<byte>, filler: Filler)
    requires |data| < 0x1_0000
    ensures forall f <- DtFrames(source, data, filler) :: IsDt(f)
  {
    var fs := DtFrames(source, data, filler);
    forall i | 0 <= i < |fs| ensures IsDt(fs[i]) {
      DtReadsBack(source, data, i, filler);
    }
  }

  lemma DirectShape(es: seq<Event>, source: byte, pgn: uint32, data: seq<byte>, filler: Filler)
    requires 9 <= |data| < 0x1_0000 && Direct(es, source, pgn, data, filler)
    ensures es[0].frame == RtsFrame(source, pgn, |data|)
    ensures forall i | 1 <= i < |es| :: IsDt(es[i].frame)
    ensures DtEvents(es[1..]) == es[1..] && Frames(es[1..]) == DtFrames(source, data, filler)
  {
    var fs := DtFrames(source, data, filler);
    assert Frames(es)[0] == RtsFrame(source, pgn, |data|);
    assert Frames(es[1..]) == Frames(es)[1..] == fs;
    DtFramesAreDt(source, data, filler);
    forall i | 1 <= i < |es| ensures IsDt(es[i].frame) {
      assert es[i].frame == Frames(es[1..])[i - 1];
      assert fs[i - 1] in fs;
    }
    AllDt(es[1..]);
  }

  /** An idle receiver ignores data frames. */
  lemma {:induction false} IdleIgnoresDt(node: Node, s: Session, es: seq<Event>)
    requires Inv(s) && !s.open && es != [] && Run(node, s, es[..1]).session == s
    requires forall i | 1 <= i < |es| :: IsDt(es[i].frame)
    ensures Run(node, s, es).session == s && Run(node, s, es).delivered == Run(node, s, es[..1]).delivered
  {
    if |es| == 1 {
      assert es[..1] == es;
    } else {
      assert es[..|es| - 1][..1] == es[..1];
      IdleIgnoresDt(node, s, es[..|es| - 1]);
    }
  }

  lemma RefusedOpening(node: Node, s: Session, rts: Event)
    requires Inv(s) && !s.open && IsCommand(rts.frame, TP_CM_RTS)
    requires !SizeMatches(RtsSize(rts.frame), rts.frame.data[3])
    ensures Run(node, s, [rts]).session == s && Run(node, s, [rts]).delivered == []
  {
    assert [rts][..|[rts]| - 1] == [];
    assert Run(node, s, []) == Step(s, [], [], []);
  }

  /** For every length a transport session can be asked to carry: sent to an idle receiver in
      time, the message is delivered exactly when it has at most 1778 bytes. From 1779 to 1785
      bytes the session opens and stays open without delivering; above that it never opens. */
  lemma DirectTransfer(node: Node, s: Session, es: seq<Event>,
                       source: byte, pgn: uint32, data: seq<byte>, filler: Filler)
    requires Inv(s) && !s.open && 9 <= |data| < 0x1_0000
    requires Direct(es, source, pgn, data, filler) && InTime(es[1..], es[0].at)
    ensures Run(node, s, es).delivered
         == if |data| <= 7 * 254 then Handed(node.handlers, pgn % 0x100_0000, data) else []
    ensures Run(node, s, es).session.open <==> 7 * 254 < |data| <= TP_BUFFER_SIZE
  {
    if |data| > TP_BUFFER_SIZE {
      TooLongIgnored(node, s, es, source, pgn, data, filler);
    } else if |data| > 7 * 254 {
      TopSizeExhausts(node, s, es, source, pgn, data, filler);
    } else {
      DirectRoundTrip(node, s, es, source, pgn, data, filler);
    }
  }

  lemma DirectRoundTrip(node: Node, s: Session, es: seq<Event>,
                        source: byte, pgn: uint32, data: seq<byte>, filler: Filler)
    requires Inv(s) && !s.open && 9 <= |data| <= 7 * 254
    requires Direct(es, source, pgn, data, filler) && InTime(es[1..], es[0].at)
    ensures Run(node, s, es).delivered == Handed(node.handlers, pgn % 0x100_0000, data)
    ensures !Run(node, s, es).session.open
  {
    DirectShape(es, source, pgn, data, filler);
    assert |es| > 1;
    RoundTrip(node, s, es, source, pgn, data, filler);
  }

  lemma TopSizeExhausts(node: Node, s: Session, es: seq<Event>,
                        source: byte, pgn: uint32, data: seq<byte>, filler: Filler)
    requires Inv(s) && !s.open && 7 * 254 < |data| <= TP_BUFFER_SIZE
    requires Direct(es, source, pgn, data, filler) && InTime(es[1..], es[0].at)
    ensures var r := Run(node, s, es); Inv(r.session) && r.session.open && r.session.next == 0 && r.delivered == []
  {
    DirectShape(es, source, pgn, data, filler);
    ArrivalOpens(es, source, pgn, data, filler);
    Progress(node, s, es);
    RunKeepsInv(node, s, es);
    assert |Frames(es[1..])| == |DtEvents(es[1..])| == 255;
  }

  lemma TooLongIgnored(node: Node, s: Session, es: seq<Event>,
                       source: byte, pgn: uint32, data: seq<byte>, filler: Filler)
    requires Inv(s) && !s.open && TP_BUFFER_SIZE < |data| < 0x1_0000
    requires Direct(es, source, pgn, data, filler)
    ensures Run(node, s, es).delivered == [] && !Run(node, s, es).session.open
  {
    DirectShape(es, source, pgn, data, filler);
    RtsReadsBack(source, pgn, |data|);
    SizeCheck(|data|, PacketCount(|data|));
    assert es[..1] == [es[0]];
    RefusedOpening(node, s, es[0]);
    IdleIgnoresDt(node, s, es);
  }

  // ---------------------------------------------------------------- after a message too long

  /** One step after another. */
  function Then(first: Step, second: Step): Step {
    Step(second.session, first.replies + second.replies, first.delivered + second.delivered,
         first.dispatched + second.dispatched)
  }

  lemma ThenThen(a: Step, b: Step, c: Step)
    ensures Then(Then(a, b), c) == Then(a, Then(b, c))
  {}

  lemma RunSnoc(node: Node, s: Session, es: seq<Event>, e: Event)
    requires Valid(s)
    ensures Run(node, s, es + [e])
         == Then(Run(node, s, es), Process(node, Run(node, s, es).session, e.at % TWO32, e.frame))
  {
    assert (es + [e])[..|es|] == es;
  }

  lemma {:induction false} RunAppend(node: Node, s: Session, es: seq<Event>, more: seq<Event>)
    requires Valid(s)
    ensures Run(node, s, es + more) == Then(Run(node, s, es), Run(node, Run(node, s, es).session, more))
  {
    if more == [] {
      assert es + more == es;
    } else {
      var init, e := more[..|more| - 1], more[|more| - 1];
      assert more == init + [e] && es + more == es + init + [e];
      RunAppend(node, s, es, init);
      RunAppendOne(node, s, es, init, e);
    }
  }

  lemma RunAppendOne(node: Node, s: Session, es: seq<Event>, init: seq<Event>, e: Event)
    requires Valid(s)
    requires Run(node, s, es + init) == Then(Run(node, s, es), Run(node, Run(node, s, es).session, init))
    ensures Run(node, s, es + init + [e]) == Then(Run(node, s, es), Run(node, Run(node, s, es).session, init + [e]))
  {
    var first := Run(node, s, es);
    var second := Run(node, first.session, init);
    RunSnoc(node, s, es + init, e);
    RunSnoc(node, first.session, init, e);
    ThenThen(first, second, Process(node, second.session, e.at % TWO32, e.frame));
  }

  lemma ExhaustedRefusesRts(node: Node, s: Session, e: Event)
    requires Inv(s) && s.open && s.next == 0 && IsCommand(e.frame, TP_CM_RTS)
    ensures var r := Run(node, s, [e]);
            r.session == s && r.delivered == [] && r.replies == [AbortFrame(node.source, 1)]
  {
    assert [e][..0] == [];
    assert Run(node, s, []) == Step(s, [], [], []);
  }

  lemma ExhaustedDropsFirst(node: Node, s: Session, e: Event)
    requires Inv(s) && s.open && s.next == 0 && IsDt(e.frame) && e.frame.data[0] == 1
    ensures var r, late := Run(node, s, [e]), Elapsed(e.at % TWO32, s.start) > TP_TIMEOUT_MS;
            && Inv(r.session) && !r.session.open && r.delivered == []
            && r.replies == [AbortFrame(node.source, if late then 3 else 4)]
  {
    assert [e][..0] == [];
    assert Run(node, s, []) == Step(s, [], [], []);
    RejectedDt(node, s, e.at % TWO32, e.frame);
    RunKeepsInv(node, s, [e]);
  }

  lemma {:induction false} IdleSilent(node: Node, s: Session, es: seq<Event>)
    requires Inv(s) && !s.open && forall i | 0 <= i < |es| :: IsDt(es[i].frame)
    ensures Run(node, s, es) == Step(s, [], [], [])
  {
    if es != [] { IdleSilent(node, s, es[..|es| - 1]); }
  }

  /** The frames of a message that needs more than one: an RTS and data frames, the first numbered 1. */
  ghost predicate IsMessage(es: seq<Event>) {
    && |es| >= 2 && IsCommand(es[0].frame, TP_CM_RTS) && es[1].frame.data[0] == 1
    && forall i | 1 <= i < |es| :: IsDt(es[i].frame)
  }

  /** The message after one of 255 packets is lost: while that one's session is left open, its RTS is
      refused with reason 1, its first packet closes the session with reason 4, or 3 when late, and the
      rest finds the receiver idle. */
  lemma NextMessageLost(node: Node, s: Session, es: seq<Event>)
    requires Inv(s) && s.open && s.next == 0 && IsMessage(es)
    ensures var r, late := Run(node, s, es), Elapsed(es[1].at % TWO32, s.start) > TP_TIMEOUT_MS;
            && r.delivered == [] && !r.session.open
            && r.replies == [AbortFrame(node.source, 1), AbortFrame(node.source, if late then 3 else 4)]
  {
    var rest := es[2..];
    assert es == [es[0]] + ([es[1]] + rest);
    ExhaustedRefusesRts(node, s, es[0]);
    RunAppend(node, s, [es[0]], [es[1]] + rest);
    FirstPacketCloses(node, s, es[1], rest);
  }

  lemma FirstPacketCloses(node: Node, s: Session, e: Event, rest: seq<Event>)
    requires Inv(s) && s.open && s.next == 0 && IsDt(e.frame) && e.frame.data[0] == 1
    requires forall i | 0 <= i < |rest| :: IsDt(rest[i].frame)
    ensures var r, late := Run(node, s, [e] + rest), Elapsed(e.at % TWO32, s.start) > TP_TIMEOUT_MS;
            && r.delivered == [] && !r.session.open
            && r.replies == [AbortFrame(node.source, if late then 3 else 4)]
  {
    ExhaustedDropsFirst(node, s, e);
    RunAppend(node, s, [e], rest);
    IdleSilent(node, Run(node, s, [e]).session, rest);
  }

  lemma DirectIsMessage(es: seq<Event>, source: byte, pgn: uint32, data: seq<byte>, filler: Filler)
    requires 9 <= |data| <= TP_BUFFER_SIZE && Direct(es, source, pgn, data, filler)
    ensures IsMessage(es)
  {
    DirectShape(es, source, pgn, data, filler);
    RtsReadsBack(source, pgn, |data|);
    FirstPacketIsOne(es[1..], source, data, filler);
  }

  lemma FirstPacketIsOne(ds: seq<Event>, source: byte, data: seq<byte>, filler: Filler)
    requires 9 <= |data| <= TP_BUFFER_SIZE && Frames(ds) == DtFrames(source, data, filler)
    ensures |ds| > 0 && ds[0].frame.data[0] == 1
  {
    assert |ds| == |Frames(ds)| == PacketCount(|data|) > 0;
    assert ds[0].frame == Frames(ds)[0] == DtFrame(source, data, 0, filler);
    DtReadsBack(source, data, 0, filler);
  }

  /** So a top-size message sent to an idle receiver in time costs the next one too: neither is
      delivered, and only then is the receiver idle again. */
  lemma TopSizeCostsTwo(node: Node, s: Session, es: seq<Event>, more: seq<Event>,
                        source: byte, pgn: uint32, data: seq<byte>, filler: Filler,
                        source': byte, pgn': uint32, data': seq<byte>, filler': Filler)
    requires Inv(s) && !s.open && 7 * 254 < |data| <= TP_BUFFER_SIZE && 9 <= |data'| <= TP_BUFFER_SIZE
    requires Direct(es, source, pgn, data, filler) && InTime(es[1..], es[0].at)
    requires Direct(more, source', pgn', data', filler')
    ensures Run(node, s, es + more).delivered == [] && !Run(node, s, es + more).session.open
  {
    TopSizeExhausts(node, s, es, source, pgn, data, filler);
    RunAppend(node, s, es, more);
    DirectIsMessage(more, source', pgn', data', filler');
    NextMessageLost(node, Run(node, s, es).session, more);
  }

  /** A message of at most eight bytes travels in one frame: it reaches the first handler of
      its 17-bit group at once and leaves the session alone. */
  lemma ShortTransfer(node: Node, s: Session, now: uint32, source: byte, pgn: uint32, data: seq<byte>, filler: Filler)
    requires Valid(s) && |data| <= 8
    requires pgn % 0x2_0000 != PGN_TP_CM && pgn % 0x2_0000 != PGN_TP_DT
    ensures |MessageFrames(source, pgn, data, filler)| == 1
    ensures Process(node, s, now, MessageFrames(source, pgn, data, filler)[0])
         == Step(s, [], [], Handed(node.handlers, pgn % 0x2_0000, data))
  {
    PgnSurvivesId(pgn, PRIORITY_MEDIUM, source);
    var f := PgnFrame(source, pgn, data);
    assert f.data[..f.dlc] == data;
  }
}
