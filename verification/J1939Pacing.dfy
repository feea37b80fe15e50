/** The sender's packet spacing against the receiver's session deadline. */
module J1939Pacing {
  import opened Bits
  import opened Can
  import opened J1939
  import opened J1939Session
  import opened J1939RoundTrip

  /** The most packets a session can take before its deadline at the sender's pace. */
  const PACED_PACKETS: nat := 16

  /** Data frames follow one another at the sender's spacing or slower, and never so slowly
      that the 32-bit clock comes round to within a deadline of where it was. */
  ghost predicate Paced(ds: seq<Event>) {
    forall k | 1 <= k < |ds| :: ds[k - 1].at + TP_SPACING_MS <= ds[k].at < ds[k - 1].at + TWO32 - TP_TIMEOUT_MS
  }

  lemma {:induction false} DtEventsOfSuffix(es: seq<Event>, j: nat)
    requires j <= |es|
    ensures |DtEvents(es[j..])| <= |DtEvents(es)|
    ensures DtEvents(es[j..]) == DtEvents(es)[|DtEvents(es)| - |DtEvents(es[j..])|..]
  {
    if j == |es| {
      assert es[j..] == [];
    } else {
      var init := es[..|es| - 1];
      assert es[j..][..|es[j..]| - 1] == init[j..];
      DtEventsOfSuffix(init, j);
    }
  }

  lemma PacedPart(ds: seq<Event>, lo: nat)
    requires Paced(ds) && lo <= |ds|
    ensures Paced(ds[lo..])
  {
    forall k | 1 <= k < |ds[lo..]|
      ensures ds[lo..][k - 1].at + TP_SPACING_MS <= ds[lo..][k].at < ds[lo..][k - 1].at + TWO32 - TP_TIMEOUT_MS
    {
      assert ds[lo..][k] == ds[lo + k] && ds[lo..][k - 1] == ds[lo + k - 1];
    }
  }

  lemma ClockAdvances(earlier: nat, gap: nat)
    requires gap < TWO32
    ensures (earlier + gap) % TWO32 == var sum := earlier % TWO32 + gap; if sum < TWO32 then sum else sum - TWO32
  {}

  lemma ElapsedGrows(earlier: nat, later: nat, start: nat)
    requires earlier + TP_SPACING_MS <= later < earlier + TWO32 - TP_TIMEOUT_MS
    requires Elapsed(earlier % TWO32, start % TWO32) <= TP_TIMEOUT_MS
    ensures Elapsed(later % TWO32, start % TWO32) >= Elapsed(earlier % TWO32, start % TWO32) + TP_SPACING_MS
  {
    ClockAdvances(earlier, later - earlier);
    assert later == earlier + (later - earlier);
    var a, b := earlier % TWO32, start % TWO32;
    assert Elapsed(a, b) == if a >= b then a - b else a - b + TWO32;
  }

  /** Packet `k` of a paced session comes at least `50 k` ms after its RTS by the receiver's clock. */
  lemma {:induction false} PacedElapsed(ds: seq<Event>, start: nat, k: nat)
    requires Paced(ds) && NumberedInTime(ds, start) && k < |ds|
    ensures Elapsed(ds[k].at % TWO32, start % TWO32) >= TP_SPACING_MS * k
  {
    if k > 0 {
      PacedElapsed(ds, start, k - 1);
      ElapsedGrows(ds[k - 1].at, ds[k].at, start);
    }
  }

  lemma PacedPrefix(es: seq<Event>)
    requires es != [] && Paced(DtEvents(es))
    ensures Paced(DtEvents(es[..|es| - 1]))
  {
    var part := DtEvents(es[..|es| - 1]);
    assert part == DtEvents(es)[..|part|];
    PacedFront(DtEvents(es), |part|);
  }

  lemma PacedFront(ds: seq<Event>, hi: nat)
    requires Paced(ds) && hi <= |ds|
    ensures Paced(ds[..hi])
  {
    var part := ds[..hi];
    forall k | 1 <= k < hi
      ensures part[k - 1].at + TP_SPACING_MS <= part[k].at < part[k - 1].at + TWO32 - TP_TIMEOUT_MS
    {
      assert part[k] == ds[k] && part[k - 1] == ds[k - 1];
    }
  }

  /** Some RTS of the stream announced a message of `size` bytes. */
  ghost predicate Announced(es: seq<Event>, size: nat) {
    exists j | 0 <= j < |es| :: IsCommand(es[j].frame, TP_CM_RTS) && RtsSize(es[j].frame) == size
  }

  /** A paced session that delivers was short. */
  lemma PacedSessionIsShort(es: seq<Event>, j: nat)
    requires j < |es| && Paced(DtEvents(es)) && NumberedInTime(DtEvents(es[j + 1..]), es[j].at)
    ensures |DtEvents(es[j + 1..])| <= PACED_PACKETS
  {
    var ds := DtEvents(es[j + 1..]);
    DtEventsOfSuffix(es, j + 1);
    PacedPart(DtEvents(es), |DtEvents(es)| - |ds|);
    if |ds| > 0 { PacedElapsed(ds, es[j].at, |ds| - 1); }
  }

  /** A single paced step: what it delivers was announced and has at most 112 bytes. */
  lemma PacedStep(node: Node, s: Session, es: seq<Event>) returns (handed: seq<Call>)
    requires Inv(s) && !s.open && es != [] && Paced(DtEvents(es))
    requires var last := es[|es| - 1];
             Process(node, Run(node, s, es[..|es| - 1]).session, last.at % TWO32, last.frame).delivered != []
    ensures Run(node, s, es).delivered == Run(node, s, es[..|es| - 1]).delivered + handed
    ensures forall c <- handed :: |c.data| <= 7 * PACED_PACKETS && Announced(es, |c.data|)
  {
    var j := DeliveryComesFromTrace(node, s, es);
    PacedSessionIsShort(es, j);
    var message := Concat(Payloads(DtEvents(es[j + 1..])))[..RtsSize(es[j].frame)];
    handed := Handed(node.handlers, RtsPgn(es[j].frame), message);
    SizesOfHanded(node.handlers, es, j, message);
  }

  lemma SizesOfHanded(handlers: seq<Handler>, es: seq<Event>, j: nat, message: seq<byte>)
    requires j < |es| && IsCommand(es[j].frame, TP_CM_RTS)
    requires |message| == RtsSize(es[j].frame) <= 7 * PACED_PACKETS
    ensures forall c <- Handed(handlers, RtsPgn(es[j].frame), message) ::
              |c.data| <= 7 * PACED_PACKETS && Announced(es, |c.data|)
  {
    HandedOnce(handlers, RtsPgn(es[j].frame), message);
    assert Announced(es, |message|);
  }

  /** Whatever else is on the bus, with data frames at the sender's spacing no run ever
      delivers a message of more than 112 bytes. */
  lemma {:induction false} PacedDeliveries(node: Node, s: Session, es: seq<Event>)
    requires Inv(s) && !s.open && Paced(DtEvents(es))
    ensures forall c <- Run(node, s, es).delivered :: |c.data| <= 7 * PACED_PACKETS && Announced(es, |c.data|)
  {
    if es != [] {
      var last, init := es[|es| - 1], es[..|es| - 1];
      PacedPrefix(es);
      PacedDeliveries(node, s, init);
      assert forall size | Announced(init, size) :: Announced(es, size) by {
        forall size | Announced(init, size) ensures Announced(es, size) {
          var j :| 0 <= j < |init| && IsCommand(init[j].frame, TP_CM_RTS) && RtsSize(init[j].frame) == size;
          assert es[j] == init[j];
        }
      }
      if Process(node, Run(node, s, init).session, last.at % TWO32, last.frame).delivered != [] {
        var handed := PacedStep(node, s, es);
      }
    }
  }

  /** A zero-latency bus and exact sleeps: the RTS and the first packet at `start`, then one
      packet every 50 ms. */
  ghost predicate OnSchedule(es: seq<Event>, start: nat) {
    && es != [] && es[0].at == start
    && forall i | 1 <= i < |es| :: es[i].at == start + TP_SPACING_MS * (i - 1)
  }

  lemma OnScheduleInTime(es: seq<Event>, start: nat)
    requires OnSchedule(es, start) && |es| <= 1 + PACED_PACKETS
    ensures InTime(es[1..], start)
  {
    forall e | e in es[1..] ensures Elapsed(e.at % TWO32, start % TWO32) <= TP_TIMEOUT_MS {
      var i :| 0 <= i < |es[1..]| && es[1..][i] == e;
      assert e == es[i + 1];
      ElapsedSince(start, start + TP_SPACING_MS * i);
    }
  }

  lemma SomeOtherSize(calls: seq<Call>, limit: nat, size: nat)
    requires limit < size
    ensures calls != [] ==> exists c <- calls :: |c.data| > limit || |c.data| != size
  {
    if calls != [] {
      assert calls[0] in calls;
    }
  }

  /** The best case: on a zero-latency bus with exact sleeps, a message reaches its handler
      exactly when it has at most 112 bytes. */
  lemma ScheduledTransfer(node: Node, s: Session, es: seq<Event>, start: nat,
                          source: byte, pgn: uint32, data: seq<byte>, filler: Filler)
    requires Inv(s) && !s.open && 9 <= |data| < 0x1_0000
    requires Direct(es, source, pgn, data, filler) && OnSchedule(es, start)
    ensures Run(node, s, es).delivered
         == if |data| <= 7 * PACED_PACKETS then Handed(node.handlers, pgn % 0x100_0000, data) else []
  {
    if |data| <= 7 * PACED_PACKETS {
      OnScheduleInTime(es, start);
      DirectTransfer(node, s, es, source, pgn, data, filler);
    } else {
      DirectShape(es, source, pgn, data, filler);
      ScheduledLongMessage(node, s, es, start, source, pgn, |data|);
    }
  }

  lemma ScheduledLongMessage(node: Node, s: Session, es: seq<Event>, start: nat,
                             source: byte, pgn: uint32, len: uint16)
    requires Inv(s) && !s.open && OnSchedule(es, start) && len > 7 * PACED_PACKETS
    requires es[0].frame == RtsFrame(source, pgn, len) && forall i | 1 <= i < |es| :: IsDt(es[i].frame)
    ensures Run(node, s, es).delivered == []
  {
    RtsReadsBack(source, pgn, len);
    OneRtsDtEvents(es);
    SchedulePaced(es, start);
    PacedDeliveries(node, s, es);
    forall size | Announced(es, size) ensures size == len { OnlyRts(es, size); }
    SomeOtherSize(Run(node, s, es).delivered, 7 * PACED_PACKETS, len);
  }

  lemma SchedulePaced(es: seq<Event>, start: nat)
    requires OnSchedule(es, start)
    ensures Paced(es[1..])
  {}

  lemma OnlyRts(es: seq<Event>, size: nat)
    requires es != [] && (forall i | 1 <= i < |es| :: IsDt(es[i].frame)) && Announced(es, size)
    ensures size == RtsSize(es[0].frame)
  {
    var j :| 0 <= j < |es| && IsCommand(es[j].frame, TP_CM_RTS) && RtsSize(es[j].frame) == size;
    CommandIsNotDt(es[j].frame);
  }

  lemma CommandIsNotDt(f: Frame)
    requires IsCommand(f, TP_CM_RTS)
    ensures !IsDt(f)
  {}

  lemma {:induction false} OneRtsDtEvents(es: seq<Event>)
    requires es != [] && !IsDt(es[0].frame) && forall i | 1 <= i < |es| :: IsDt(es[i].frame)
    ensures DtEvents(es) == es[1..]
  {
    if |es| == 1 {
      assert es[..|es| - 1] == [];
    } else {
      var init := es[..|es| - 1];
      OneRtsDtEvents(init);
      assert init[1..] + [es[|es| - 1]] == es[1..];
    }
  }
}
