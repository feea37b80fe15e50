/** What ISO-TP puts on the bus, byte by byte, and how every reception that does not succeed ends. */
module IsoTpAnswers {
  import opened Bits
  import opened Can
  import opened IsoTp
  import opened IsoTpReception
  import opened IsoTpTransfer

  // ---------------------------------------------------------------- the sender's frames

  /** Every frame of a message carries the sender's identifier; a single frame says how much it holds,
      the others are full. */
  lemma FramesOfMessage(c: Codes, tx: uint32, data: seq<byte>)
    ensures forall f <- MessageFrames(c, tx, data) :: f.id == tx && f.dlc == if |data| <= 7 then |data| + 1 else 8
    ensures |MessageFrames(c, tx, data)| == if |data| <= 7 then 1 else 1 + (|data| - 6 + 6) / 7
  {}

  /** A single frame with the standard's codes: the length, the data, zeros. */
  lemma SingleBytes(tx: uint32, data: seq<byte>)
    requires |data| <= 7
    ensures MessageFrames(STANDARD, tx, data)[0].data == [|data|] + data + Zeros(7 - |data|)
  {
    OrAt4(0, |data|);
  }

  /** A first frame with the standard's codes: type 1 and the length in 12 bits, then six bytes. */
  lemma FirstBytes(tx: uint32, data: seq<byte>)
    requires |data| >= 8
    ensures MessageFrames(STANDARD, tx, data)[0].data
         == [0x10 + |data| / 0x100 % 0x10, |data| % 0x100] + data[..6]
  {
    OrAt4(1, |data| / 0x100 % 0x10);
  }

  /** The bytes of consecutive frame `k`: seven, but for the last. */
  lemma ChunkBytes(data: seq<byte>, k: nat)
    requires |data| >= 8 && 6 + 7 * k < |data|
    ensures k < FramesLeft(|data|, 6)
    ensures var chunk := Chunk(data, k);
            && |chunk| == (if 6 + 7 * (k + 1) <= |data| then 7 else |data| - (6 + 7 * k))
            && chunk == data[6 + 7 * k..6 + 7 * k + |chunk|]
  {}

  /** Frame `k` after it, from 0: type 2 and its number modulo 16, its bytes, zeros after the last. */
  lemma ConsecutiveBytes(tx: uint32, firstSeq: nibble, data: seq<byte>, k: nat)
    requires |data| >= 8 && k < FramesLeft(|data|, 6)
    ensures var fs := MessageFrames(STANDARD.(firstSeq := firstSeq), tx, data);
            && 1 + k < |fs| && 6 + 7 * k <= |data| && |Chunk(data, k)| <= 7
            && fs[1 + k].data == [0x20 + (firstSeq + k) % 0x10] + Chunk(data, k) + Zeros(7 - |Chunk(data, k)|)
  {
    var c := STANDARD.(firstSeq := firstSeq);
    OrAt4(2, (firstSeq + k) % 0x10);
    assert MessageFrames(c, tx, data)[1 + k] == ConsecutiveFrames(c, tx, data)[k] == ConsecutiveFrame(c, tx, data, k);
  }

  /** A flow control: its code, how many frames are granted, 10 ms between them. */
  lemma FlowBytes(c: Codes, tx: uint32, granted: byte)
    ensures var f := FlowFrame(c, tx, granted);
            f.id == tx && f.dlc == 3 && f.data == [c.flow, granted, 10, 0, 0, 0, 0, 0]
  {}

  // ---------------------------------------------------------------- receptions that end at once

  /** Nothing received, or a frame for another receiver: the first frame decides. */
  lemma NotReceived(c: Codes, ids: Ids, room: nat, events: seq<Rx>, flowResult: nat -> SendResult)
    requires events == [] || !Takes(ids, events[0].frame.id)
    ensures Receive(c, ids, room, events, flowResult) == Outcome(if events == [] then -116 else -22, [], [])
  {}

  /** A frame is for this receiver exactly when its identifier has every bit of the receiver's. */
  lemma TakenBits(ids: Ids, id: uint32)
    ensures Takes(ids, id) <==> HasBitsOf(id, ids.rx)
  {
    AndMask(id, ids.rx);
  }

  /** A single frame, whoever sent it: 1 to 7 bytes, if there is room. */
  lemma SingleReceived(c: Codes, ids: Ids, room: nat, events: seq<Rx>, flowResult: nat -> SendResult)
    requires events != [] && Takes(ids, events[0].frame.id)
    requires events[0].frame.data[0] / 0x10 * 0x10 == c.single
    ensures var d := events[0].frame.data;
            var n := d[0] % 0x10;
            Receive(c, ids, room, events, flowResult)
            == if n == 0 || n > 7 then Outcome(-122, [], [])
               else if n > room then Outcome(-28, [], []) else Outcome(n, d[1..1 + n], [])
  {
    Nibbles(events[0].frame.data[0]);
  }

  lemma Nibbles(b: byte)
    ensures HighNibble(b) == b / 0x10 * 0x10 && LowNibble(b) == b % 0x10
  {}

  /** A frame of another type is refused. */
  lemma OtherRefused(c: Codes, ids: Ids, room: nat, events: seq<Rx>, flowResult: nat -> SendResult)
    requires events != [] && Takes(ids, events[0].frame.id)
    requires events[0].frame.data[0] / 0x10 * 0x10 !in {c.single, c.first}
    ensures Receive(c, ids, room, events, flowResult) == Outcome(-22, [], [])
  {
    Nibbles(events[0].frame.data[0]);
  }

  /** The length a first frame announces in its low nibble and second byte must be 8 to the room; and the
      flow control that answers it must go out. */
  lemma FirstRefused(c: Codes, ids: Ids, room: nat, events: seq<Rx>, flowResult: nat -> SendResult)
    requires events != [] && IsFirst(c, ids, events[0].frame)
    ensures var d := events[0].frame.data;
            var total := d[0] % 0x10 * 0x100 + d[1] as int;
            && AnnouncedLength(events[0].frame) == total
            && (total < 8 || total > room ==> Receive(c, ids, room, events, flowResult) == Outcome(-122, [], []))
            && (8 <= total <= room && flowResult(0) != 0 ==>
                  Receive(c, ids, room, events, flowResult)
                  == Outcome(flowResult(0), d[2..], [Grant(0, FlowFrame(c, ids.tx, 8))]))
  {
    Nibbles(events[0].frame.data[0]);
  }

  // ---------------------------------------------------------------- receptions that end later

  /** The flow controls due over the next `k` of the `n` frames still to come. */
  function GrantsWithin(c: Codes, tx: uint32, done: nat, n: nat, k: nat): seq<Grant>
    requires k <= n
    decreases k
  {
    if k == 0 then []
    else (if done % BLOCK_SIZE == 6 && n > 1 then [Grant(done + 1, FlowFrame(c, tx, Min(BLOCK_SIZE, n - 1)))] else [])
         + GrantsWithin(c, tx, done + 1, n - 1, k - 1)
  }

  /** They are the first of all those due. */
  lemma {:induction false} WithinIsPrefix(c: Codes, tx: uint32, done: nat, n: nat, k: nat)
    requires k <= n
    ensures GrantsWithin(c, tx, done, n, k) <= GrantsFrom(c, tx, done, n)
    ensures k == n ==> GrantsWithin(c, tx, done, n, k) == GrantsFrom(c, tx, done, n)
    decreases k
  {
    if k > 0 { WithinIsPrefix(c, tx, done + 1, n - 1, k - 1); }
  }

  lemma DueNow(c: Codes, ids: Ids, total: nat, done: nat, got: seq<byte>, f: Frame, next: nibble)
    requires total >= 8 && AfterFrames(total, done, got) && |got| < total && next == (done + 2) % 0x10
    ensures var now, n := got + f.data[1..1 + Min(7, total - |got|)], FramesLeft(total, |got|);
            GrantAfter(c, ids, total, |now|, next)
            == if done % BLOCK_SIZE == 6 && n > 1
               then [Grant(done + 1, FlowFrame(c, ids.tx, Min(BLOCK_SIZE, n - 1)))] else []
  {
    OneFrame(total, done, got, f);
    NextGrant(done);
  }

  /** Why the loop gives up at frame `k`: it does not come within a second of the start, or is not the
      consecutive frame with the number awaited. */
  function Reason(start: uint32, events: seq<Rx>, k: nat): int
    requires k <= |events|
  {
    if k == |events| || Elapsed(events[k].checkedAt % TWO32, start) > 1000 then -116 else -22
  }

  /** The loop having `done` frames and `got`, and `k` more in sequence whose flow controls all go out,
      the next is not there, in time or in sequence. */
  ghost predicate Breaks(c: Codes, ids: Ids, start: uint32, total: nat, events: seq<Rx>,
                         flowResult: nat -> SendResult, got: seq<byte>, flows: seq<Grant>, done: nat, k: nat)
  {
    && total >= 8 && AfterFrames(total, done, got) && k < FramesLeft(total, |got|)
    && InSequence(c, start, events, k, done + 1)
    && Granted(flowResult, |flows|, |flows| + |GrantsWithin(c, ids.tx, done, FramesLeft(total, |got|), k)|)
    && (k == |events| || !Awaited(c, start, events[k], done + 1 + k))
  }

  lemma BreaksStep(c: Codes, ids: Ids, start: uint32, total: nat, events: seq<Rx>,
                   flowResult: nat -> SendResult, got: seq<byte>, flows: seq<Grant>, done: nat, k: nat, next: nibble)
    requires Breaks(c, ids, start, total, events, flowResult, got, flows, done, k) && k > 0
    requires next == (done + 2) % 0x10
    ensures var now := got + events[0].frame.data[1..1 + Min(7, total - |got|)];
            var granted := GrantAfter(c, ids, total, |now|, next);
            && (granted != [] ==> flowResult(|flows|) == 0)
            && FramesLeft(total, |now|) == FramesLeft(total, |got|) - 1
            && Breaks(c, ids, start, total, events[1..], flowResult, now, flows + granted, done + 1, k - 1)
  {
    OneFrame(total, done, got, events[0].frame);
    DueNow(c, ids, total, done, got, events[0].frame, next);
    StepInSequence(c, start, events, k, done + 1);
    assert k < |events| ==> events[k] == events[1..][k - 1];
  }

  /** The turn on an awaited frame whose flow control, if one is due, goes out. */
  lemma GrantedTurn(c: Codes, ids: Ids, start: uint32, total: nat, events: seq<Rx>,
                    flowResult: nat -> SendResult, got: seq<byte>, flows: seq<Grant>, done: nat, expected: nibble)
    requires |got| < total && events != [] && expected == (done + 1) % 0x10
    requires Awaited(c, start, events[0], done + 1)
    requires var now := got + events[0].frame.data[1..1 + Min(7, total - |got|)];
             GrantAfter(c, ids, total, |now|, (expected + 1) % 0x10) != [] ==> flowResult(|flows|) == 0
    ensures var now := got + events[0].frame.data[1..1 + Min(7, total - |got|)];
            var granted := GrantAfter(c, ids, total, |now|, (expected + 1) % 0x10);
            Collect(c, ids, start, total, events, flowResult, got, flows, expected)
            == Collect(c, ids, start, total, events[1..], flowResult, now, flows + granted, (expected + 1) % 0x10)
  {
    AwaitedModulo(c, start, events[0], done + 1, expected);
    assert expected % 0x10 == expected;
    Turn(c, ids, start, total, events, flowResult, got, flows, expected);
  }

  lemma GivesUp(c: Codes, ids: Ids, start: uint32, total: nat, events: seq<Rx>, flowResult: nat -> SendResult,
                got: seq<byte>, flows: seq<Grant>, done: nat, expected: nibble)
    requires |got| < total && expected == (done + 1) % 0x10
    requires events == [] || !Awaited(c, start, events[0], done + 1)
    ensures Collect(c, ids, start, total, events, flowResult, got, flows, expected)
         == Outcome(Reason(start, events, 0), got, flows)
  {
    if events != [] { AwaitedModulo(c, start, events[0], done + 1, expected); }
    assert expected % 0x10 == expected;
  }

  /** The loop that breaks off at frame `k` has written what came before it and sent the flow controls due
      until then. */
  lemma {:induction false} CollectBreaks(c: Codes, ids: Ids, start: uint32, total: nat, events: seq<Rx>,
                                         flowResult: nat -> SendResult, got: seq<byte>, flows: seq<Grant>,
                                         done: nat, expected: nibble, k: nat)
    requires Breaks(c, ids, start, total, events, flowResult, got, flows, done, k) && expected == (done + 1) % 0x10
    ensures Collect(c, ids, start, total, events, flowResult, got, flows, expected)
         == Outcome(Reason(start, events, k), got + Gathered(events, k),
                    flows + GrantsWithin(c, ids.tx, done, FramesLeft(total, |got|), k))
    decreases k
  {
    if k == 0 {
      GivesUp(c, ids, start, total, events, flowResult, got, flows, done, expected);
      assert got + [] == got && flows + [] == flows;
    } else {
      var next := (expected + 1) % 0x10;
      NextNumber(done + 1);
      StepInSequence(c, start, events, k, done + 1);
      BreaksStep(c, ids, start, total, events, flowResult, got, flows, done, k, next);
      GrantedTurn(c, ids, start, total, events, flowResult, got, flows, done, expected);
      var now := got + events[0].frame.data[1..1 + Min(7, total - |got|)];
      CollectBreaks(c, ids, start, total, events[1..], flowResult, now, flows + GrantAfter(c, ids, total, |now|, next),
                    done + 1, next, k - 1);
      BrokenOff(c, ids, start, total, events, got, flows, done, k, next);
    }
  }

  /** The outcome seen from one frame earlier. */
  lemma BrokenOff(c: Codes, ids: Ids, start: uint32, total: nat, events: seq<Rx>, got: seq<byte>, flows: seq<Grant>,
                  done: nat, k: nat, next: nibble)
    requires total >= 8 && AfterFrames(total, done, got) && 0 < k <= |events| && k < FramesLeft(total, |got|)
    requires next == (done + 2) % 0x10
    ensures var now, n := got + events[0].frame.data[1..1 + Min(7, total - |got|)], FramesLeft(total, |got|);
            && Reason(start, events, k) == Reason(start, events[1..], k - 1)
            && now + Gathered(events[1..], k - 1) == got + Gathered(events, k)
            && flows + GrantAfter(c, ids, total, |now|, next) + GrantsWithin(c, ids.tx, done + 1, n - 1, k - 1)
               == flows + GrantsWithin(c, ids.tx, done, n, k)
  {
    DueNow(c, ids, total, done, got, events[0].frame, next);
    FullPayload(total, got, events, k);
  }

  lemma FullPayload(total: nat, got: seq<byte>, events: seq<Rx>, k: nat)
    requires 0 < k <= |events| && |got| < total && k < FramesLeft(total, |got|)
    ensures got + events[0].frame.data[1..1 + Min(7, total - |got|)] + Gathered(events[1..], k - 1)
         == got + Gathered(events, k)
  {
    assert events[0].frame.data[1..1 + Min(7, total - |got|)] == events[0].frame.data[1..];
  }

  /** How a multi-frame reception fails: at the first consecutive frame that is not there within a second,
      with -ETIMEDOUT, or is there and not the one awaited, with -EINVAL, provided the flow controls due
      until then went out. It has then written the payloads before it. */
  lemma ReceptionBreaks(c: Codes, ids: Ids, room: nat, events: seq<Rx>, flowResult: nat -> SendResult, k: nat)
    requires events != [] && IsFirst(c, ids, events[0].frame) && 8 <= AnnouncedLength(events[0].frame) <= room
    requires k < FramesLeft(AnnouncedLength(events[0].frame), 6)
    requires InSequence(c, events[0].checkedAt % TWO32, events[1..], k, 1)
    requires k + 1 == |events| || !Awaited(c, events[0].checkedAt % TWO32, events[k + 1], k + 1)
    requires var n := FramesLeft(AnnouncedLength(events[0].frame), 6);
             Granted(flowResult, 0, 1 + |GrantsWithin(c, ids.tx, 0, n, k)|)
    ensures var n, start := FramesLeft(AnnouncedLength(events[0].frame), 6), events[0].checkedAt % TWO32;
            Receive(c, ids, room, events, flowResult)
            == Outcome(Reason(start, events[1..], k), events[0].frame.data[2..] + Gathered(events[1..], k),
                       [Grant(0, FlowFrame(c, ids.tx, 8))] + GrantsWithin(c, ids.tx, 0, n, k))
  {
    var total, start := AnnouncedLength(events[0].frame), events[0].checkedAt % TWO32;
    var flows := [Grant(0, FlowFrame(c, ids.tx, BLOCK_SIZE))];
    assert k < |events[1..]| ==> events[1..][k] == events[k + 1];
    CollectBreaks(c, ids, start, total, events[1..], flowResult, events[0].frame.data[2..], flows, 0, 1, k);
  }

  // ---------------------------------------------------------------- a flow control that fails

  /** The loop takes `k + 1` frames in sequence, and the flow control due after the last of them, number
      `failed`, is the first not to go out. */
  ghost predicate Blocked(c: Codes, ids: Ids, start: uint32, total: nat, events: seq<Rx>,
                          flowResult: nat -> SendResult, got: seq<byte>, flows: seq<Grant>,
                          done: nat, k: nat, failed: nat)
  {
    var n := FramesLeft(total, |got|);
    && total >= 8 && AfterFrames(total, done, got) && k + 1 < n && (done + k) % BLOCK_SIZE == 6
    && InSequence(c, start, events, k + 1, done + 1)
    && failed == |flows| + |GrantsWithin(c, ids.tx, done, n, k)|
    && Granted(flowResult, |flows|, failed) && flowResult(failed) != 0
  }

  lemma BlockedStep(c: Codes, ids: Ids, start: uint32, total: nat, events: seq<Rx>,
                    flowResult: nat -> SendResult, got: seq<byte>, flows: seq<Grant>, done: nat, k: nat, failed: nat,
                    next: nibble)
    requires Blocked(c, ids, start, total, events, flowResult, got, flows, done, k, failed) && k > 0
    requires next == (done + 2) % 0x10
    ensures var now := got + events[0].frame.data[1..1 + Min(7, total - |got|)];
            var granted := GrantAfter(c, ids, total, |now|, next);
            && (granted != [] ==> flowResult(|flows|) == 0)
            && FramesLeft(total, |now|) == FramesLeft(total, |got|) - 1
            && Blocked(c, ids, start, total, events[1..], flowResult, now, flows + granted, done + 1, k - 1, failed)
  {
    OneFrame(total, done, got, events[0].frame);
    DueNow(c, ids, total, done, got, events[0].frame, next);
    StepInSequence(c, start, events, k + 1, done + 1);
  }

  lemma BlockedTurn(c: Codes, ids: Ids, start: uint32, total: nat, events: seq<Rx>,
                    flowResult: nat -> SendResult, got: seq<byte>, flows: seq<Grant>, done: nat, expected: nibble)
    requires Blocked(c, ids, start, total, events, flowResult, got, flows, done, 0, |flows|)
    requires expected == (done + 1) % 0x10
    ensures Collect(c, ids, start, total, events, flowResult, got, flows, expected)
         == Outcome(flowResult(|flows|), got + Gathered(events, 1),
                    flows + GrantsWithin(c, ids.tx, done, FramesLeft(total, |got|), 1))
  {
    var next := (expected + 1) % 0x10;
    NextNumber(done + 1);
    StepInSequence(c, start, events, 1, done + 1);
    AwaitedModulo(c, start, events[0], done + 1, expected);
    assert expected % 0x10 == expected;
    Turn(c, ids, start, total, events, flowResult, got, flows, expected);
    DueNow(c, ids, total, done, got, events[0].frame, next);
    FullPayload(total, got, events, 1);
    var due := GrantsWithin(c, ids.tx, done, FramesLeft(total, |got|), 1);
    assert due == GrantAfter(c, ids, total, |got + events[0].frame.data[1..1 + Min(7, total - |got|)]|, next) + [];
  }

  lemma {:induction false} CollectBlocked(c: Codes, ids: Ids, start: uint32, total: nat, events: seq<Rx>,
                                          flowResult: nat -> SendResult, got: seq<byte>, flows: seq<Grant>,
                                          done: nat, expected: nibble, k: nat, failed: nat)
    requires Blocked(c, ids, start, total, events, flowResult, got, flows, done, k, failed)
    requires expected == (done + 1) % 0x10
    ensures var n := FramesLeft(total, |got|);
            Collect(c, ids, start, total, events, flowResult, got, flows, expected)
            == Outcome(flowResult(failed), got + Gathered(events, k + 1),
                       flows + GrantsWithin(c, ids.tx, done, n, k + 1))
    decreases k
  {
    if k == 0 {
      BlockedTurn(c, ids, start, total, events, flowResult, got, flows, done, expected);
    } else {
      var next := (expected + 1) % 0x10;
      NextNumber(done + 1);
      StepInSequence(c, start, events, k + 1, done + 1);
      BlockedStep(c, ids, start, total, events, flowResult, got, flows, done, k, failed, next);
      GrantedTurn(c, ids, start, total, events, flowResult, got, flows, done, expected);
      var now := got + events[0].frame.data[1..1 + Min(7, total - |got|)];
      CollectBlocked(c, ids, start, total, events[1..], flowResult, now, flows + GrantAfter(c, ids, total, |now|, next),
                     done + 1, next, k - 1, failed);
      BrokenOff(c, ids, start, total, events, got, flows, done, k + 1, next);
    }
  }

  /** When the flow control after frame `k + 1` is the first that does not go out, its error is returned. */
  lemma ReceptionBlocked(c: Codes, ids: Ids, room: nat, events: seq<Rx>, flowResult: nat -> SendResult, k: nat)
    requires events != [] && IsFirst(c, ids, events[0].frame) && 8 <= AnnouncedLength(events[0].frame) <= room
    requires var n := FramesLeft(AnnouncedLength(events[0].frame), 6);
             && k + 1 < n && k % BLOCK_SIZE == 6
             && InSequence(c, events[0].checkedAt % TWO32, events[1..], k + 1, 1)
             && Granted(flowResult, 0, 1 + |GrantsWithin(c, ids.tx, 0, n, k)|)
             && flowResult(1 + |GrantsWithin(c, ids.tx, 0, n, k)|) != 0
    ensures var n := FramesLeft(AnnouncedLength(events[0].frame), 6);
            Receive(c, ids, room, events, flowResult)
            == Outcome(flowResult(1 + |GrantsWithin(c, ids.tx, 0, n, k)|),
                       events[0].frame.data[2..] + Gathered(events[1..], k + 1),
                       [Grant(0, FlowFrame(c, ids.tx, 8))] + GrantsWithin(c, ids.tx, 0, n, k + 1))
  {
    var total, start := AnnouncedLength(events[0].frame), events[0].checkedAt % TWO32;
    var flows := [Grant(0, FlowFrame(c, ids.tx, BLOCK_SIZE))];
    CollectBlocked(c, ids, start, total, events[1..], flowResult, events[0].frame.data[2..], flows, 0, 1, k,
                   1 + |GrantsWithin(c, ids.tx, 0, FramesLeft(total, 6), k)|);
  }
}
