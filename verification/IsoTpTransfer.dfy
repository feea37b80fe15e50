/** ISO-TP messages end to end: what `isotp_receive` makes of the frames of `isotp_send`. */
module IsoTpTransfer {
  import opened Bits
  import opened Can
  import opened IsoTp
  import opened IsoTpReception

  // ---------------------------------------------------------------- multi-frame reception

  /** The receiver takes frames with this identifier: it has every bit of the receiver's. */
  predicate Takes(ids: Ids, id: uint32) {
    And(id, ids.rx) == ids.rx
  }

  /** The receiver takes the frame for a first frame addressed to it. */
  predicate IsFirst(c: Codes, ids: Ids, f: Frame) {
    Takes(ids, f.id) && HighNibble(f.data[0]) == c.first && c.first != c.single
  }

  /** Reception of a multi-frame message, for any frames in any order: it returns the announced
      length exactly when that is between 8 and the room, the right number of consecutive frames
      follows in time and in sequence from 1, and every flow control goes out; and then the
      destination holds the payloads in order, cut to that length. */
  lemma ReceivesExactly(c: Codes, ids: Ids, room: nat, events: seq<Rx>, flowResult: nat -> SendResult)
    requires events != [] && IsFirst(c, ids, events[0].frame)
    ensures var r, total := Receive(c, ids, room, events, flowResult), AnnouncedLength(events[0].frame);
            var n := FramesLeft(total, 6);
            var grants := GrantsFrom(c, ids.tx, 0, n);
            && (r.ret >= 0 <==> && 8 <= total <= room
                                && InSequence(c, events[0].checkedAt % TWO32, events[1..], n, 1)
                                && Granted(flowResult, 0, 1 + |grants|))
            && (r.ret >= 0 ==> Complete(r, total, events[0].frame.data[2..] + Gathered(events[1..], n),
                                        [Grant(0, FlowFrame(c, ids.tx, BLOCK_SIZE))] + grants))
  {
    var f, total := events[0].frame, AnnouncedLength(events[0].frame);
    if 8 <= total <= room && flowResult(0) == 0 {
      var flows := [Grant(0, FlowFrame(c, ids.tx, BLOCK_SIZE))];
      CollectExactly(c, ids, events[0].checkedAt % TWO32, total, events[1..], flowResult, f.data[2..], flows, 0, 1);
      GrantedSplits(flowResult, 0, 1, |GrantsFrom(c, ids.tx, 0, FramesLeft(total, 6))|);
    }
  }

  /** How many flow controls are sent over `n` frames when the first comes after `wait + 1` of them. */
  function GrantCount(n: nat, wait: nat): nat {
    if n <= wait + 1 then 0 else (n - 2 - wait) / BLOCK_SIZE + 1
  }

  /** Flow control `i` of `GrantsFrom`. */
  function GrantAt(c: Codes, tx: uint32, done: nat, n: nat, wait: nat, i: nat): Grant
    requires wait + 1 + 8 * i < n
  {
    Grant(done + wait + 1 + 8 * i, FlowFrame(c, tx, Min(BLOCK_SIZE, n - (wait + 1 + 8 * i))))
  }

  ghost predicate OneByOne(c: Codes, tx: uint32, done: nat, n: nat, wait: nat, grants: seq<Grant>) {
    && |grants| == GrantCount(n, wait)
    && forall i | 0 <= i < |grants| :: wait + 1 + 8 * i < n && grants[i] == GrantAt(c, tx, done, n, wait, i)
  }

  lemma FirstGrant(c: Codes, tx: uint32, done: nat, n: nat, later: seq<Grant>)
    requires n > 1 && OneByOne(c, tx, done + 1, n - 1, 7, later)
    ensures OneByOne(c, tx, done, n, 0, [GrantAt(c, tx, done, n, 0, 0)] + later)
  {
    var grants := [GrantAt(c, tx, done, n, 0, 0)] + later;
    forall i | 0 <= i < |grants| ensures 1 + 8 * i < n && grants[i] == GrantAt(c, tx, done, n, 0, i) {
      if i > 0 { assert later[i - 1] == GrantAt(c, tx, done + 1, n - 1, 7, i - 1); }
    }
  }

  lemma LaterGrants(c: Codes, tx: uint32, done: nat, n: nat, wait: nat, later: seq<Grant>)
    requires n > 1 && wait > 0 && OneByOne(c, tx, done + 1, n - 1, wait - 1, later)
    ensures OneByOne(c, tx, done, n, wait, later)
  {
    forall i | 0 <= i < |later| ensures wait + 1 + 8 * i < n && later[i] == GrantAt(c, tx, done, n, wait, i) {
      assert later[i] == GrantAt(c, tx, done + 1, n - 1, wait - 1, i);
    }
  }

  /** The flow controls of `GrantsFrom`, one by one. */
  lemma {:induction false} GrantsOneByOne(c: Codes, tx: uint32, done: nat, n: nat, wait: nat)
    requires wait < BLOCK_SIZE && (done + wait) % BLOCK_SIZE == 6
    ensures OneByOne(c, tx, done, n, wait, GrantsFrom(c, tx, done, n))
    decreases n
  {
    if n > 1 {
      var later := GrantsFrom(c, tx, done + 1, n - 1);
      if wait == 0 {
        GrantsOneByOne(c, tx, done + 1, n - 1, 7);
        FirstGrant(c, tx, done, n, later);
      } else {
        WaitLeft(done, wait);
        GrantsOneByOne(c, tx, done + 1, n - 1, wait - 1);
        LaterGrants(c, tx, done, n, wait, later);
        assert GrantsFrom(c, tx, done, n) == later;
      }
    }
  }

  lemma WaitLeft(done: nat, wait: nat)
    requires 0 < wait < BLOCK_SIZE && (done + wait) % BLOCK_SIZE == 6
    ensures done % BLOCK_SIZE != 6
  {}

  /** With `n` consecutive frames, `n / 8` more flow controls follow the first one: after frames
      7, 15, 23 and so on but never after the last, each granting at most 8 of the frames left.
      So the first block has 7 frames although 8 were granted. */
  lemma FlowControls(c: Codes, tx: uint32, n: nat)
    ensures var grants := GrantsFrom(c, tx, 0, n);
            && |grants| == n / 8
            && forall i | 0 <= i < n / 8 ::
                 8 * i + 7 < n && grants[i] == Grant(8 * i + 7, FlowFrame(c, tx, Min(BLOCK_SIZE, n - (8 * i + 7))))
  {
    GrantsOneByOne(c, tx, 0, n, 6);
    forall i | 0 <= i < n / 8
      ensures 8 * i + 7 < n
      ensures GrantAt(c, tx, 0, n, 6, i) == Grant(8 * i + 7, FlowFrame(c, tx, Min(BLOCK_SIZE, n - (8 * i + 7))))
    {}
  }

  // ---------------------------------------------------------------- round trip

  function Frames(events: seq<Rx>): seq<Frame> {
    seq(|events|, i requires 0 <= i < |events| => events[i].frame)
  }

  /** The standard's codes sit in the high nibble, so code and value read back apart. */
  lemma TypeByteReadsBack(x: nibble, low: nibble)
    ensures HighNibble(TypeByte(x * 0x10, low)) == x * 0x10 && LowNibble(TypeByte(x * 0x10, low)) == low
  {
    OrAt4(x, low);
  }

  lemma LengthFields(len: nat)
    ensures (len / 0x100) % 0x10 * 0x100 + len % 0x100 == len % 0x1000
  {
    assert len == (len / 0x1000) * 0x1000 + len % 0x1000;
    assert len / 0x100 == (len / 0x1000) * 0x10 + len % 0x1000 / 0x100;
  }

  lemma FirstFrameReadsBack(tx: uint32, firstSeq: nibble, data: seq<byte>)
    requires |data| >= 8
    ensures var f := FirstFrame(STANDARD.(firstSeq := firstSeq), tx, data);
            HighNibble(f.data[0]) == 0x10 && AnnouncedLength(f) == |data| % 0x1000 && f.data[2..] == data[..6]
  {
    TypeByteReadsBack(1, (|data| / 0x100) % 0x10);
    LengthFields(|data|);
  }

  lemma ConsecutiveReadsBack(tx: uint32, firstSeq: nibble, data: seq<byte>, k: nat)
    requires 6 + 7 * k <= |data|
    ensures var f := ConsecutiveFrame(STANDARD.(firstSeq := firstSeq), tx, data, k);
            && HighNibble(f.data[0]) == 0x20 && LowNibble(f.data[0]) == (firstSeq + k) % 0x10
            && f.data[1..][..|Chunk(data, k)|] == Chunk(data, k)
  {
    TypeByteReadsBack(2, (firstSeq + k) % 0x10);
  }

  /** Each consecutive frame is waited for within a second of the start. */
  ghost predicate InTime(events: seq<Rx>, start: nat) {
    forall e <- events :: Elapsed(e.checkedAt % TWO32, start % TWO32) <= TIMEOUT_MS
  }

  /** The frames of `data`, sent to this receiver with the standard's codes, are what it takes. */
  ghost predicate Carries(events: seq<Rx>, ids: Ids, tx: uint32, firstSeq: nibble, data: seq<byte>)
    requires |data| >= 8
  {
    && Takes(ids, tx) && events != []
    && events[0].frame == FirstFrame(STANDARD.(firstSeq := firstSeq), tx, data)
    && Frames(events[1..]) == ConsecutiveFrames(STANDARD.(firstSeq := firstSeq), tx, data)
  }

  lemma CarriedFrame(events: seq<Rx>, ids: Ids, tx: uint32, firstSeq: nibble, data: seq<byte>, k: nat)
    requires |data| >= 8 && Carries(events, ids, tx, firstSeq, data) && k < FramesLeft(|data|, 6)
    ensures |events| == 1 + FramesLeft(|data|, 6)
    ensures events[1..][k].frame == ConsecutiveFrame(STANDARD.(firstSeq := firstSeq), tx, data, k)
  {
    var all := ConsecutiveFrames(STANDARD.(firstSeq := firstSeq), tx, data);
    assert |Frames(events[1..])| == |all|;
    assert events[1..][k].frame == Frames(events[1..])[k] == all[k];
  }

  lemma CarriedFirst(events: seq<Rx>, ids: Ids, tx: uint32, firstSeq: nibble, data: seq<byte>)
    requires |data| >= 8 && Carries(events, ids, tx, firstSeq, data)
    ensures IsFirst(STANDARD, ids, events[0].frame)
    ensures AnnouncedLength(events[0].frame) == |data| % 0x1000 && events[0].frame.data[2..] == data[..6]
  {
    FirstFrameReadsBack(tx, firstSeq, data);
  }

  /** In time, the carried frames are in sequence exactly when the sender counts from 1. */
  lemma CarriedSequence(events: seq<Rx>, ids: Ids, tx: uint32, firstSeq: nibble, data: seq<byte>, n: nat)
    requires |data| >= 8 && Carries(events, ids, tx, firstSeq, data)
    requires InTime(events[1..], events[0].checkedAt) && 0 < n <= FramesLeft(|data|, 6)
    ensures InSequence(STANDARD, events[0].checkedAt % TWO32, events[1..], n, 1) <==> firstSeq == 1
  {
    CarriedFrame(events, ids, tx, firstSeq, data, 0);
    ConsecutiveReadsBack(tx, firstSeq, data, 0);
    var start, rest := events[0].checkedAt % TWO32, events[1..];
    if firstSeq == 1 {
      forall k | 0 <= k < n ensures Awaited(STANDARD, start, rest[k], 1 + k) {
        CarriedFrame(events, ids, tx, firstSeq, data, k);
        ConsecutiveReadsBack(tx, firstSeq, data, k);
        assert rest[k] in rest;
      }
    } else {
      assert !Awaited(STANDARD, start, rest[0], 1 + 0);
    }
  }

  lemma ChunkFollows(data: seq<byte>, k: nat, payload: seq<byte>, rest: seq<byte>, total: nat)
    requires 6 + 7 * k < total <= |data| && |payload| == 7 && payload[..|Chunk(data, k)|] == Chunk(data, k)
    requires var done := Min(6 + 7 * (k + 1), total);
             total - done <= |rest| && rest[..total - done] == data[done..total]
    ensures total - (6 + 7 * k) <= |payload + rest| && (payload + rest)[..total - (6 + 7 * k)] == data[6 + 7 * k..total]
  {
    var from, done := 6 + 7 * k, Min(6 + 7 * (k + 1), total);
    ChunkFront(data, k, payload, done);
    if done < total {
      assert (payload + rest)[..total - from] == payload + rest[..total - done];
      assert data[from..total] == data[from..done] + data[done..total];
    } else {
      assert (payload + rest)[..total - from] == payload[..total - from];
    }
  }

  lemma ChunkFront(data: seq<byte>, k: nat, payload: seq<byte>, done: nat)
    requires 6 + 7 * k <= done <= Min(6 + 7 * (k + 1), |data|)
    requires |payload| == 7 && payload[..|Chunk(data, k)|] == Chunk(data, k)
    ensures payload[..done - (6 + 7 * k)] == data[6 + 7 * k..done]
  {
    var from := 6 + 7 * k;
    forall i | 0 <= i < done - from ensures payload[i] == data[from + i] {
      assert payload[i] == payload[..|Chunk(data, k)|][i] == Chunk(data, k)[i];
    }
  }

  /** The payloads of the carried frames, from frame `k` on, are the message from there on. */
  lemma {:induction false} GatheredIsMessage(events: seq<Rx>, ids: Ids, tx: uint32, firstSeq: nibble, data: seq<byte>,
                                             total: nat, k: nat)
    requires |data| >= 8 && Carries(events, ids, tx, firstSeq, data)
    requires 8 <= total <= |data| && k <= FramesLeft(total, 6)
    ensures |events| == 1 + FramesLeft(|data|, 6)
    ensures var from, rest := Min(6 + 7 * k, total), Gathered(events[1 + k..], FramesLeft(total, 6) - k);
            total - from <= |rest| && rest[..total - from] == data[from..total]
    decreases FramesLeft(total, 6) - k
  {
    CarriedFrame(events, ids, tx, firstSeq, data, 0);
    if k < FramesLeft(total, 6) {
      GatheredIsMessage(events, ids, tx, firstSeq, data, total, k + 1);
      CarriedFrame(events, ids, tx, firstSeq, data, k);
      ConsecutiveReadsBack(tx, firstSeq, data, k);
      assert events[1 + k..][1..] == events[1 + (k + 1)..];
      ChunkFollows(data, k, events[1 + k].frame.data[1..],
                   Gathered(events[1 + (k + 1)..], FramesLeft(total, 6) - k - 1), total);
    }
  }

  lemma CutTail(data: seq<byte>, rest: seq<byte>, total: nat)
    requires 6 <= total <= |data| && total - 6 <= |rest| && rest[..total - 6] == data[6..total]
    ensures (data[..6] + rest)[..total] == data[..total]
  {
    assert (data[..6] + rest)[..total] == data[..6] + rest[..total - 6];
  }

  /** What the first `total` bytes of the message take of the carried frames. */
  lemma CarriedMessage(events: seq<Rx>, ids: Ids, tx: uint32, firstSeq: nibble, data: seq<byte>, total: nat)
    requires |data| >= 8 && Carries(events, ids, tx, firstSeq, data)
    requires InTime(events[1..], events[0].checkedAt) && 8 <= total <= |data|
    ensures var n := FramesLeft(total, 6);
            && n < |events|
            && (InSequence(STANDARD, events[0].checkedAt % TWO32, events[1..], n, 1) <==> firstSeq == 1)
            && total - 6 <= |Gathered(events[1..], n)|
            && (data[..6] + Gathered(events[1..], n))[..total] == data[..total]
  {
    var n := FramesLeft(total, 6);
    CarriedSequence(events, ids, tx, firstSeq, data, n);
    GatheredIsMessage(events, ids, tx, firstSeq, data, total, 0);
    assert events[1 + 0..] == events[1..];
    CutTail(data, Gathered(events[1..], n), total);
  }

  /** The frames received are exactly those `isotp_send` hands over for `data`, under an identifier the
      receiver takes. */
  ghost predicate Sent(events: seq<Rx>, ids: Ids, c: Codes, tx: uint32, data: seq<byte>) {
    Takes(ids, tx) && events != [] && Frames(events) == MessageFrames(c, tx, data)
  }

  lemma SentFirst(events: seq<Rx>, ids: Ids, c: Codes, tx: uint32, data: seq<byte>)
    requires Sent(events, ids, c, tx, data)
    ensures events[0].frame == if |data| <= 7 then SingleFrame(c, tx, data) else FirstFrame(c, tx, data)
  {
    assert events[0].frame == Frames(events)[0];
  }

  lemma SentCarries(events: seq<Rx>, ids: Ids, tx: uint32, firstSeq: nibble, data: seq<byte>)
    requires |data| >= 8 && Sent(events, ids, STANDARD.(firstSeq := firstSeq), tx, data)
    ensures Carries(events, ids, tx, firstSeq, data)
  {
    SentFirst(events, ids, STANDARD.(firstSeq := firstSeq), tx, data);
    assert Frames(events[1..]) == Frames(events)[1..];
  }

  /** The round trip with the standard's codes. A message of 8 bytes or more whose frames come in
      time, with flow controls going out, is rebuilt exactly when the sender counts from 1, its
      length modulo 4096 is at least 8 and there is room for that; what is returned and written
      is then that much of the message, all of it up to 4095 bytes. */
  lemma StandardTransfer(ids: Ids, room: nat, events: seq<Rx>, flowResult: nat -> SendResult,
                         tx: uint32, firstSeq: nibble, data: seq<byte>)
    requires |data| >= 8 && Sent(events, ids, STANDARD.(firstSeq := firstSeq), tx, data)
    requires InTime(events[1..], events[0].checkedAt) && forall k :: flowResult(k) == 0
    ensures var r, total := Receive(STANDARD, ids, room, events, flowResult), |data| % 0x1000;
            && (r.ret >= 0 <==> firstSeq == 1 && 8 <= total <= room)
            && (r.ret >= 0 ==> r.ret == total && r.written == data[..total])
  {
    SentCarries(events, ids, tx, firstSeq, data);
    if |data| % 0x1000 < 8 {
      TooShortRefused(ids, room, events, flowResult, tx, firstSeq, data);
    } else {
      LongEnoughReceived(ids, room, events, flowResult, tx, firstSeq, data, |data| % 0x1000);
    }
  }

  lemma TooShortRefused(ids: Ids, room: nat, events: seq<Rx>, flowResult: nat -> SendResult,
                        tx: uint32, firstSeq: nibble, data: seq<byte>)
    requires |data| >= 8 && Carries(events, ids, tx, firstSeq, data) && |data| % 0x1000 < 8
    ensures Receive(STANDARD, ids, room, events, flowResult).ret < 0
  {
    CarriedFirst(events, ids, tx, firstSeq, data);
    ReceivesExactly(STANDARD, ids, room, events, flowResult);
  }

  lemma LongEnoughReceived(ids: Ids, room: nat, events: seq<Rx>, flowResult: nat -> SendResult,
                           tx: uint32, firstSeq: nibble, data: seq<byte>, total: nat)
    requires |data| >= 8 && Carries(events, ids, tx, firstSeq, data)
    requires 8 <= total <= |data| && total == |data| % 0x1000
    requires InTime(events[1..], events[0].checkedAt) && forall k :: flowResult(k) == 0
    ensures var r := Receive(STANDARD, ids, room, events, flowResult);
            && (r.ret >= 0 <==> firstSeq == 1 && total <= room)
            && (r.ret >= 0 ==> r.ret == total && r.written == data[..total])
  {
    CarriedFirst(events, ids, tx, firstSeq, data);
    CarriedMessage(events, ids, tx, firstSeq, data, total);
    CarriedReceived(ids, room, events, flowResult, firstSeq, data, total);
  }

  lemma CarriedReceived(ids: Ids, room: nat, events: seq<Rx>, flowResult: nat -> SendResult,
                        firstSeq: nibble, data: seq<byte>, total: nat)
    requires events != [] && IsFirst(STANDARD, ids, events[0].frame) && forall k :: flowResult(k) == 0
    requires 8 <= total == AnnouncedLength(events[0].frame) <= |data| && events[0].frame.data[2..] == data[..6]
    requires var n := FramesLeft(total, 6);
             && n < |events|
             && (InSequence(STANDARD, events[0].checkedAt % TWO32, events[1..], n, 1) <==> firstSeq == 1)
             && total - 6 <= |Gathered(events[1..], n)|
             && (data[..6] + Gathered(events[1..], n))[..total] == data[..total]
    ensures var r := Receive(STANDARD, ids, room, events, flowResult);
            && (r.ret >= 0 <==> firstSeq == 1 && total <= room)
            && (r.ret >= 0 ==> r.ret == total && r.written == data[..total])
  {
    ReceivesExactly(STANDARD, ids, room, events, flowResult);
  }

  /** A message of at most 7 bytes, with any codes whose code for a single frame is 0, as the standard's
      and those as written are: 1 to 7 bytes arrive as they are, given room. */
  lemma SingleTransfer(c: Codes, ids: Ids, room: nat, events: seq<Rx>,
                       flowResult: nat -> SendResult, tx: uint32, data: seq<byte>)
    requires c.single == 0 && |data| <= 7 && Sent(events, ids, c, tx, data)
    ensures Receive(c, ids, room, events, flowResult)
         == if |data| == 0 then Outcome(-EMSGSIZE, [], [])
            else if |data| > room then Outcome(-ENOSPC, [], []) else Outcome(|data|, data, [])
  {
    SentFirst(events, ids, c, tx, data);
    OrAt4(0, |data|);
    var f := SingleFrame(c, tx, data);
    assert f.data[0] == |data| && f.data[1..1 + |data|] == data;
  }

  // ---------------------------------------------------------------- the codes as written

  /** The code 1 disappears into the length's high nibble, which becomes odd. */
  lemma AsWrittenFirstByte(tx: uint32, data: seq<byte>)
    requires |data| >= 8
    ensures FirstFrame(AS_WRITTEN, tx, data).data[0] == (|data| / 0x100 % 0x10) / 2 * 2 + 1
  {
    var h := |data| / 0x100 % 0x10;
    assert Or(1, h) == h / 2 * 2 + 1;
  }

  /** With the codes as written, the first frame of every message of 8 bytes or more is taken
      for a single frame: what is returned is an error or at most 7, never the message's length. */
  lemma AsWrittenTransfer(ids: Ids, room: nat, events: seq<Rx>, flowResult: nat -> SendResult,
                          tx: uint32, data: seq<byte>)
    requires |data| >= 8 && Sent(events, ids, AS_WRITTEN, tx, data)
    ensures var r, n := Receive(AS_WRITTEN, ids, room, events, flowResult), (|data| / 0x100 % 0x10) / 2 * 2 + 1;
            && r.ret == (if n > 7 then -EMSGSIZE else if n > room then -ENOSPC else n)
            && r.written == (if n > 7 || n > room then [] else ([|data| % 0x100] + data[..6])[..n])
            && r.ret <= 7 && r.ret != |data| && r.flows == []
  {
    SentFirst(events, ids, AS_WRITTEN, tx, data);
    AsWrittenFirstByte(tx, data);
    var first := events[0].frame.data[0];
    assert HighNibble(first) == 0 && LowNibble(first) == first;
    assert events[0].frame.data[1..] == [|data| % 0x100] + data[..6];
  }

  /** With the codes as written no frames at all, a standard sender's included, make the receiver
      return more than 7 bytes: it never sees a first frame. */
  lemma AsWrittenReception(ids: Ids, room: nat, events: seq<Rx>, flowResult: nat -> SendResult)
    ensures Receive(AS_WRITTEN, ids, room, events, flowResult).ret <= 7
    ensures Receive(AS_WRITTEN, ids, room, events, flowResult).flows == []
  {}

  // ---------------------------------------------------------------- the sender's pace against the deadline

  /** The longest message the sender's pace leaves time for. */
  const PACED_LENGTH: nat := 720

  /** Consecutive frames come at the sender's separation or slower, each is waited for only
      after the one before it came, and the 32-bit clock does not come round meanwhile. */
  ghost predicate Paced(events: seq<Rx>) {
    && events != [] && events[0].receivedAt >= events[0].checkedAt
    && (forall i | 1 <= i < |events| ::
          events[i - 1].receivedAt <= events[i].checkedAt < events[0].checkedAt + TWO32)
    && (forall i | 2 <= i < |events| :: events[i].receivedAt >= events[i - 1].receivedAt + SEPARATION_MS)
    && (|events| > 1 ==> events[1].receivedAt >= events[0].receivedAt)
  }

  lemma {:induction false} PacedTimes(events: seq<Rx>, i: nat)
    requires Paced(events) && 1 <= i < |events|
    ensures events[i].receivedAt >= events[0].checkedAt + SEPARATION_MS * (i - 1)
    ensures i >= 2 ==> events[i].checkedAt >= events[0].checkedAt + SEPARATION_MS * (i - 2)
  {
    if i >= 2 { PacedTimes(events, i - 1); }
  }

  /** At the sender's separation no reception, of any frames, returns more than 720 bytes. */
  lemma PacedReception(c: Codes, ids: Ids, room: nat, events: seq<Rx>, flowResult: nat -> SendResult)
    requires Paced(events) && IsFirst(c, ids, events[0].frame)
    ensures Receive(c, ids, room, events, flowResult).ret <= PACED_LENGTH
  {
    var total := AnnouncedLength(events[0].frame);
    var n := FramesLeft(total, 6);
    ReceivesExactly(c, ids, room, events, flowResult);
    if Receive(c, ids, room, events, flowResult).ret >= 0 && n >= 2 {
      assert Awaited(c, events[0].checkedAt % TWO32, events[1..][n - 1], 1 + (n - 1));
      assert events[1..][n - 1] == events[n];
      PacedTimes(events, n);
      ElapsedSince(events[0].checkedAt, events[n].checkedAt);
    }
  }

  /** A zero-latency bus and exact sleeps: the first two frames at once, then one every 10 ms. */
  ghost predicate OnSchedule(events: seq<Rx>) {
    && events != [] && events[0].receivedAt == events[0].checkedAt
    && forall i | 1 <= i < |events| ::
         && events[i].receivedAt == events[0].checkedAt + SEPARATION_MS * (i - 1)
         && events[i].checkedAt == events[i - 1].receivedAt
  }

  lemma ScheduleTimes(events: seq<Rx>, i: nat)
    requires OnSchedule(events) && 1 <= i < |events|
    ensures events[i].checkedAt == events[0].checkedAt + (if i == 1 then 0 else SEPARATION_MS * (i - 2))
  {
    assert events[i].checkedAt == events[i - 1].receivedAt;
  }

  lemma ScheduleIsPaced(events: seq<Rx>)
    requires OnSchedule(events) && |events| < 1000
    ensures Paced(events)
  {
    forall i | 1 <= i < |events|
      ensures events[i - 1].receivedAt <= events[i].checkedAt < events[0].checkedAt + TWO32
    {
      ScheduleTimes(events, i);
    }
  }

  lemma ScheduleInTime(events: seq<Rx>)
    requires OnSchedule(events) && |events| <= 103
    ensures InTime(events[1..], events[0].checkedAt)
  {
    var start, rest := events[0].checkedAt, events[1..];
    forall i | 0 <= i < |rest| ensures Elapsed(rest[i].checkedAt % TWO32, start % TWO32) <= TIMEOUT_MS {
      ScheduleTimes(events, i + 1);
      ElapsedSince(start, events[i + 1].checkedAt);
    }
  }

  lemma ScheduledShort(ids: Ids, room: nat, events: seq<Rx>, flowResult: nat -> SendResult,
                       tx: uint32, data: seq<byte>)
    requires 8 <= |data| <= PACED_LENGTH && Sent(events, ids, STANDARD, tx, data)
    requires OnSchedule(events) && forall k :: flowResult(k) == 0
    ensures var r := Receive(STANDARD, ids, room, events, flowResult);
            && (r.ret == |data| <==> |data| <= room)
            && (|data| <= room ==> r.written == data)
  {
    SentCarries(events, ids, tx, 1, data);
    CarriedFrame(events, ids, tx, 1, data, 0);
    assert |events| <= 103 && |data| % 0x1000 == |data| && data[..|data|] == data;
    ScheduleInTime(events);
    StandardTransfer(ids, room, events, flowResult, tx, 1, data);
  }

  lemma ScheduledLong(ids: Ids, room: nat, events: seq<Rx>, flowResult: nat -> SendResult,
                      tx: uint32, data: seq<byte>)
    requires PACED_LENGTH < |data| < 0x1000 && Sent(events, ids, STANDARD, tx, data) && OnSchedule(events)
    ensures Receive(STANDARD, ids, room, events, flowResult).ret <= PACED_LENGTH
  {
    SentCarries(events, ids, tx, 1, data);
    CarriedFrame(events, ids, tx, 1, data, 0);
    CarriedFirst(events, ids, tx, 1, data);
    ScheduleIsPaced(events);
    PacedReception(STANDARD, ids, room, events, flowResult);
  }

  /** From 4096 bytes on the announced length is not the message's. */
  lemma UnannouncedLength(ids: Ids, room: nat, events: seq<Rx>, flowResult: nat -> SendResult,
                          tx: uint32, data: seq<byte>)
    requires |data| >= 0x1000 && Sent(events, ids, STANDARD, tx, data)
    ensures Receive(STANDARD, ids, room, events, flowResult).ret < 0x1000
  {
    SentCarries(events, ids, tx, 1, data);
    CarriedFirst(events, ids, tx, 1, data);
    ReceivesExactly(STANDARD, ids, room, events, flowResult);
  }

  /** The best case: on a zero-latency bus with exact sleeps and the standard's numbering, a message of
      8 bytes or more is received exactly when it has at most 720 bytes and there is room. */
  lemma ScheduledTransfer(ids: Ids, room: nat, events: seq<Rx>, flowResult: nat -> SendResult,
                          tx: uint32, data: seq<byte>)
    requires |data| >= 8 && Sent(events, ids, STANDARD, tx, data)
    requires OnSchedule(events) && forall k :: flowResult(k) == 0
    ensures var r := Receive(STANDARD, ids, room, events, flowResult);
            && (r.ret == |data| <==> |data| <= PACED_LENGTH && |data| <= room)
            && (r.ret == |data| ==> r.written == data)
  {
    if |data| <= PACED_LENGTH {
      ScheduledShort(ids, room, events, flowResult, tx, data);
    } else if |data| < 0x1000 {
      ScheduledLong(ids, room, events, flowResult, tx, data);
    } else {
      UnannouncedLength(ids, room, events, flowResult, tx, data);
    }
  }
}
