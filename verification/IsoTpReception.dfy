/** When `isotp_receive` succeeds, on any frames whatever, and what it then wrote and sent. */
module IsoTpReception {
  import opened Bits
  import opened Can
  import opened IsoTp

  /** The payloads of the first `n` frames, end to end. */
  function Gathered(events: seq<Rx>, n: nat): (r: seq<byte>)
    requires n <= |events|
    ensures |r| == 7 * n
  {
    if n == 0 then [] else events[0].frame.data[1..] + Gathered(events[1..], n - 1)
  }

  /** A frame waited for within a second of `start`, consecutive, and numbered `number` modulo 16. */
  predicate Awaited(c: Codes, start: uint32, e: Rx, number: nat) {
    && Elapsed(e.checkedAt % TWO32, start) <= TIMEOUT_MS
    && HighNibble(e.frame.data[0]) == c.consecutive
    && LowNibble(e.frame.data[0]) == number % 0x10
  }

  /** The first `n` frames are there, each in time, and count up from `number` modulo 16. */
  ghost predicate InSequence(c: Codes, start: uint32, events: seq<Rx>, n: nat, number: nat) {
    n <= |events| && forall k | 0 <= k < n :: Awaited(c, start, events[k], number + k)
  }

  /** The flow controls sent when `n` frames are still to come and `done` have come, `done`
      counting the frame numbered `expected` next: one after each frame whose successor has a
      number divisible by 8, unless it is the last, granting at most 8 of those still to come. */
  function GrantsFrom(c: Codes, tx: uint32, done: nat, n: nat): seq<Grant>
    decreases n
  {
    if n <= 1 then []
    else (if done % BLOCK_SIZE == 6 then [Grant(done + 1, FlowFrame(c, tx, Min(BLOCK_SIZE, n - 1)))] else [])
         + GrantsFrom(c, tx, done + 1, n - 1)
  }

  lemma SequenceTail(c: Codes, start: uint32, events: seq<Rx>, n: nat, number: nat)
    requires 0 < n && InSequence(c, start, events, n, number)
    ensures Awaited(c, start, events[0], number) && InSequence(c, start, events[1..], n - 1, number + 1)
  {
    assert Awaited(c, start, events[0], number + 0);
    forall k | 0 <= k < n - 1 ensures Awaited(c, start, events[1..][k], number + 1 + k) {
      assert Awaited(c, start, events[k + 1], number + (k + 1));
    }
  }

  lemma SequenceCons(c: Codes, start: uint32, events: seq<Rx>, n: nat, number: nat)
    requires 0 < n && events != []
    requires Awaited(c, start, events[0], number) && InSequence(c, start, events[1..], n - 1, number + 1)
    ensures InSequence(c, start, events, n, number)
  {
    forall k | 0 <= k < n ensures Awaited(c, start, events[k], number + k) {
      if k > 0 { assert Awaited(c, start, events[1..][k - 1], number + 1 + (k - 1)); }
    }
  }

  lemma StepInSequence(c: Codes, start: uint32, events: seq<Rx>, n: nat, number: nat)
    requires n > 0 && events != []
    ensures InSequence(c, start, events, n, number)
       <==> Awaited(c, start, events[0], number) && InSequence(c, start, events[1..], n - 1, number + 1)
  {
    if InSequence(c, start, events, n, number) {
      SequenceTail(c, start, events, n, number);
    } else if Awaited(c, start, events[0], number) && InSequence(c, start, events[1..], n - 1, number + 1) {
      SequenceCons(c, start, events, n, number);
    }
  }

  /** The loop has `done` frames and `got` of the `total` bytes. */
  ghost predicate AfterFrames(total: nat, done: nat, got: seq<byte>) {
    |got| == Min(6 + 7 * done, total) && (done > 0 ==> 6 + 7 * (done - 1) < total)
  }

  /** Whether flow controls `from` to `to` are sent. */
  ghost predicate Granted(flowResult: nat -> SendResult, from: nat, to: nat) {
    forall k | from <= k < to :: flowResult(k) == 0
  }

  lemma OneFrame(total: nat, done: nat, got: seq<byte>, f: Frame)
    requires total >= 8 && AfterFrames(total, done, got) && |got| < total
    ensures var now := got + f.data[1..1 + Min(7, total - |got|)];
            && AfterFrames(total, done + 1, now)
            && FramesLeft(total, |now|) == FramesLeft(total, |got|) - 1
            && (|now| < total ==> FramesDone(|now|) == done + 1)
            && (|now| < total <==> FramesLeft(total, |got|) > 1)
  {}

  /** What a successful loop leaves: everything gathered, cut to the length, and the grants. */
  ghost predicate Complete(r: Outcome, total: nat, all: seq<byte>, flows: seq<Grant>) {
    r.ret == total <= |all| && r.written == all[..total] && r.flows == flows
  }

  /** The loop gives up on a frame it does not wait for. */
  lemma Rejected(c: Codes, ids: Ids, start: uint32, total: nat, events: seq<Rx>,
                 flowResult: nat -> SendResult, got: seq<byte>, flows: seq<Grant>,
                 number: nat, expected: nibble)
    requires |got| < total && events != [] && expected == number % 0x10 && !Awaited(c, start, events[0], number)
    ensures Collect(c, ids, start, total, events, flowResult, got, flows, expected).ret < 0
  {}

  lemma AwaitedModulo(c: Codes, start: uint32, e: Rx, number: nat, expected: nibble)
    requires expected == number % 0x10
    ensures Awaited(c, start, e, expected) <==> Awaited(c, start, e, number)
  {
    assert expected % 0x10 == expected;
  }

  /** The loop returns the full length exactly when every missing frame is there, in time and
      in sequence, and every flow control it sends goes out. It has then written the payloads
      in order, cut to that length, and sent the flow controls of `GrantsFrom`. */
  ghost predicate Exact(c: Codes, ids: Ids, start: uint32, total: nat, events: seq<Rx>,
                        flowResult: nat -> SendResult, got: seq<byte>, flows: seq<Grant>,
                        done: nat, expected: nibble)
    requires |got| <= total
  {
    var r, n := Collect(c, ids, start, total, events, flowResult, got, flows, expected), FramesLeft(total, |got|);
    var grants := GrantsFrom(c, ids.tx, done, n);
    && (r.ret >= 0 <==> InSequence(c, start, events, n, done + 1)
                        && Granted(flowResult, |flows|, |flows| + |grants|))
    && (r.ret >= 0 ==> Complete(r, total, got + Gathered(events, n), flows + grants))
  }

  lemma {:induction false} CollectExactly(c: Codes, ids: Ids, start: uint32, total: nat, events: seq<Rx>,
                                          flowResult: nat -> SendResult, got: seq<byte>, flows: seq<Grant>,
                                          done: nat, expected: nibble)
    requires total >= 8 && AfterFrames(total, done, got) && expected == (done + 1) % 0x10
    ensures Exact(c, ids, start, total, events, flowResult, got, flows, done, expected)
    decreases |events|
  {
    if |got| >= total || events == [] {
      NothingToCollect(c, ids, start, total, events, flowResult, got, flows, done, expected);
    } else if !Awaited(c, start, events[0], done + 1) {
      NotCollected(c, ids, start, total, events, flowResult, got, flows, done, expected);
    } else {
      var next := (expected + 1) % 0x10;
      var now := got + events[0].frame.data[1..1 + Min(7, total - |got|)];
      NextNumber(done + 1);
      OneFrame(total, done, got, events[0].frame);
      CollectExactly(c, ids, start, total, events[1..], flowResult, now,
                     flows + GrantAfter(c, ids, total, |now|, next), done + 1, next);
      CollectedOne(c, ids, start, total, events, flowResult, got, flows, done, expected);
    }
  }

  lemma NothingToCollect(c: Codes, ids: Ids, start: uint32, total: nat, events: seq<Rx>,
                         flowResult: nat -> SendResult, got: seq<byte>, flows: seq<Grant>,
                         done: nat, expected: nibble)
    requires AfterFrames(total, done, got) && (|got| >= total || events == [])
    ensures Exact(c, ids, start, total, events, flowResult, got, flows, done, expected)
  {
    var n := FramesLeft(total, |got|);
    if |got| >= total {
      assert got + Gathered(events, 0) == got;
      assert flows + [] == flows;
    } else {
      assert n > 0 && !InSequence(c, start, events, n, done + 1);
    }
  }

  lemma NotCollected(c: Codes, ids: Ids, start: uint32, total: nat, events: seq<Rx>,
                     flowResult: nat -> SendResult, got: seq<byte>, flows: seq<Grant>,
                     done: nat, expected: nibble)
    requires |got| < total && events != [] && expected == (done + 1) % 0x10
    requires !Awaited(c, start, events[0], done + 1)
    ensures Exact(c, ids, start, total, events, flowResult, got, flows, done, expected)
  {
    StepInSequence(c, start, events, FramesLeft(total, |got|), done + 1);
    Rejected(c, ids, start, total, events, flowResult, got, flows, done + 1, expected);
  }

  lemma CollectedOne(c: Codes, ids: Ids, start: uint32, total: nat, events: seq<Rx>,
                     flowResult: nat -> SendResult, got: seq<byte>, flows: seq<Grant>,
                     done: nat, expected: nibble)
    requires total >= 8 && AfterFrames(total, done, got) && |got| < total && events != []
    requires expected == (done + 1) % 0x10 && Awaited(c, start, events[0], done + 1)
    requires var now, next := got + events[0].frame.data[1..1 + Min(7, total - |got|)], (expected + 1) % 0x10;
             Exact(c, ids, start, total, events[1..], flowResult, now,
                   flows + GrantAfter(c, ids, total, |now|, next), done + 1, next)
    ensures Exact(c, ids, start, total, events, flowResult, got, flows, done, expected)
  {
    var n := FramesLeft(total, |got|);
    OneFrame(total, done, got, events[0].frame);
    AwaitedModulo(c, start, events[0], done + 1, expected);
    StepInSequence(c, start, events, n, done + 1);
    NextNumber(done + 1);
    assert expected % 0x10 == expected;
    var now, next := got + events[0].frame.data[1..1 + Min(7, total - |got|)], (expected + 1) % 0x10;
    Turn(c, ids, start, total, events, flowResult, got, flows, expected);
    CollectTurn(c, ids, total, events, flowResult, got, flows, done, next,
                InSequence(c, start, events[1..], n - 1, done + 2),
                Collect(c, ids, start, total, events, flowResult, got, flows, expected),
                Collect(c, ids, start, total, events[1..], flowResult, now,
                        flows + GrantAfter(c, ids, total, |now|, next), next));
  }

  /** The outcome `r` of a turn on an awaited frame, the claim holding of the `tail` of the loop. */
  lemma CollectTurn(c: Codes, ids: Ids, total: nat, events: seq<Rx>, flowResult: nat -> SendResult,
                    got: seq<byte>, flows: seq<Grant>, done: nat, next: nibble, inSequence: bool,
                    r: Outcome, tail: Outcome)
    requires total >= 8 && AfterFrames(total, done, got) && |got| < total && events != []
    requires next == (done + 2) % 0x10 && (inSequence ==> FramesLeft(total, |got|) <= |events|)
    requires var now, n := got + events[0].frame.data[1..1 + Min(7, total - |got|)], FramesLeft(total, |got|);
             var granted := GrantAfter(c, ids, total, |now|, next);
             var later := if n > 0 then GrantsFrom(c, ids.tx, done + 1, n - 1) else [];
             && r == (if granted != [] && flowResult(|flows|) != 0
                      then Outcome(flowResult(|flows|), now, flows + granted) else tail)
             && (tail.ret >= 0 <==> inSequence && Granted(flowResult, |flows + granted|, |flows + granted| + |later|))
             && (tail.ret >= 0 ==>
                   && 0 < n <= |events|
                   && Complete(tail, total, now + Gathered(events[1..], n - 1), flows + granted + later))
    ensures var n := FramesLeft(total, |got|);
            var grants := GrantsFrom(c, ids.tx, done, n);
            && (r.ret >= 0 <==> inSequence && Granted(flowResult, |flows|, |flows| + |grants|))
            && (r.ret >= 0 ==> n <= |events| && Complete(r, total, got + Gathered(events, n), flows + grants))
  {
    var now, n := got + events[0].frame.data[1..1 + Min(7, total - |got|)], FramesLeft(total, |got|);
    var granted := GrantAfter(c, ids, total, |now|, next);
    GrantsSplit(c, ids, total, done, got, events[0].frame, next);
    CollectStep(r, tail, inSequence, total, events, n, flowResult, got, flows, granted,
                GrantsFrom(c, ids.tx, done + 1, n - 1));
  }

  lemma GrantsSplit(c: Codes, ids: Ids, total: nat, done: nat, got: seq<byte>, f: Frame,
                    next: nibble)
    requires total >= 8 && AfterFrames(total, done, got) && |got| < total && next == (done + 2) % 0x10
    ensures var now, n := got + f.data[1..1 + Min(7, total - |got|)], FramesLeft(total, |got|);
            n > 0 && GrantsFrom(c, ids.tx, done, n)
                     == GrantAfter(c, ids, total, |now|, next) + GrantsFrom(c, ids.tx, done + 1, n - 1)
  {
    OneFrame(total, done, got, f);
    NextGrant(done);
  }

  lemma NextGrant(done: nat)
    ensures (done + 2) % 0x10 % BLOCK_SIZE == 0 <==> done % BLOCK_SIZE == 6
  {}

  lemma CompleteWithPayload(r: Outcome, total: nat, got: seq<byte>, payload: seq<byte>, rest: seq<byte>,
                            flows: seq<Grant>, granted: seq<Grant>, later: seq<Grant>)
    requires |payload| == 7 && |got| < total
    requires Complete(r, total, got + payload[..Min(7, total - |got|)] + rest, flows + granted + later)
    ensures Complete(r, total, got + (payload + rest), flows + (granted + later))
  {
    assert flows + granted + later == flows + (granted + later);
    var cut := payload[..Min(7, total - |got|)];
    assert (got + cut + rest)[..total] == (got + (payload + rest))[..total];
  }

  /** The step of `CollectExactly`, over one frame in sequence, given the outcome `tail` of the
      rest of the loop and whether the rest of the frames are `inSequence`. */
  lemma CollectStep(r: Outcome, tail: Outcome, inSequence: bool, total: nat, events: seq<Rx>, n: nat,
                    flowResult: nat -> SendResult, got: seq<byte>,
                    flows: seq<Grant>, granted: seq<Grant>, later: seq<Grant>)
    requires |got| < total && 0 < n && events != [] && |granted| <= 1
    requires var now := got + events[0].frame.data[1..1 + Min(7, total - |got|)];
             && r == (if granted != [] && flowResult(|flows|) != 0
                      then Outcome(flowResult(|flows|), now, flows + granted) else tail)
             && (inSequence ==> n - 1 <= |events| - 1)
             && (tail.ret >= 0 <==> inSequence && Granted(flowResult, |flows + granted|, |flows + granted| + |later|))
             && (tail.ret >= 0 ==> Complete(tail, total, now + Gathered(events[1..], n - 1), flows + granted + later))
    ensures r.ret >= 0 <==> inSequence && Granted(flowResult, |flows|, |flows| + |granted + later|)
    ensures r.ret >= 0 ==> Complete(r, total, got + Gathered(events, n), flows + (granted + later))
  {
    GrantedSplits(flowResult, |flows|, |granted|, |later|);
    if r.ret >= 0 {
      GatheredSteps(r, total, got, events, n, flows, granted, later);
    }
  }

  lemma GatheredSteps(r: Outcome, total: nat, got: seq<byte>, events: seq<Rx>, n: nat,
                      flows: seq<Grant>, granted: seq<Grant>, later: seq<Grant>)
    requires |got| < total && 0 < n && n - 1 <= |events| - 1
    requires var now := got + events[0].frame.data[1..1 + Min(7, total - |got|)];
             Complete(r, total, now + Gathered(events[1..], n - 1), flows + granted + later)
    ensures Complete(r, total, got + Gathered(events, n), flows + (granted + later))
  {
    var payload, m := events[0].frame.data[1..], Min(7, total - |got|);
    assert payload[..m] == events[0].frame.data[1..1 + m];
    CompleteWithPayload(r, total, got, payload, Gathered(events[1..], n - 1), flows, granted, later);
  }

  lemma GrantedSplits(flowResult: nat -> SendResult, from: nat, a: nat, b: nat)
    requires a <= 1
    ensures Granted(flowResult, from, from + a + b)
       <==> (a == 1 ==> flowResult(from) == 0) && Granted(flowResult, from + a, from + a + b)
  {}
}
