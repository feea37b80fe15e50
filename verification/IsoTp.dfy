/** ISO-TP segmentation and reassembly. The frame type codes and the sender's first sequence
    number are parameters: `STANDARD` is section 9.6 of ISO 15765-2, `AS_WRITTEN` the source. */
module IsoTp {
  import opened Bits
  import opened Can

  type nibble = x: int | 0 <= x < 0x10

  datatype Codes = Codes(single: byte, first: byte, consecutive: byte, flow: byte, firstSeq: nibble)

  const STANDARD: Codes := Codes(0x00, 0x10, 0x20, 0x30, 1)
  const AS_WRITTEN: Codes := Codes(0x00, 0x01, 0x02, 0x03, 0)

  const TIMEOUT_MS: nat := 1000
  const BLOCK_SIZE: nat := 8
  const SEPARATION_MS: nat := 10

  const EINVAL: int := 22
  const ENOSPC: int := 28
  const ETIMEDOUT: int := 116
  const EMSGSIZE: int := 122

  datatype Ids = Ids(rx: uint32, tx: uint32)

  /** A type code or-ed with a value of at most four bits. */
  function TypeByte(code: byte, low: nibble): byte {
    Pow2Values();
    OrBound(code, low, 8);
    Or(code, low)
  }

  function HighNibble(b: byte): byte { b - b % 0x10 }

  function LowNibble(b: byte): nibble { b % 0x10 }

  // ---------------------------------------------------------------- sender

  /** Consecutive frames a message needs once `done` of its `total` bytes are across. */
  function FramesLeft(total: nat, done: nat): nat {
    if done >= total then 0 else (total - done + 6) / 7
  }

  /** The bytes of consecutive frame `k`, counting from 0. */
  function Chunk(data: seq<byte>, k: nat): seq<byte>
    requires 6 + 7 * k <= |data|
  {
    data[6 + 7 * k..Min(6 + 7 * (k + 1), |data|)]
  }

  function ConsecutiveFrame(c: Codes, tx: uint32, data: seq<byte>, k: nat): Frame
    requires 6 + 7 * k <= |data|
  {
    RawFrame(tx, 8, [TypeByte(c.consecutive, (c.firstSeq + k) % 0x10)] + Chunk(data, k) + Zeros(7 - |Chunk(data, k)|))
  }

  function FirstFrame(c: Codes, tx: uint32, data: seq<byte>): Frame
    requires |data| >= 8
  {
    RawFrame(tx, 8, [TypeByte(c.first, (|data| / 0x100) % 0x10), |data| % 0x100] + data[..6])
  }

  function SingleFrame(c: Codes, tx: uint32, data: seq<byte>): Frame
    requires |data| <= 7
  {
    ZeroFilled(tx, [TypeByte(c.single, |data|)] + data)
  }

  function ConsecutiveFrames(c: Codes, tx: uint32, data: seq<byte>): (r: seq<Frame>)
    requires |data| >= 8
  {
    seq(FramesLeft(|data|, 6), k requires 0 <= k < FramesLeft(|data|, 6) => ConsecutiveFrame(c, tx, data, k))
  }

  /** Every frame `isotp_send` hands to the CAN device for `data`. */
  function MessageFrames(c: Codes, tx: uint32, data: seq<byte>): seq<Frame> {
    if |data| <= 7 then [SingleFrame(c, tx, data)]
    else [FirstFrame(c, tx, data)] + ConsecutiveFrames(c, tx, data)
  }

  // ---------------------------------------------------------------- receiver

  /** A frame the receiver takes: when it last read the clock before waiting for it, and when it came. */
  datatype Rx = Rx(checkedAt: nat, receivedAt: nat, frame: Frame)

  /** A flow control sent after so many consecutive frames. */
  datatype Grant = Grant(after: nat, frame: Frame)

  /** The returned value, the bytes written from the start of the destination, the flow controls. */
  datatype Outcome = Outcome(ret: int, written: seq<byte>, flows: seq<Grant>)

  function FlowFrame(c: Codes, tx: uint32, blockSize: byte): Frame {
    ZeroFilled(tx, [c.flow, blockSize, SEPARATION_MS])
  }

  /** Consecutive frames received when `done` bytes of an unfinished message are there. */
  function FramesDone(done: nat): nat { done / 7 }

  /** The flow control, if any, sent when `done` bytes are there and frame `next` is awaited. */
  function GrantAfter(c: Codes, ids: Ids, total: nat, done: nat, next: nibble): (r: seq<Grant>)
    ensures |r| <= 1
  {
    if next % BLOCK_SIZE == 0 && done < total
    then [Grant(FramesDone(done), FlowFrame(c, ids.tx, Min(BLOCK_SIZE, FramesLeft(total, done))))] else []
  }

  /** The loop over consecutive frames, until `total` bytes are there. `flowResult(k)` is the
      result of sending flow control `k`; no more frames means the wait times out. */
  function Collect(c: Codes, ids: Ids, start: uint32, total: nat, events: seq<Rx>, flowResult: nat -> SendResult,
                   got: seq<byte>, flows: seq<Grant>, expected: nibble): Outcome
    decreases |events|
  {
    if |got| >= total then Outcome(total, got, flows)
    else if events == [] || Elapsed(events[0].checkedAt % TWO32, start) > TIMEOUT_MS then
      Outcome(-ETIMEDOUT, got, flows)
    else
      var f := events[0].frame;
      if HighNibble(f.data[0]) != c.consecutive || LowNibble(f.data[0]) != expected then Outcome(-EINVAL, got, flows)
      else
        var now := got + f.data[1..1 + Min(7, total - |got|)];
        var next := (expected + 1) % 0x10;
        var granted := GrantAfter(c, ids, total, |now|, next);
        if granted != [] && flowResult(|flows|) != 0 then Outcome(flowResult(|flows|), now, flows + granted)
        else Collect(c, ids, start, total, events[1..], flowResult, now, flows + granted, next)
  }

  /** One turn of the loop on a frame it waits for. */
  lemma Turn(c: Codes, ids: Ids, start: uint32, total: nat, events: seq<Rx>,
             flowResult: nat -> SendResult, got: seq<byte>, flows: seq<Grant>, expected: nibble)
    requires |got| < total && events != []
    requires Elapsed(events[0].checkedAt % TWO32, start) <= TIMEOUT_MS
    requires HighNibble(events[0].frame.data[0]) == c.consecutive && LowNibble(events[0].frame.data[0]) == expected
    ensures var now, next := got + events[0].frame.data[1..1 + Min(7, total - |got|)], (expected + 1) % 0x10;
            var granted := GrantAfter(c, ids, total, |now|, next);
            Collect(c, ids, start, total, events, flowResult, got, flows, expected)
            == if granted != [] && flowResult(|flows|) != 0 then Outcome(flowResult(|flows|), now, flows + granted)
               else Collect(c, ids, start, total, events[1..], flowResult, now, flows + granted, next)
  {}

  function AnnouncedLength(f: Frame): nat {
    LowNibble(f.data[0]) * 0x100 + f.data[1]
  }

  /** `isotp_receive` into a destination with room for `room` bytes. */
  function Receive(c: Codes, ids: Ids, room: nat, events: seq<Rx>, flowResult: nat -> SendResult): Outcome {
    if events == [] then Outcome(-ETIMEDOUT, [], [])
    else
      var f := events[0].frame;
      if And(f.id, ids.rx) != ids.rx then Outcome(-EINVAL, [], [])
      else if HighNibble(f.data[0]) == c.single then
        var n := LowNibble(f.data[0]);
        if n == 0 || n > 7 then Outcome(-EMSGSIZE, [], [])
        else if n > room then Outcome(-ENOSPC, [], [])
        else Outcome(n, f.data[1..1 + n], [])
      else if HighNibble(f.data[0]) == c.first then
        var total := AnnouncedLength(f);
        if total > room || total < 8 then Outcome(-EMSGSIZE, [], [])
        else
          var flows := [Grant(0, FlowFrame(c, ids.tx, BLOCK_SIZE))];
          if flowResult(0) != 0 then Outcome(flowResult(0), f.data[2..], flows)
          else Collect(c, ids, events[0].checkedAt % TWO32, total, events[1..], flowResult, f.data[2..], flows, 1)
      else Outcome(-EINVAL, [], [])
  }

  // ---------------------------------------------------------------- as the firmware does it

  lemma NextNumber(number: nat)
    ensures (number % 0x10 + 1) % 0x10 == (number + 1) % 0x10
  {}

  /** `struct isotp_tx_ctx`: the next sequence number and what is still to be sent. */
  class TxContext {
    const data: seq<byte>
    var seqId: nibble
    var offset: nat
    var remaining: nat

    constructor (data: seq<byte>, firstSeq: nibble)
      requires |data| >= 8
      ensures this.data == data && At(firstSeq, 0)
    {
      this.data, seqId, offset, remaining := data, firstSeq, 6, |data| - 6;
    }

    /** The first frame and `k` consecutive frames are out. */
    ghost predicate At(firstSeq: nibble, k: nat)
      reads this
    {
      && |data| >= 8 && k <= FramesLeft(|data|, 6)
      && seqId == (firstSeq + k) % 0x10
      && offset == Min(6 + 7 * k, |data|) && remaining == |data| - offset
    }

    /** `isotp_send_consecutive` sends the next frame of the message. */
    method SendConsecutive(c: Codes, tx: uint32, ghost k: nat) returns (frame: Frame)
      requires At(c.firstSeq, k) && remaining > 0
      modifies this
      ensures At(c.firstSeq, k + 1) && frame == ConsecutiveFrame(c, tx, data, k)
    {
      NextNumber(c.firstSeq + k);
      var len := Min(7, remaining);
      var chunk := data[offset..offset + len];
      assert chunk == Chunk(data, k);
      frame := RawFrame(tx, 8, [TypeByte(c.consecutive, seqId)] + chunk + Zeros(7 - len));
      offset, remaining := offset + len, remaining - len;
      seqId := ((seqId as int) + 1) % 0x10;
    }
  }

  /** `isotp_send`. Only a single frame's send result is reported. */
  method Send(c: Codes, ids: Ids, data: seq<byte>, sendResult: nat -> SendResult)
    returns (ret: SendResult, tried: seq<Frame>)
    ensures tried == MessageFrames(c, ids.tx, data)
    ensures ret == if |data| <= 7 then sendResult(0) else 0
  {
    if |data| <= 7 {
      return sendResult(0), [SingleFrame(c, ids.tx, data)];
    }
    var context := new TxContext(data, c.firstSeq);
    ghost var k := 0;
    var consecutive := [];
    while context.remaining > 0
      invariant context.data == data && context.At(c.firstSeq, k) && fresh(context)
      invariant consecutive == ConsecutiveFrames(c, ids.tx, data)[..k]
      decreases context.remaining
    {
      var frame := context.SendConsecutive(c, ids.tx, k);
      consecutive := consecutive + [frame];
      k := k + 1;
    }
    tried := [FirstFrame(c, ids.tx, data)] + consecutive;
    ret := 0;
  }

  /** `isotp_receive`, writing `dest` in place and nothing beyond what it reports. */
  method ReceiveInto(c: Codes, ids: Ids, dest: array<byte>, room: nat, events: seq<Rx>, flowResult: nat -> SendResult)
    returns (ret: int, flows: seq<Grant>)
    requires room <= dest.Length
    modifies dest
    ensures var outcome := Receive(c, ids, room, events, flowResult);
            && ret == outcome.ret && flows == outcome.flows
            && |outcome.written| <= room
            && dest[..] == outcome.written + old(dest[..])[|outcome.written|..]
  {
    flows := [];
    if events == [] {
      return -ETIMEDOUT, [];
    }
    var frame := events[0].frame;
    if And(frame.id, ids.rx) != ids.rx {
      return -EINVAL, [];
    }
    if HighNibble(frame.data[0]) == c.single {
      var n := LowNibble(frame.data[0]);
      if n == 0 || n > 7 {
        return -EMSGSIZE, [];
      }
      if n > room {
        return -ENOSPC, [];
      }
      forall i | 0 <= i < n { dest[i] := frame.data[1 + i]; }
      return n, [];
    }
    if HighNibble(frame.data[0]) == c.first {
      var total := AnnouncedLength(frame);
      if total > room || total < 8 {
        return -EMSGSIZE, [];
      }
      forall i | 0 <= i < 6 { dest[i] := frame.data[2 + i]; }
      assert dest[..] == frame.data[2..] + old(dest[..])[6..];
      flows := [Grant(0, FlowFrame(c, ids.tx, BLOCK_SIZE))];
      ret := flowResult(0);
      if ret != 0 {
        return;
      }
      ghost var mid := dest[..];
      ret, flows := CollectInto(c, ids, events[0].checkedAt % TWO32, total, events[1..], flowResult, dest, flows);
      assert forall k | 6 <= k <= dest.Length :: mid[k..] == old(dest[..])[k..];
      return;
    }
    return -EINVAL, [];
  }

  /** The loop of `isotp_receive` over consecutive frames, the first six bytes being there. */
  method CollectInto(c: Codes, ids: Ids, start: uint32, total: nat, events: seq<Rx>, flowResult: nat -> SendResult,
                     dest: array<byte>, granted: seq<Grant>)
    returns (ret: int, flows: seq<Grant>)
    requires 8 <= total <= dest.Length
    modifies dest
    ensures var outcome := Collect(c, ids, start, total, events, flowResult, old(dest[..6]), granted, 1);
            && ret == outcome.ret && flows == outcome.flows
            && 6 <= |outcome.written| <= total
            && dest[..] == outcome.written + old(dest[..])[|outcome.written|..]
  {
    flows := granted;
    ghost var orig, got := dest[..], dest[..6];
    ghost var outcome := Collect(c, ids, start, total, events, flowResult, got, granted, 1);
    assert events[0..] == events;
    var done, expectedSeq, i: nat := 6, 1, 0;
    while done < total
      invariant 6 <= done == |got| <= total && 0 <= expectedSeq < 0x10 && i <= |events|
      invariant dest[..] == got + orig[done..]
      invariant Collect(c, ids, start, total, events[i..], flowResult, got, flows, expectedSeq) == outcome
      decreases |events| - i
    {
      if i == |events| || Elapsed(events[i].checkedAt % TWO32, start) > TIMEOUT_MS {
        return -ETIMEDOUT, flows;
      }
      var frame := events[i].frame;
      if HighNibble(frame.data[0]) != c.consecutive {
        return -EINVAL, flows;
      }
      if LowNibble(frame.data[0]) != expectedSeq {
        return -EINVAL, flows;
      }
      var n := Min(7, total - done);
      Turn(c, ids, start, total, events[i..], flowResult, got, flows, expectedSeq);
      CopyPayload(dest, done, frame, n);
      assert dest[..] == got + frame.data[1..1 + n] + orig[done + n..];
      got := got + frame.data[1..1 + n];
      assert events[i..][1..] == events[i + 1..];
      done, expectedSeq, i := done + n, (expectedSeq + 1) % 0x10, i + 1;
      if expectedSeq % BLOCK_SIZE == 0 && done < total {
        ret := flowResult(|flows|);
        flows := flows + [Grant(FramesDone(done), FlowFrame(c, ids.tx, Min(BLOCK_SIZE, FramesLeft(total, done))))];
        if ret != 0 {
          return;
        }
      } else {
        assert flows + [] == flows;
      }
    }
    ret := total;
  }

  /** `memcpy` of the first `n` payload bytes. */
  method CopyPayload(dest: array<byte>, offset: nat, frame: Frame, n: nat)
    requires n <= 7 && offset + n <= dest.Length
    modifies dest
    ensures dest[..] == old(dest[..offset]) + frame.data[1..1 + n] + old(dest[offset + n..])
  {
    forall k | 0 <= k < n { dest[offset + k] := frame.data[1 + k]; }
  }
}
