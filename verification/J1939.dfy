/** The J1939 transport protocol as functions: what one node sends for a message, and what
    one received frame does to the receiving session. */
module J1939 {
  import opened Bits
  import opened Can

  const PGN_TP_CM: uint32 := 0xEC00
  const PGN_TP_DT: uint32 := 0xEB00
  const TP_CM_RTS: byte := 0x10
  const TP_CM_CTS: byte := 0x11
  const TP_CM_END_OF_MSG_ACK: byte := 0x13
  const TP_CM_ABORT: byte := 0xFF
  const PRIORITY_MEDIUM: byte := 3

  const TP_BUFFER_SIZE: nat := 1785
  const TP_MAX_PACKETS: nat := 255
  const TP_TIMEOUT_MS: nat := 750
  const TP_SPACING_MS: nat := 50
  const MAX_PGN_HANDLERS: nat := 32

  // ---------------------------------------------------------------- identifiers

  /** CAN identifier: priority, parameter group number, source address. */
  function BuildId(pgn: uint32, priority: byte, source: byte): (id: uint32) {
    var p := (priority * 0x400_0000) % TWO32;
    var g := (pgn * 0x100) % TWO32;
    Pow2Values();
    OrBound(p, g, 32);
    OrBound(Or(p, g), source, 32);
    Or(Or(p, g), source)
  }

  /** The parameter group number a receiver reads out of an identifier. */
  function PgnOfId(id: uint32): uint32 {
    (id / 0x100) % 0x2_0000
  }

  function PgnByte(pgn: uint32, k: nat): byte
    requires k < 3
  {
    (match k case 0 => pgn case 1 => pgn / 0x100 case _ => pgn / 0x1_0000) % 0x100
  }

  function LittleEndian(low: byte, high: byte): uint16 {
    low + 0x100 * high
  }

  // ---------------------------------------------------------------- frames

  /** `j1939_send_pgn`: one frame, zero-filled past `data`. */
  function PgnFrame(source: byte, pgn: uint32, data: seq<byte>): Frame
    requires |data| <= 8
  {
    ZeroFilled(BuildId(pgn, PRIORITY_MEDIUM, source), data)
  }

  function AbortFrame(source: byte, reason: byte): Frame {
    PgnFrame(source, PGN_TP_CM, [TP_CM_ABORT, reason, 0xFF, 0xFF, 0, 0, 0, 0])
  }

  function CtsFrame(source: byte, count: byte, pgn: uint32): Frame {
    PgnFrame(source, PGN_TP_CM,
             [TP_CM_CTS, count, 1, 0xFF, 0xFF, PgnByte(pgn, 0), PgnByte(pgn, 1), PgnByte(pgn, 2)])
  }

  function AckFrame(source: byte, size: uint16, count: byte, pgn: uint32): Frame {
    PgnFrame(source, PGN_TP_CM,
             [TP_CM_END_OF_MSG_ACK, size % 0x100, size / 0x100, count, 0xFF,
              PgnByte(pgn, 0), PgnByte(pgn, 1), PgnByte(pgn, 2)])
  }

  // ---------------------------------------------------------------- sender

  /** The packet count the sender announces: an 8-bit value, so it wraps. */
  function PacketCount(len: uint16): byte {
    ((len + 6) / 7) % 0x100
  }

  function RtsFrame(source: byte, pgn: uint32, len: uint16): Frame {
    PgnFrame(source, PGN_TP_CM,
             [TP_CM_RTS, len % 0x100, len / 0x100, PacketCount(len), 0xFF,
              PgnByte(pgn, 0), PgnByte(pgn, 1), PgnByte(pgn, 2)])
  }

  /** What the uninitialised bytes of a local packet happen to hold: packet, position. */
  type Filler = (nat, nat) -> byte

  /** Data packet `i`, counting from 0: its number, up to seven payload bytes, filler. */
  function DataPacket(data: seq<byte>, i: nat, filler: Filler): (packet: seq<byte>)
    requires 7 * i < |data| && i < 0xFF
    ensures |packet| == 8
  {
    var n := Min(7, |data| - 7 * i);
    [i + 1] + data[7 * i..7 * i + n] + seq(7 - n, k requires 0 <= k => filler(i, k))
  }

  function DtFrame(source: byte, data: seq<byte>, i: nat, filler: Filler): Frame
    requires 7 * i < |data| && i < 0xFF
  {
    PgnFrame(source, PGN_TP_DT, DataPacket(data, i, filler))
  }

  /** The data frames `j1939_send_tp_data` sends after its RTS. */
  function DtFrames(source: byte, data: seq<byte>, filler: Filler): (fs: seq<Frame>)
    requires |data| < 0x1_0000
    ensures |fs| == PacketCount(|data|)
  {
    seq(PacketCount(|data|), i requires 0 <= i < PacketCount(|data|) => DtFrame(source, data, i, filler))
  }

  /** Every frame of one message, in order. */
  function MessageFrames(source: byte, pgn: uint32, data: seq<byte>, filler: Filler): seq<Frame>
    requires |data| < 0x1_0000
  {
    if |data| <= 8 then [PgnFrame(source, pgn, data)]
    else [RtsFrame(source, pgn, |data|)] + DtFrames(source, data, filler)
  }

  // ---------------------------------------------------------------- receiver

  datatype Handler = Handler(pgn: uint32, callback: nat)

  /** What does not change while frames arrive: the node's address and its handler table. */
  datatype Node = Node(source: byte, handlers: seq<Handler>)

  datatype Call = Call(callback: nat, data: seq<byte>)

  /** The first handler registered for `pgn`, if any, is called with `data`. */
  function Handed(handlers: seq<Handler>, pgn: uint32, data: seq<byte>): seq<Call> {
    if handlers == [] then []
    else if handlers[0].pgn == pgn then [Call(handlers[0].callback, data)]
    else Handed(handlers[1..], pgn, data)
  }

  /** The receiving session. `history` records the payloads accepted since it was opened;
      nothing the protocol does depends on it. */
  datatype Session = Session(open: bool, pgn: uint32, size: uint16, count: byte, next: byte, start: uint32,
                             buffer: seq<byte>, history: seq<seq<byte>>)

  /** One received frame: the next session, the frames sent back, the reassembled messages
      handed over, and the single frames handed over. */
  datatype Step = Step(session: Session, replies: seq<Frame>, delivered: seq<Call>, dispatched: seq<Call>)

  predicate SizeMatches(size: uint16, count: byte) {
    !(size > TP_BUFFER_SIZE || size == 0 || count == 0 || count > TP_MAX_PACKETS
      || size != (count - 1) * 7 + (if size % 7 != 0 then size % 7 else 7))
  }

  function RtsSize(f: Frame): uint16 {
    LittleEndian(f.data[1], f.data[2])
  }

  function RtsPgn(f: Frame): uint32 {
    (f.data[5] as int) + 0x100 * (f.data[6] as int) + 0x1_0000 * (f.data[7] as int)
  }

  /** The session's buffer is the node's 1785-byte buffer, and its size was checked against it. */
  predicate Valid(s: Session) {
    |s.buffer| == TP_BUFFER_SIZE && s.size <= TP_BUFFER_SIZE
  }

  function HandleRts(node: Node, s: Session, now: uint32, f: Frame): Step {
    if s.open then Step(s, [AbortFrame(node.source, 1)], [], [])
    else if !SizeMatches(RtsSize(f), f.data[3]) then Step(s, [AbortFrame(node.source, 2)], [], [])
    else
      Step(Session(true, RtsPgn(f), RtsSize(f), f.data[3], 1, now, s.buffer, []),
           [CtsFrame(node.source, f.data[3], RtsPgn(f))], [], [])
  }

  function AbortSession(node: Node, s: Session, reason: byte): Step {
    Step(s.(open := false), [AbortFrame(node.source, reason)], [], [])
  }

  /** Where packet `seqno` belongs, as the 16-bit offset the code computes. */
  function PacketOffset(seqno: byte): uint16 {
    ((seqno - 1) * 7) % 0x1_0000
  }

  /** How many bytes the code takes for packet `seqno`, as the 8-bit value it computes. */
  function PacketLength(size: uint16, seqno: byte): byte {
    Min(7, size - PacketOffset(seqno)) % 0x100
  }

  /** The session with packet `next` stored and counted. */
  function AfterPacket(s: Session, f: Frame): Session
    requires Valid(s) && PacketOffset(s.next) + PacketLength(s.size, s.next) <= s.size
  {
    s.(next := (s.next + 1) % 0x100,
       buffer := Overwritten(s.buffer, PacketOffset(s.next), f.data[1..1 + PacketLength(s.size, s.next)]),
       history := s.history + [f.data[1..]])
  }

  function HandleDt(node: Node, s: Session, now: uint32, f: Frame): Step
    requires Valid(s)
  {
    var end := PacketOffset(f.data[0]) + PacketLength(s.size, f.data[0]);
    if !s.open then Step(s, [], [], [])
    else if Elapsed(now, s.start) > TP_TIMEOUT_MS then AbortSession(node, s, 3)
    else if f.data[0] != s.next then AbortSession(node, s, 4)
    else if end > s.size then AbortSession(node, s, 5)
    else
      var t := AfterPacket(s, f);
      if t.next <= t.count then Step(t, [], [], [])
      else if s.size != end then AbortSession(node, t, 6)
      else
        Step(t.(open := false), [AckFrame(node.source, s.size, s.count, s.pgn)],
             Handed(node.handlers, s.pgn, t.buffer[..s.size]), [])
  }

  /** `j1939_process_message` on one frame at clock reading `now`. */
  function Process(node: Node, s: Session, now: uint32, f: Frame): (r: Step)
    requires Valid(s)
    ensures Valid(r.session)
  {
    if PgnOfId(f.id) == PGN_TP_CM then
      if f.data[0] == TP_CM_RTS then HandleRts(node, s, now, f)
      else if f.data[0] == TP_CM_END_OF_MSG_ACK || f.data[0] == TP_CM_ABORT then
        Step(s.(open := false), [], [], [])
      else Step(s, [], [], [])
    else if PgnOfId(f.id) == PGN_TP_DT then HandleDt(node, s, now, f)
    else Step(s, [], [], Handed(node.handlers, PgnOfId(f.id), f.data[..f.dlc]))
  }

  /** A frame taken off the bus `at` so many milliseconds since boot. */
  datatype Event = Event(at: nat, frame: Frame)

  /** A whole run: the session it ends in and everything it sent and handed over. */
  function Run(node: Node, s: Session, es: seq<Event>): (r: Step)
    requires Valid(s)
    ensures Valid(r.session)
  {
    if es == [] then Step(s, [], [], [])
    else
      var last := es[|es| - 1];
      var before := Run(node, s, es[..|es| - 1]);
      var step := Process(node, before.session, last.at % TWO32, last.frame);
      Step(step.session, before.replies + step.replies, before.delivered + step.delivered,
           before.dispatched + step.dispatched)
  }
}
