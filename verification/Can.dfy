/** Classic CAN frames: up to eight data bytes, the unused ones present but meaningless. */
module Can {
  import opened Bits

  datatype RawFrame = RawFrame(id: uint32, dlc: nat, data: seq<byte>)

  type Frame = f: RawFrame | |f.data| == 8 && f.dlc <= 8
    witness RawFrame(0, 0, [0, 0, 0, 0, 0, 0, 0, 0])

  /** What `can_send` returns: 0 or a negative error. */
  type SendResult = r: int | r <= 0

  function Zeros(n: nat): seq<byte> {
    seq(n, _ => 0)
  }

  /** A frame whose C structure was zero-initialised before `data` was copied in. */
  function ZeroFilled(id: uint32, data: seq<byte>): Frame
    requires |data| <= 8
  {
    RawFrame(id, |data|, data + Zeros(8 - |data|))
  }
}
