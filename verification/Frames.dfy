/** Frames as split.c's handlers see them once the header checks have passed, and the packets they are made from. */
module Frames {
  import opened Bytes
  import opened Packets

  datatype Frame =
    | Data(src: u8, dst: u8, seqNo: u8, len: u16, dCsum: u32, slices: seq<Slice>)
    | Patch(src: u8, dst: u8, seqNo: u8, slices: seq<Slice>)
    | Ackr(src: u8, dst: u8, seqNo: u8)
    | Acka(src: u8, dst: u8, seqNo: u8)
    | Ackp(src: u8, dst: u8, seqNo: u8, missing: seq<u8>)

  /** send_node_t: a message cut into slices, waiting for its acknowledgement. */
  datatype Packet = Packet(src: u8, dst: u8, seqNo: u8, len: u16, dCsum: u32, slices: seq<Slice>)

  function MakePacket(c: Crcs, src: u8, dst: u8, seqNo: u8, msg: seq<u8>): Packet
    requires |msg| <= MAX_MSG_LEN
  {
    Packet(src, dst, seqNo, |msg|, c.c32(msg), Slices(c, msg))
  }

  /** Only the headers of a packet are sent at first. */
  function DataFrame(p: Packet): Frame {
    Data(p.src, p.dst, p.seqNo, p.len, p.dCsum, [])
  }
}
