/** Layout of split.c's frames: an 8-byte frame header, a 10-byte message header and 36-byte slices. */
module Packets {
  import opened Bytes

  const LINK_MTU := 1000
  const SLICE_DATA_LEN := 32
  const SLICE_LEN := 36
  const FRM_HDR_LEN := 8
  const MSG_HDR_LEN := 10
  const FRM_MSG_HDR_LEN := FRM_HDR_LEN + MSG_HDR_LEN
  const LINK_DATA_MAX := LINK_MTU - FRM_MSG_HDR_LEN
  const MAX_SLICE_NUM := LINK_DATA_MAX / SLICE_LEN
  const MAX_MSG_LEN := SLICE_DATA_LEN * MAX_SLICE_NUM
  const IDLE_TIMEOUT := 10 * 1000
  const SLICE_SEPERATOR: u8 := 0x7e

  const FRAME_TYPE_DATA: u8 := 1
  const FRAME_TYPE_ACKA: u8 := 2
  const FRAME_TYPE_ACKR: u8 := 3
  const FRAME_TYPE_ACKP: u8 := 4
  const FRAME_TYPE_PATCH: u8 := 5

  /** The three checksums, as functions about which the protocol assumes nothing. */
  datatype Crcs = Crcs(c8: seq<u8> -> u8, c16: seq<u8> -> u16, c32: seq<u8> -> u32)

  type SliceData = s: seq<u8> | |s| == SLICE_DATA_LEN witness seq(SLICE_DATA_LEN, _ => 0)

  datatype Slice = Slice(sep: u8, seqNo: u8, data: SliceData, csum: u16)

  function SliceBytes(s: Slice): (r: seq<u8>)
    ensures |r| == SLICE_LEN
  {
    [s.sep, s.seqNo] + s.data + Le16(s.csum)
  }

  function Sealed(c: Crcs, s: Slice): Slice {
    s.(csum := c.c16(SliceBytes(s.(csum := 0xffff))))
  }

  /** The test at the head of cp_slice_to_rse. */
  predicate Intact(c: Crcs, s: Slice) {
    s == Sealed(c, s)
  }

  function SlicesBytes(slices: seq<Slice>): (r: seq<u8>)
    ensures |r| == SLICE_LEN * |slices|
  {
    if slices == [] then [] else SliceBytes(slices[0]) + SlicesBytes(slices[1..])
  }

  /** The length of a frame with n slices. */
  function FrameLen(n: nat): nat {
    FRM_MSG_HDR_LEN + SLICE_LEN * n
  }

  function Padded(chunk: seq<u8>): SliceData
    requires |chunk| <= SLICE_DATA_LEN
  {
    chunk + seq(SLICE_DATA_LEN - |chunk|, _ => 0)
  }

  /** fill_slice_k. */
  function MakeSlice(c: Crcs, k: u8, chunk: seq<u8>): Slice
    requires |chunk| <= SLICE_DATA_LEN
  {
    Sealed(c, Slice(SLICE_SEPERATOR, k, Padded(chunk), 0xffff))
  }

  // ----- messages as 32-byte chunks -----

  /** ceil(len / 32). */
  function SliceCount(len: nat): nat {
    (len + SLICE_DATA_LEN - 1) / SLICE_DATA_LEN
  }

  function Chunk(msg: seq<u8>, k: nat): (r: seq<u8>)
    requires k < SliceCount(|msg|)
    ensures 0 < |r| <= SLICE_DATA_LEN
  {
    var lo := SLICE_DATA_LEN * k;
    msg[lo..if lo + SLICE_DATA_LEN <= |msg| then lo + SLICE_DATA_LEN else |msg|]
  }

  /** The slices of a message that fits one packet. */
  function Slices(c: Crcs, msg: seq<u8>): (r: seq<Slice>)
    requires |msg| <= MAX_MSG_LEN
    ensures |r| == SliceCount(|msg|) <= MAX_SLICE_NUM
  {
    seq(SliceCount(|msg|), k requires 0 <= k < SliceCount(|msg|) => MakeSlice(c, k, Chunk(msg, k)))
  }

  /** Cutting a message at a chunk boundary keeps the slices before the cut. */
  lemma SlicesOfPrefix(c: Crcs, msg: seq<u8>, n: nat)
    requires |msg| <= MAX_MSG_LEN && n <= SliceCount(|msg|) && SLICE_DATA_LEN * n <= |msg|
    ensures Slices(c, msg[..SLICE_DATA_LEN * n]) == Slices(c, msg)[..n]
  {
    var cut := msg[..SLICE_DATA_LEN * n];
    assert SliceCount(|cut|) == n;
    forall k | 0 <= k < n ensures Chunk(cut, k) == Chunk(msg, k) {
    }
  }

  // ----- headers -----

  function FrmHdrRaw(src: u8, dst: u8, typ: u8, reserved: u8, len: u16, csum: u16): (r: seq<u8>)
    ensures |r| == FRM_HDR_LEN
  {
    [src, dst, typ, reserved] + Le16(len) + Le16(csum)
  }

  function FrmHdr(c: Crcs, src: u8, dst: u8, typ: u8, reserved: u8, len: u16): (r: seq<u8>)
    ensures |r| == FRM_HDR_LEN
  {
    FrmHdrRaw(src, dst, typ, reserved, len, c.c8(FrmHdrRaw(src, dst, typ, reserved, len, 0xff)))
  }

  function MsgHdrRaw(dCsum: u32, len: u16, len2: u16, seqNo: u8, csum: u8): (r: seq<u8>)
    ensures |r| == MSG_HDR_LEN
  {
    Le32(dCsum) + Le16(len) + Le16(len2) + [seqNo, csum]
  }

  /** The message header, whose checksum also covers `tail`. */
  function MsgHdr(c: Crcs, dCsum: u32, len: u16, seqNo: u8, tail: seq<u8>): (r: seq<u8>)
    ensures |r| == MSG_HDR_LEN
  {
    MsgHdrRaw(dCsum, len, len, seqNo, c.c8(MsgHdrRaw(dCsum, len, len, seqNo, 0xff) + tail))
  }
}
