/** The header compression of compact.c: what goes on the wire in place of the headers, and how they come back. */
module Codec {
  import opened Bytes
  import opened Headers
  import opened Sequences
  import Csum

  // Types of compressed frames: the upper two bits of the first byte.
  const CTL := 0
  const FRAME_TCP := 1
  const FRAME_UDP := 2
  const FRAME_RAW := 3

  // Kinds of control frames: the lower six bits.
  const REQ := 1
  const ACK := 2
  const FLT := 3

  const MYMAC: u8 := 1

  /** A chdr_t: type and information share one byte, the information in the lower bits. */
  function Chdr(t: nat, i: nat, smac: u8, id: u8): (r: seq<u8>)
    requires t < 4 && i < 64
    ensures |r| == 3
  {
    [64 * t + i, smac, id]
  }

  function Type(frame: seq<u8>): nat
    requires frame != []
  {
    frame[0] / 64
  }

  function Info(frame: seq<u8>): nat
    requires frame != []
  {
    frame[0] % 64
  }

  // ----- TCP flags -----

  datatype Flags = Flags(fin: bool, syn: bool, rst: bool, psh: bool, ack: bool, urg: bool, ece: bool, cwr: bool)

  function Bit(b: bool): nat {
    if b then 1 else 0
  }

  predicate Odd(x: nat) {
    x % 2 == 1
  }

  /** The eight bits of the flag byte, lowest first. */
  function FlagsOf(b: u8): Flags {
    var b1 := b / 2;
    var b2 := b1 / 2;
    var b3 := b2 / 2;
    var b4 := b3 / 2;
    var b5 := b4 / 2;
    var b6 := b5 / 2;
    var b7 := b6 / 2;
    Flags(Odd(b), Odd(b1), Odd(b2), Odd(b3), Odd(b4), Odd(b5), Odd(b6), Odd(b7))
  }

  /** `rest` above one more bit. */
  function Above(b: bool, rest: nat): nat {
    Bit(b) + 2 * rest
  }

  function FlagByte(f: Flags): u8 {
    Above(f.fin, Above(f.syn, Above(f.rst, Above(f.psh, Above(f.ack, Above(f.urg, Above(f.ece, Above(f.cwr, 0))))))))
  }

  /** build_cpkt's choice among CTYPE_TCP_URG .. CTYPE_TCP_URGPSH. */
  function TcpCode(f: Flags): (code: nat)
    ensures code < 8
  {
    if f.urg then
      if f.syn then 5 else if f.fin then 6 else if f.psh then 7 else 0
    else
      if f.syn then 1 else if f.fin then 2 else if f.psh then 4 else if f.rst then 3 else 0
  }

  /** The code with CTYPE_TCP_SBIT, CTYPE_TCP_WBIT and, for a segment that acknowledges, CTYPE_TCP_ABIT. */
  function TcpInfo(f: Flags): (i: nat)
    ensures 32 <= i < 64
  {
    TcpCode(f) + 0x20 + 0x10 * Bit(f.ack) + 0x08
  }

  predicate HasSeq(i: nat) { i / 32 % 2 == 1 }
  predicate HasAck(i: nat) { i / 16 % 2 == 1 }
  predicate HasWindow(i: nat) { i / 8 % 2 == 1 }
  predicate Urgent(i: nat) { i % 8 == 0 || i % 8 >= 5 }

  /** The flags that recv_tcp writes over those of the stored header. */
  function RestoredFlags(f: Flags, i: nat): Flags {
    var code := i % 8;
    f.(ack := HasAck(i), urg := Urgent(i),
       syn := code == 1 || code == 5, fin := code == 2 || code == 6, psh := code == 4 || code == 7, rst := code == 3)
  }

  /** struct tcphdr; `doff` stands for the whole byte with the data offset. */
  datatype TcpHdr = TcpHdr(ports: seq<u8>, number: seq<u8>, ackNumber: seq<u8>, doff: u8, flags: Flags,
                           window: seq<u8>, check: seq<u8>, urgent: seq<u8>)

  function TcpOf(t: seq<u8>): TcpHdr
    requires |t| >= 20
  {
    TcpHdr(t[..4], t[4..8], t[8..12], t[12], FlagsOf(t[13]), t[14..16], t[16..18], t[18..20])
  }

  function TcpBytes(h: TcpHdr): seq<u8> {
    h.ports + h.number + h.ackNumber + [h.doff, FlagByte(h.flags)] + h.window + h.check + h.urgent
  }

  predicate TcpSized(h: TcpHdr) {
    |h.ports| == |h.number| == |h.ackNumber| == 4 && |h.window| == |h.check| == |h.urgent| == 2
  }

  // ----- compression -----

  function CompressTcp(fid: u8, seg: seq<u8>): seq<u8>
    requires |seg| >= 20
  {
    var h := TcpOf(seg);
    Chdr(FRAME_TCP, TcpInfo(h.flags), MYMAC, fid) + h.number + (if h.flags.ack then h.ackNumber else []) + h.window
    + (if h.flags.urg then h.urgent else []) + h.check + seg[20..]
  }

  function CompressUdp(fid: u8, seg: seq<u8>): seq<u8>
    requires |seg| >= 8
  {
    Chdr(FRAME_UDP, 0, MYMAC, fid) + seg[6..8] + seg[8..]
  }

  function RawInfo(frag: u16): (i: nat)
    ensures i < 64
  {
    (if MoreFragments(frag) then 0x10 else 0) + if Offset(frag) != 0 then 0x20 else 0
  }

  function CompressRaw(fid: u8, frag: u16, seg: seq<u8>): seq<u8> {
    Chdr(FRAME_RAW, RawInfo(frag), MYMAC, fid) + (if Offset(frag) != 0 then Be16(Offset(frag)) else []) + seg
  }

  /** build_ctl: the request that carries the headers of a new flow. */
  function BuildCtl(fid: u8, h: Hdr): seq<u8>
    requires WellShaped(h)
  {
    Chdr(CTL, REQ, MYMAC, fid) + h.ip + h.t
  }

  /** A request holds the headers that it announces. */
  predicate ReqFits(c: seq<u8>) {
    |c| >= 23 && |c| >= 23 + TransportLength(c[12])
  }

  /** The headers that build_rflow_by_hash takes from a request. */
  function ReqHdr(c: seq<u8>): (h: Hdr)
    requires ReqFits(c)
    ensures WellShaped(h)
  {
    Hdr(c[3..23], c[23..23 + TransportLength(c[12])])
  }

  /** build_ack: the answer to a request. */
  function BuildAck(c: seq<u8>): seq<u8>
    requires |c| >= 3
  {
    Chdr(CTL, ACK, c[1], c[2])
  }

  /** recv_compress takes a frame for an uncompressed IPv4 packet: version, header length and checksum are right. */
  predicate LooksLikeIp(b: seq<u8>) {
    |b| >= 20 && b[0] / 16 == 4 && b[0] % 16 >= 5 && Csum.Csum(b[..20]) == 0
  }

  lemma IpIsLong(c: seq<u8>)
    requires LooksLikeIp(c)
    ensures |c| >= 20
  {
  }

  /** The lengths cover the headers that build_cpkt copies from. */
  predicate LongEnough(k: Key, b: Buffer) {
    20 + (if k.ipid != 0 then 0 else TransportLength(b[9])) <= TotLen(b) <= |b|
  }

  /** And the flow key tells how to compress the packet, as it does not for another protocol with IP id 0. */
  predicate Compressible(k: Key, b: Buffer) {
    LongEnough(k, b) && (k.ipid != 0 || b[9] == TCP || b[9] == UDP)
  }

  function Compress(fid: u8, k: Key, b: Buffer): seq<u8>
    requires Compressible(k, b)
  {
    if k.ipid != 0 then CompressRaw(fid, FragOff(b), Segment(b))
    else if b[9] == TCP then CompressTcp(fid, Segment(b))
    else CompressUdp(fid, Segment(b))
  }

  /** The two bits for the type of a new packet, before anything is stored there. */
  type Stale = t: nat | t < 4

  /** What is sent when nothing tells how to compress: a header whose type was never set. */
  function Bare(t: Stale, fid: u8): seq<u8> {
    Chdr(t, 0, MYMAC, fid)
  }

  function CpktOf(fid: u8, k: Key, b: Buffer, t: Stale): seq<u8>
    requires LongEnough(k, b)
  {
    if Compressible(k, b) then Compress(fid, k, b) else Bare(t, fid)
  }

  /** build_cpkt: the packet grows field by field. A RAW packet is pushed a second time. */
  method BuildCpkt(fid: u8, k: Key, b: Buffer, stale: Stale) returns (data: seq<u8>, pushes: nat)
    requires LongEnough(k, b)
    ensures data == CpktOf(fid, k, b, stale)
    ensures pushes == if k.ipid != 0 then 2 else 1
  {
    var seg := Segment(b);
    pushes := 0;
    if k.ipid != 0 {
      var i := 0;
      var frag := FragOff(b);
      if MoreFragments(frag) {
        i := i + 0x10;
      }
      if Offset(frag) != 0 {
        i := i + 0x20;
      }
      data := Chdr(FRAME_RAW, i, MYMAC, fid);
      if Offset(frag) != 0 {
        data := data + Be16(Offset(frag));
      }
      data := data + seg;
      pushes := pushes + 1;
    } else if b[9] == TCP {
      var h := TcpOf(seg);
      data := Chdr(FRAME_TCP, TcpInfo(h.flags), MYMAC, fid);
      data := data + h.number;
      if h.flags.ack {
        data := data + h.ackNumber;
      }
      data := data + h.window;
      if h.flags.urg {
        data := data + h.urgent;
      }
      data := data + h.check;
      data := data + seg[20..];
    } else if b[9] == UDP {
      data := Chdr(FRAME_UDP, 0, MYMAC, fid) + seg[6..8] + seg[8..];
    } else {
      data := Chdr(stale, 0, MYMAC, fid);
    }
    pushes := pushes + 1;
  }

  // ----- restoring -----

  // Where recv_tcp finds the optional fields of a frame with information i.
  function AckAt(i: nat): nat { if HasSeq(i) then 7 else 3 }
  function WindowAt(i: nat): nat { AckAt(i) + if HasAck(i) then 4 else 0 }
  function UrgAt(i: nat): nat { WindowAt(i) + if HasWindow(i) then 2 else 0 }
  function CheckAt(i: nat): nat { UrgAt(i) + if Urgent(i) then 2 else 0 }

  /** The frame is long enough for the fields it announces: otherwise recv_tcp would copy a negative number of
      bytes. */
  predicate TcpFits(c: seq<u8>) {
    c != [] && |c| >= CheckAt(Info(c)) + 2
  }

  /** The TCP header that recv_tcp builds from the stored one. */
  function RestoredTcp(h: TcpHdr, c: seq<u8>): (r: TcpHdr)
    requires TcpFits(c)
    ensures TcpSized(h) ==> TcpSized(r)
  {
    var i := Info(c);
    TcpHdr(h.ports,
           if HasSeq(i) then c[3..7] else h.number,
           if HasAck(i) then c[AckAt(i)..AckAt(i) + 4] else h.ackNumber,
           h.doff,
           RestoredFlags(h.flags, i),
           if HasWindow(i) then c[WindowAt(i)..WindowAt(i) + 2] else h.window,
           c[CheckAt(i)..CheckAt(i) + 2],
           if Urgent(i) then c[UrgAt(i)..UrgAt(i) + 2] else h.urgent)
  }

  /** The TCP segment that recv_tcp builds from the stored TCP header t. */
  function RestoreTcp(t: seq<u8>, c: seq<u8>): (r: seq<u8>)
    requires |t| == 20 && TcpFits(c)
    ensures |r| == 20 + |c| - CheckAt(Info(c)) - 2
  {
    TcpBytes(RestoredTcp(TcpOf(t), c)) + c[CheckAt(Info(c)) + 2..]
  }

  /** The UDP datagram that recv_udp builds. */
  function RestoreUdp(t: seq<u8>, c: seq<u8>): (r: seq<u8>)
    requires |t| >= 8 && 5 <= |c| < 0x800
    ensures |r| == 3 + |c|
  {
    t[..4] + Be16(|c| + 3) + c[3..5] + c[5..]
  }

  predicate RawFits(c: seq<u8>) {
    c != [] && |c| >= if HasSeq(Info(c)) then 5 else 3
  }

  /** The fragment field that recv_raw builds: the bits of CTYPE_RAW_FBIT and CTYPE_RAW_MFBIT are those of
      CTYPE_TCP_SBIT and CTYPE_TCP_ABIT. */
  function RestoredFrag(c: seq<u8>): u16
    requires RawFits(c)
  {
    (if HasSeq(Info(c)) then Offset(FromBe16(c, 3)) else 0) + if HasAck(Info(c)) then 0x2000 else 0
  }

  function RawPayload(c: seq<u8>): seq<u8>
    requires RawFits(c)
  {
    if HasSeq(Info(c)) then c[5..] else c[3..]
  }

  /** The IP header in front of a restored segment, before and after it is stamped. */
  function UnstampedIp(ip: seq<u8>, len: u16, id: u16, frag: u16): (r: seq<u8>)
    requires |ip| == 20
    ensures |r| == 20 && r[10] == 0 == r[11]
  {
    ip[..2] + Be16(len) + Be16(id) + Be16(frag) + ip[8..10] + [0, 0] + ip[12..]
  }

  function RestoreIp(ip: seq<u8>, len: u16, id: u16, frag: u16): (r: seq<u8>)
    requires |ip| == 20
    ensures |r| == 20
  {
    var h := UnstampedIp(ip, len, id, frag);
    Csum.Stamped(h, 10, Csum.Csum(h))
  }

  function StoredId(h: Hdr): u16
    requires WellShaped(h)
  {
    FromBe16(h.ip, 4)
  }

  function StoredFrag(h: Hdr): u16
    requires WellShaped(h)
  {
    FromBe16(h.ip, 6)
  }

  /** The stored header after recv_tcp or recv_udp: the next IP id. */
  function Advanced(h: Hdr): (r: Hdr)
    requires WellShaped(h)
    ensures WellShaped(r) && SameUpToId(h, r)
  {
    h.(ip := h.ip[..4] + Be16((StoredId(h) + 1) % 0x1_0000) + h.ip[6..])
  }

  /** The decoder of a compressed frame computes no negative length. */
  predicate LengthsFit(c: seq<u8>) {
    && c != [] && |c| < 0x800
    && (Type(c) == FRAME_TCP ==> TcpFits(c))
    && (Type(c) == FRAME_UDP ==> |c| >= 5)
    && (Type(c) == FRAME_RAW ==> RawFits(c))
  }

  /** The transport header that it copies was stored. No decoder asks for the protocol of the flow: recv_tcp copies 20
      bytes and recv_udp 8, which a TCP flow has as well. */
  predicate WasStored(h: Hdr, c: seq<u8>) {
    c != [] && |h.t| >= if Type(c) == FRAME_TCP then 20 else if Type(c) == FRAME_UDP then 8 else 0
  }

  /** What recv_compress relies on when it restores a frame with the help of a stored header. */
  predicate Restorable(h: Hdr, c: seq<u8>) {
    WellShaped(h) && LengthsFit(c) && WasStored(h, c) && Type(c) != CTL
  }

  /** The stored header after a frame. */
  function HdrAfter(h: Hdr, c: seq<u8>): Hdr
    requires Restorable(h, c)
  {
    if Type(c) == FRAME_RAW then h else Advanced(h)
  }

  function RestoredSegment(h: Hdr, c: seq<u8>): (r: seq<u8>)
    requires Restorable(h, c)
    ensures |r| < 0x900
  {
    if Type(c) == FRAME_TCP then RestoreTcp(h.t, c)
    else if Type(c) == FRAME_UDP then RestoreUdp(h.t, c)
    else RawPayload(c)
  }

  /** The packet that the receiver hands on. */
  function Restore(h: Hdr, c: seq<u8>): seq<u8>
    requires Restorable(h, c)
  {
    var seg, g := RestoredSegment(h, c), HdrAfter(h, c);
    RestoreIp(g.ip, 20 + |seg|, StoredId(g), if Type(c) == FRAME_RAW then RestoredFrag(c) else StoredFrag(g)) + seg
  }

  lemma PutFrag(ip: seq<u8>, frag: u16, len: u16)
    requires |ip| == 20
    ensures var r := Overwritten(ip, 6, Be16(frag));
            && FromBe16(r, 4) == FromBe16(ip, 4) && FromBe16(r, 6) == frag
            && RestoreIp(r, len, FromBe16(r, 4), frag) == RestoreIp(ip, len, FromBe16(r, 4), frag)
  {
    hide Csum.Csum, Csum.Stamped;
    var r := Overwritten(ip, 6, Be16(frag));
    assert r[..2] == ip[..2] && r[8..10] == ip[8..10] && r[12..] == ip[12..];
    assert r[6..8] == Be16(frag);
    Be16At(frag, r, 6);
  }

  /** rflow_node_t */
  class Rflow {
    var hdr: Hdr
    var timeout: int

    constructor (hdr: Hdr, timeout: int)
      ensures this.hdr == hdr && this.timeout == timeout
    {
      this.hdr := hdr;
      this.timeout := timeout;
    }

    /** The end of recv_tcp, recv_udp and recv_raw: length and checksum of the new packet. */
    method Finish(ip: seq<u8>, len: u16) returns (r: seq<u8>)
      requires |ip| == 20
      ensures r == RestoreIp(ip, len, FromBe16(ip, 4), FromBe16(ip, 6))
    {
      var h := Overwritten(Overwritten(ip, 2, Be16(len)), 10, [0, 0]);
      assert h == UnstampedIp(ip, len, FromBe16(ip, 4), FromBe16(ip, 6)) by {
        Be16Injective(ip, 4);
        Be16Injective(ip, 6);
      }
      var check := Csum.ComputeCsum(h);
      r := Csum.Stamped(h, 10, check);
    }

    /** recv_tcp */
    method RecvTcp(c: seq<u8>) returns (pkt: seq<u8>)
      requires Restorable(hdr, c) && Type(c) == FRAME_TCP
      modifies this`hdr
      ensures pkt == Restore(old(hdr), c) && hdr == HdrAfter(old(hdr), c)
    {
      hdr := Advanced(hdr);
      var seg := RecvTcpSegment(hdr.t, c);
      var ip := Finish(hdr.ip, 20 + |seg|);
      pkt := ip + seg;
    }

    /** recv_udp */
    method RecvUdp(c: seq<u8>) returns (pkt: seq<u8>)
      requires Restorable(hdr, c) && Type(c) == FRAME_UDP
      modifies this`hdr
      ensures pkt == Restore(old(hdr), c) && hdr == HdrAfter(old(hdr), c)
    {
      hdr := Advanced(hdr);
      var udp := Overwritten(hdr.t[..8], 6, c[3..5]);
      var offset := 5;
      udp := Overwritten(udp, 4, Be16(|c| - offset + 8));
      var seg := udp + c[offset..];
      assert seg == RestoreUdp(hdr.t, c);
      var ip := Finish(hdr.ip, 20 + |seg|);
      pkt := ip + seg;
    }

    /** recv_raw */
    method RecvRaw(c: seq<u8>) returns (pkt: seq<u8>)
      requires Restorable(hdr, c) && Type(c) == FRAME_RAW
      modifies this`hdr
      ensures pkt == Restore(old(hdr), c) && hdr == HdrAfter(old(hdr), c)
    {
      var frag, offset := 0, 3;
      if HasSeq(Info(c)) {
        frag := Offset(FromBe16(c, offset));
        offset := offset + 2;
      }
      if HasAck(Info(c)) {
        frag := frag + 0x2000;
      }
      var ip := Overwritten(hdr.ip, 6, Be16(frag));
      PutFrag(hdr.ip, frag, 20 + |c| - offset);
      ip := Finish(ip, 20 + |c| - offset);
      pkt := ip + c[offset..];
    }
  }

  /** The part of recv_tcp that moves through the frame. */
  method RecvTcpSegment(t: seq<u8>, c: seq<u8>) returns (seg: seq<u8>)
    requires |t| == 20 && TcpFits(c)
    ensures seg == RestoreTcp(t, c)
  {
    hide FlagsOf, FlagByte, TcpBytes, TcpOf;
    var i := Info(c);
    var tcp, offset := TcpOf(t), 3;
    if HasSeq(i) {
      tcp := tcp.(number := c[offset..offset + 4]);
      offset := offset + 4;
    }
    assert offset == AckAt(i);
    if HasAck(i) {
      tcp := tcp.(flags := tcp.flags.(ack := true), ackNumber := c[offset..offset + 4]);
      offset := offset + 4;
    } else {
      tcp := tcp.(flags := tcp.flags.(ack := false));
    }
    assert offset == WindowAt(i);
    if HasWindow(i) {
      tcp := tcp.(window := c[offset..offset + 2]);
      offset := offset + 2;
    }
    assert offset == UrgAt(i);
    if Urgent(i) {
      tcp := tcp.(flags := tcp.flags.(urg := true), urgent := c[offset..offset + 2]);
      offset := offset + 2;
    } else {
      tcp := tcp.(flags := tcp.flags.(urg := false));
    }
    assert offset == CheckAt(i);
    tcp := tcp.(check := c[offset..offset + 2]);
    offset := offset + 2;
    var flags := SetFlags(tcp.flags, i);
    tcp := tcp.(flags := flags);
    assert tcp == RestoredTcp(TcpOf(t), c);
    seg := TcpBytes(tcp) + c[offset..];
  }

  /** The switch of recv_tcp. */
  method SetFlags(f: Flags, i: nat) returns (r: Flags)
    ensures r == RestoredFlags(f, i).(ack := f.ack, urg := f.urg)
  {
    r := f.(syn := false, fin := false, psh := false, rst := false);
    match i % 8 {
      case 1 | 5 => r := r.(syn := true);
      case 2 | 6 => r := r.(fin := true);
      case 4 | 7 => r := r.(psh := true);
      case 3 => r := r.(rst := true);
      case _ =>
    }
  }
}
