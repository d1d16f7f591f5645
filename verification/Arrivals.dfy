/** What a compressed packet looks like when it arrives, byte by byte and without the flow tables on its way. */
module Arrivals {
  import opened Bytes
  import opened Headers
  import opened Codec
  import opened CodecTheorems
  import opened Flows
  import opened Handshake

  /** A packet with ports that can be told, of which one is not 0. */
  predicate Ported(p: Buffer, protocol: u8) {
    p[9] == protocol && !IsFragment(p) && p[20..24] != [0, 0, 0, 0]
  }

  /** FIN, SYN, RST, PSH or URG. */
  predicate Flagged(p: Buffer) {
    p[33] % 16 != 0 || p[33] / 32 % 2 == 1
  }

  /** The flags that arrive: one of FIN, SYN, RST and PSH, or URG, alone or with one of FIN, SYN and PSH. */
  predicate Coded(b: u8) {
    b % 16 + b / 32 % 2 * 32 in {0x01, 0x02, 0x04, 0x08, 0x20, 0x21, 0x22, 0x28}
  }

  /** Packet p, if it was compressed, arrives as r. Addresses, protocol and length are right. What has no ports keeps
      its IP id, its fragment field but for DF, and all bytes behind the IP header. What has ports keeps them; of UDP
      all else arrives too, exactly if its length field is its length, and of TCP, if it has one of the flags that have
      codes, the sequence number, the window, the checksum, the payload, if it acknowledges the acknowledgement, and
      the flags exactly if they are one of the combinations that the codes tell apart. */
  ghost predicate ArrivesOnBytes(p: Buffer, r: seq<u8>) {
    && 20 <= TotLen(p) <= |p| && 20 <= |r|
    && r[9] == p[9] && r[12..20] == p[12..20] && FromBe16(r, 2) == |r|
    && (IpId(p) != 0 && (IsFragment(p) || (p[9] != 0x06 && p[9] != 0x11)) ==>
          FromBe16(r, 4) == IpId(p) && FromBe16(r, 6) == FragOff(p) % 0x4000 && r[20..] == p[20..TotLen(p)])
    && (Ported(p, 0x11) ==>
          && |r| == TotLen(p) >= 28 && r[20..24] == p[20..24] && r[26..28] == p[26..28]
          && r[28..] == p[28..TotLen(p)]
          && (r[20..] == p[20..TotLen(p)] <==> FromBe16(p, 24) == TotLen(p) - 20))
    && (Ported(p, 0x06) ==> |r| >= 40 && r[20..24] == p[20..24])
    && (Ported(p, 0x06) && Flagged(p) ==>
          && |r| == TotLen(p) && r[24..28] == p[24..28] && (p[33] / 16 % 2 == 1 ==> r[28..32] == p[28..32])
          && r[34..38] == p[34..38] && r[40..] == p[40..TotLen(p)]
          && (r[33] % 64 == p[33] % 64 <==> Coded(p[33])))
  }

  lemma UdpBytes(fid: u8, t: seq<u8>, seg: seq<u8>)
    requires |t| >= 8 && 8 <= |seg| < 0x800
    ensures var r := RestoreUdp(t, CompressUdp(fid, seg));
            && |r| == |seg| && r[..4] == t[..4] && r[6..8] == seg[6..8] && r[8..] == seg[8..]
  {
    var c := CompressUdp(fid, seg);
    assert c[3..5] == seg[6..8] && c[5..] == seg[8..];
  }

  /** The fields of a rebuilt TCP segment. */
  lemma TcpBytesAt(h: TcpHdr, tail: seq<u8>)
    requires TcpSized(h)
    ensures var r := TcpBytes(h) + tail;
            && |TcpBytes(h)| == 20 && r[..4] == h.ports && r[4..8] == h.number && r[8..12] == h.ackNumber
            && r[13] == FlagByte(h.flags) && r[14..16] == h.window && r[16..18] == h.check && r[20..] == tail
  {
    hide FlagByte;
  }

  /** The low bits of a flag byte. */
  lemma LowBits(f: Flags)
    ensures var b, low := FlagByte(f), Bit(f.fin) + 2 * Bit(f.syn) + 4 * Bit(f.rst) + 8 * Bit(f.psh);
            && b % 16 == low && b / 16 % 2 == Bit(f.ack) && b / 32 % 2 == Bit(f.urg)
            && b % 64 == low + 16 * Bit(f.ack) + 32 * Bit(f.urg)
  {
    var low := Bit(f.fin) + 2 * Bit(f.syn) + 4 * Bit(f.rst) + 8 * Bit(f.psh);
    var high := Bit(f.ack) + 2 * Bit(f.urg) + 4 * Bit(f.ece) + 8 * Bit(f.cwr);
    assert FlagByte(f) == low + 16 * high;
    Digits(low, Bit(f.ack), Bit(f.urg), Bit(f.ece) + 2 * Bit(f.cwr));
  }

  lemma Digits(low: nat, ack: nat, urg: nat, rest: nat)
    requires low < 16 && ack < 2 && urg < 2
    ensures var b := low + 16 * ack + 32 * urg + 64 * rest;
            b % 16 == low && b / 16 % 2 == ack && b / 32 % 2 == urg && b % 64 == low + 16 * ack + 32 * urg
  {
    var b := low + 16 * ack + 32 * urg + 64 * rest;
    assert b / 16 == ack + 2 * (urg + 2 * rest) && b / 32 == urg + 2 * rest;
  }

  lemma FlaggedBits(b: u8)
    ensures b % 16 != 0 || b / 32 % 2 == 1 <==> !Unflagged(FlagsOf(b))
    ensures b / 16 % 2 == 1 <==> FlagsOf(b).ack
  {
    hide FlagsOf, FlagByte;
    FlagsRoundTrip(b);
    LowBits(FlagsOf(b));
  }

  lemma CodedIff(b: u8)
    ensures Coded(b) <==> Representable(FlagsOf(b))
  {
    hide FlagsOf, FlagByte;
    FlagsRoundTrip(b);
    LowBits(FlagsOf(b));
  }

  lemma AboveSame(a: bool, x: nat, b: bool, y: nat)
    ensures Above(a, x) == Above(b, y) <==> a == b && x == y
  {
  }

  lemma SixFlags(a: u8, b: u8)
    ensures var f, g := FlagsOf(a), FlagsOf(b);
            a % 64 == b % 64 <==> f == g.(ece := f.ece, cwr := f.cwr)
  {
    hide FlagsOf, FlagByte;
    var f, g := FlagsOf(a), FlagsOf(b);
    FlagsRoundTrip(a);
    FlagsRoundTrip(b);
    LowBits(f);
    LowBits(g);
    var f4, g4 := Above(f.ack, Bit(f.urg)), Above(g.ack, Bit(g.urg));
    AboveSame(f.ack, Bit(f.urg), g.ack, Bit(g.urg));
    var f3, g3 := Above(f.psh, f4), Above(g.psh, g4);
    AboveSame(f.psh, f4, g.psh, g4);
    var f2, g2 := Above(f.rst, f3), Above(g.rst, g3);
    AboveSame(f.rst, f3, g.rst, g3);
    var f1, g1 := Above(f.syn, f2), Above(g.syn, g2);
    AboveSame(f.syn, f2, g.syn, g2);
    AboveSame(f.fin, f1, g.fin, g1);
    assert a % 64 == Above(f.fin, f1) && b % 64 == Above(g.fin, g1);
  }

  lemma FlagsArrive(stored: Flags, b: u8)
    ensures FlagByte(RestoredFlags(stored, TcpInfo(FlagsOf(b)))) % 64 == b % 64 <==> Coded(b)
  {
    hide FlagsOf, FlagByte, TcpInfo, Coded, Representable;
    var f := FlagsOf(b);
    var r := RestoredFlags(stored, TcpInfo(f));
    FlagByteRoundTrip(r);
    SixFlags(FlagByte(r), b);
    CodedIff(b);
    FlagsRestoredIff(f, stored.(ece := f.ece, cwr := f.cwr));
  }

  /** The code of each combination of flags, and of none. */
  function CodeOf(flags: nat): nat {
    match flags
    case 0x02 => 1
    case 0x01 => 2
    case 0x04 => 3
    case 0x08 => 4
    case 0x22 => 5
    case 0x21 => 6
    case 0x28 => 7
    case _ => 0
  }

  /** The lower six bits of the first byte on the wire, by the flag byte of the segment. */
  lemma InfoOnBytes(b: u8)
    requires Coded(b) || b % 16 + b / 32 % 2 * 32 == 0
    ensures TcpInfo(FlagsOf(b)) == 0x28 + b / 16 % 2 * 0x10 + CodeOf(b % 16 + b / 32 % 2 * 32)
  {
    hide FlagsOf, FlagByte;
    FlagsRoundTrip(b);
    LowBits(FlagsOf(b));
  }

  lemma TcpFieldsArrive(fid: u8, t: seq<u8>, seg: seq<u8>)
    requires |t| == 20 && |seg| >= 20 && TcpFits(CompressTcp(fid, seg))
    ensures var r := RestoreTcp(t, CompressTcp(fid, seg));
            && |r| >= 20 && r[..4] == t[..4]
            && (seg[13] % 16 != 0 || seg[13] / 32 % 2 == 1 ==>
                  && |r| == |seg| && r[4..8] == seg[4..8] && (seg[13] / 16 % 2 == 1 ==> r[8..12] == seg[8..12])
                  && r[14..16] == seg[14..16] && r[16..18] == seg[16..18] && r[20..] == seg[20..]
                  && (r[13] % 64 == seg[13] % 64 <==> Coded(seg[13])))
  {
    hide FlagsOf, CompressTcp, FlagByte, TcpBytes, RestoredFlags, TcpInfo, HasSeq, HasAck, HasWindow, Urgent;
    var c := CompressTcp(fid, seg);
    FlaggedBits(seg[13]);
    TcpBytesAt(RestoredTcp(TcpOf(t), c), c[CheckAt(Info(c)) + 2..]);
    hide Coded;
    if !Unflagged(FlagsOf(seg[13])) {
      TcpFrame(fid, seg, TcpOf(t));
      FlagsArrive(TcpOf(t).flags, seg[13]);
    }
  }

  /** Bytes of the segment are bytes of the packet. */
  lemma SegmentAt(s: seq<u8>, len: nat, i: nat, j: nat)
    requires 20 <= len <= |s| && i <= j <= len - 20
    ensures s[20..len][i..j] == s[20 + i..20 + j] && s[20..len][i..] == s[20 + i..len]
  {
    var a, b := s[20..len][i..j], s[20 + i..20 + j];
    assert |a| == |b| && forall k :: 0 <= k < |a| ==> a[k] == b[k];
    assert s[20..len][i..] == s[20 + i..len];
  }

  /** The ports that the flow has stored are those of the packet. */
  lemma StoredPorts(p: Buffer, q: Buffer, h: Hdr, protocol: u8)
    requires KeyOf(q) == KeyOf(p) && SameUpToId(h, HdrOf(q)) && Ported(p, protocol) && (protocol == 0x06 || protocol == 0x11)
    ensures KeyOf(p).ipid == 0 && h.ip[9] == protocol && |h.t| == TransportLength(protocol) && h.t[..4] == p[20..24]
  {
    SameFlowIff(p, q);
    PortlessIff(p);
    assert h.ip[9] == h.ip[6..][3] && HdrOf(q).ip[9] == HdrOf(q).ip[6..][3] == q[9];
    assert h.t[..4] == q[20..24];
  }

  lemma RawArrives(fid: u8, p: Buffer, q: Buffer, h: Hdr)
    requires Compressible(KeyOf(p), p) && KeyOf(q) == KeyOf(p) && h == HdrOf(q)
    requires IpId(p) != 0 && (IsFragment(p) || (p[9] != 0x06 && p[9] != 0x11))
    ensures var c := Compress(fid, KeyOf(p), p);
            && Restorable(h, c)
            && var r := Restore(h, c);
               && |r| >= 20 && FromBe16(r, 4) == IpId(p) && FromBe16(r, 6) == FragOff(p) % 0x4000
               && r[20..] == p[20..TotLen(p)]
  {
    PortlessIff(p);
    assert KeyOf(p).ipid == IpId(p);
    SameFlowIff(p, q);
    hide KeyOf, Restore, CompressRaw, RawPayload, RawFits, HdrOf, IsFragment, Portless;
    CompressedShape(fid, p);
    RawRoundTrip(fid, FragOff(p), Segment(p));
    RestoredHeader(fid, h, q, p);
    RestoredTail(h, Compress(fid, KeyOf(p), p));
  }

  /** r begins with an IP header. */
  lemma Behind(r: seq<u8>, i: nat, j: nat)
    requires |r| >= 20 && i <= j <= |r| - 20
    ensures r[20..][i..j] == r[20 + i..20 + j] && r[20..][i..] == r[20 + i..]
  {
    assert r[20..][i..j] == r[20 + i..20 + j];
    assert r[20..][i..] == r[20 + i..];
  }

  lemma UdpArrives(fid: u8, p: Buffer, q: Buffer, h: Hdr)
    requires Compressible(KeyOf(p), p) && KeyOf(q) == KeyOf(p) && SameUpToId(h, HdrOf(q)) && Ported(p, 0x11)
    ensures var c := Compress(fid, KeyOf(p), p);
            && Restorable(h, c)
            && var r := Restore(h, c);
               && |r| == TotLen(p) >= 28 && r[20..24] == p[20..24] && r[26..28] == p[26..28]
               && r[28..] == p[28..TotLen(p)]
               && (r[20..] == p[20..TotLen(p)] <==> FromBe16(p, 24) == TotLen(p) - 20)
  {
    StoredPorts(p, q, h, 0x11);
    hide KeyOf, HdrOf, IsFragment, Portless, RestoreUdp, CompressUdp, RestoreIp;
    var c, seg := Compress(fid, KeyOf(p), p), Segment(p);
    CompressedShape(fid, p);
    RestoredTail(h, c);
    RestoredParts(h, c);
    UdpBytes(fid, h.t, seg);
    UdpRoundTripIff(fid, h.t, seg);
    UdpBehind(p, Restore(h, c), seg);
  }

  /** The same fields, seen from the packets. */
  lemma UdpBehind(p: Buffer, r: seq<u8>, seg: seq<u8>)
    requires 28 <= TotLen(p) <= |p| && seg == p[20..TotLen(p)] && |r| >= 28 && r[20..][..4] == p[20..24]
    requires r[20..][6..8] == seg[6..8] && r[20..][8..] == seg[8..]
    ensures r[20..24] == p[20..24] && r[26..28] == p[26..28] && r[28..] == p[28..TotLen(p)]
    ensures FromBe16(seg, 4) == FromBe16(p, 24) && seg[..4] == p[20..24]
  {
    SegmentAt(p, TotLen(p), 0, 4);
    SegmentAt(p, TotLen(p), 6, 8);
    SegmentAt(p, TotLen(p), 8, 8);
    Behind(r, 0, 4);
    Behind(r, 6, 8);
    Behind(r, 8, 8);
  }

  lemma TcpArrives(fid: u8, p: Buffer, q: Buffer, h: Hdr)
    requires Compressible(KeyOf(p), p) && KeyOf(q) == KeyOf(p) && SameUpToId(h, HdrOf(q)) && Ported(p, 0x06)
    requires Restorable(h, Compress(fid, KeyOf(p), p))
    ensures var r := Restore(h, Compress(fid, KeyOf(p), p));
            && |r| >= 40 && r[20..24] == p[20..24]
            && (Flagged(p) ==>
                  && |r| == TotLen(p) && r[24..28] == p[24..28] && (p[33] / 16 % 2 == 1 ==> r[28..32] == p[28..32])
                  && r[34..38] == p[34..38] && r[40..] == p[40..TotLen(p)]
                  && (r[33] % 64 == p[33] % 64 <==> Coded(p[33])))
  {
    StoredPorts(p, q, h, 0x06);
    hide Coded, KeyOf, HdrOf, IsFragment, Portless, RestoreTcp, CompressTcp, RestoreIp, TcpFits;
    var c, seg := Compress(fid, KeyOf(p), p), Segment(p);
    CompressedShape(fid, p);
    RestoredTail(h, c);
    RestoredParts(h, c);
    TcpFieldsArrive(fid, h.t, seg);
    TcpBehind(p, Restore(h, c), seg);
  }

  /** The same fields, seen from the packets. */
  lemma TcpBehind(p: Buffer, r: seq<u8>, seg: seq<u8>)
    requires 40 <= TotLen(p) <= |p| && seg == p[20..TotLen(p)] && |r| >= 40 && r[20..][..4] == p[20..24]
    ensures r[20..24] == p[20..24] && seg[13] == p[33] && r[20..][13] == r[33]
    ensures var t := r[20..];
            |t| == |seg| && t[4..8] == seg[4..8] && t[14..16] == seg[14..16] && t[16..18] == seg[16..18]
            && t[20..] == seg[20..] ==>
              |r| == TotLen(p) && r[24..28] == p[24..28] && r[34..38] == p[34..38] && r[40..] == p[40..TotLen(p)]
    ensures r[20..][8..12] == seg[8..12] ==> r[28..32] == p[28..32]
  {
    Behind(r, 0, 4);
    Behind(r, 4, 8);
    Behind(r, 8, 12);
    Behind(r, 14, 16);
    Behind(r, 16, 18);
    Behind(r, 20, 20);
    SegmentAt(p, TotLen(p), 4, 8);
    SegmentAt(p, TotLen(p), 8, 12);
    SegmentAt(p, TotLen(p), 14, 16);
    SegmentAt(p, TotLen(p), 16, 18);
    SegmentAt(p, TotLen(p), 20, 20);
    assert r[34..38] == r[34..36] + r[36..38] && p[34..38] == p[34..36] + p[36..38];
  }

  lemma OpenerStored(p: Buffer, q: Buffer, h: Hdr)
    requires KeyOf(q) == KeyOf(p) && SameUpToId(h, HdrOf(q)) && !IsFragment(p) && (p[9] == 0x06 || p[9] == 0x11)
    ensures KeyOf(p).ipid == 0 && WellShaped(h) && h.ip[9] == p[9] && h.t[..4] == q[20..24]
    ensures q[20..24] != p[20..24] <==> IsFragment(q) && IpId(q) == 0 && q[20..24] != [0, 0, 0, 0]
  {
    SameFlowIff(p, q);
    PortlessIff(p);
    SameProtocol(p, q, h);
    hide IsFragment, Portless, FragOff;
    assert h.t[..4] == q[20..24];
  }

  /** The ports that arrive are always those of the packet q that opened the flow. They are wrong exactly if q is a
      fragment with IP id 0 that was taken for a packet with both ports 0, and has other bytes there. */
  lemma PortsOfOpener(fid: u8, p: Buffer, q: Buffer, h: Hdr)
    requires Compressible(KeyOf(p), p) && !Starved(p) && KeyOf(q) == KeyOf(p) && Belongs(h, q)
    requires !IsFragment(p) && (p[9] == 0x06 || p[9] == 0x11)
    ensures var c := Compress(fid, KeyOf(p), p);
            && Restorable(h, c) && |Restore(h, c)| >= 24 && Restore(h, c)[20..24] == q[20..24]
            && (q[20..24] != p[20..24] <==> IsFragment(q) && IpId(q) == 0 && q[20..24] != [0, 0, 0, 0])
  {
    hide KeyOf, HdrOf, IsFragment, Portless, RestoreTcp, RestoreUdp, CompressTcp, CompressUdp, RestoreIp, TcpFits;
    hide Starved, FragOff, IpId;
    OpenerStored(p, q, h);
    var c, seg := Compress(fid, KeyOf(p), p), Segment(p);
    CompressedShape(fid, p);
    RestorableIff(fid, h, p);
    RestoredTail(h, c);
    if p[9] == 0x06 {
      TcpFieldsArrive(fid, h.t, seg);
    } else {
      UdpBytes(fid, h.t, seg);
    }
    RestoredParts(h, c);
    Behind(Restore(h, c), 0, 4);
  }

  /** A packet on the flow that q has opened. */
  lemma PacketArrives(fid: u8, p: Buffer, q: Buffer, h: Hdr)
    requires Compressible(KeyOf(p), p) && !Starved(p) && KeyOf(q) == KeyOf(p) && Belongs(h, q)
    ensures var c := Compress(fid, KeyOf(p), p); Restorable(h, c) && ArrivesOnBytes(p, Restore(h, c))
  {
    hide KeyOf, HdrOf, IsFragment, Portless, Restore, Restorable, Compress, Starved, FragOff;
    var c := Compress(fid, KeyOf(p), p);
    SameProtocol(p, q, h);
    RestorableIff(fid, h, p);
    RestoredHeader(fid, h, q, p);
    if IpId(p) != 0 && (IsFragment(p) || (p[9] != 0x06 && p[9] != 0x11)) {
      RawIsStored(p, q, h);
      RawArrives(fid, p, q, h);
    }
    if Ported(p, 0x11) {
      UdpArrives(fid, p, q, h);
    } else if Ported(p, 0x06) {
      TcpArrives(fid, p, q, h);
    }
  }

  lemma SameProtocol(p: Buffer, q: Buffer, h: Hdr)
    requires KeyOf(q) == KeyOf(p) && SameUpToId(h, HdrOf(q))
    ensures WellShaped(h) && h.ip[9] == p[9]
  {
    KeyFixesHeader(p, q);
    assert h.ip[9] == h.ip[6..][3] && HdrOf(q).ip[9] == HdrOf(q).ip[6..][3] == q[9];
  }

  lemma RawIsStored(p: Buffer, q: Buffer, h: Hdr)
    requires KeyOf(q) == KeyOf(p) && Belongs(h, q)
    requires IpId(p) != 0 && (IsFragment(p) || (p[9] != 0x06 && p[9] != 0x11))
    ensures h == HdrOf(q)
  {
    PortlessIff(p);
  }

  /** In every run: what node a hands on of a compressed packet that node b was given. */
  lemma DeliveredBytes(states: seq<System>, moves: seq<Move>, i: nat, f: Frame, now: int)
    requires Run(states, moves) && i <= |moves| && f in states[i].ba && f.Compressed?
    ensures WasGiven(moves, i, true, f.p)
    ensures var s := states[i];
            && Understood(s.a.rs, Image(f))
            && var r := Recv(s.a.fs, s.a.rs, Image(f), now).packet; r.Some? && ArrivesOnBytes(f.p, r.value)
  {
    RunOk(states, moves, i);
    InFlightWasGiven(states, moves, i, f);
    FlowPacketArrives(states[i], f, now);
  }

  lemma FlowPacketArrives(s: System, f: Frame, now: int)
    requires Inv(s) && f in s.ba && f.Compressed?
    ensures Understood(s.a.rs, Image(f))
    ensures var r := Recv(s.a.fs, s.a.rs, Image(f), now).packet; r.Some? && ArrivesOnBytes(f.p, r.value)
  {
    hide Direction, KeyOf, HdrOf, Compressible, Starved, Compress, Restorable, Restore, LooksLikeIp, Recv, Understood;
    hide ArrivesOnBytes;
    FramesOk(s.b.fs, s.b.pool, s.a.rs, s.ba, s.ab, f);
    CompressedReady(s.b.fs, s.b.pool, s.a.rs, s.ba, s.ab, f);
    CompressedArrives(f, s.b.fs, s.a.rs, s.a.fs, now);
    var h, g := s.a.rs[Rkey(MYMAC, f.fid)].hdr, s.b.fs[KeyOf(f.p)];
    var q: Buffer :| KeyOf(q) == KeyOf(f.p) && HdrOf(q) == g.hdr;
    PacketArrives(f.fid, f.p, q, h);
  }
}
