/** What compression preserves. */
module CodecTheorems {
  import opened Bytes
  import opened Headers
  import opened Codec
  import Csum

  // ----- TCP flags -----

  function Ones(f: Flags): nat {
    Bit(f.syn) + Bit(f.fin) + Bit(f.psh)
  }

  /** The combinations that the eight codes tell apart. */
  predicate Representable(f: Flags) {
    if f.urg then !f.rst && Ones(f) <= 1 else Ones(f) + Bit(f.rst) == 1
  }

  /** A segment without URG, SYN, FIN, PSH and RST, such as a plain acknowledgement. */
  predicate Unflagged(f: Flags) {
    !f.urg && !f.rst && Ones(f) == 0
  }

  lemma InfoBits(f: Flags)
    ensures var i := TcpInfo(f);
            && HasSeq(i) && HasWindow(i) && (HasAck(i) <==> f.ack) && (Urgent(i) <==> f.urg || Unflagged(f))
            && i % 8 == TcpCode(f)
  {
  }

  /** The flags come back exactly for the representable combinations, if the two flags that are never sent are as
      stored. */
  lemma FlagsRestoredIff(f: Flags, stored: Flags)
    ensures RestoredFlags(stored, TcpInfo(f)) == f
            <==> Representable(f) && stored.ece == f.ece && stored.cwr == f.cwr
  {
    hide TcpInfo, HasSeq, HasAck, HasWindow, Urgent;
    InfoBits(f);
  }

  lemma AboveParts(b: bool, rest: nat)
    ensures Odd(Above(b, rest)) == b && Above(b, rest) / 2 == rest
  {
  }

  lemma AboveWhole(x: nat)
    ensures Above(Odd(x), x / 2) == x
  {
  }

  lemma FlagByteRoundTrip(f: Flags)
    ensures FlagsOf(FlagByte(f)) == f
  {
    hide Above, Odd;
    var h7 := Above(f.cwr, 0);
    var h6 := Above(f.ece, h7);
    var h5 := Above(f.urg, h6);
    var h4 := Above(f.ack, h5);
    var h3 := Above(f.psh, h4);
    var h2 := Above(f.rst, h3);
    var h1 := Above(f.syn, h2);
    AboveParts(f.cwr, 0);
    AboveParts(f.ece, h7);
    AboveParts(f.urg, h6);
    AboveParts(f.ack, h5);
    AboveParts(f.psh, h4);
    AboveParts(f.rst, h3);
    AboveParts(f.syn, h2);
    AboveParts(f.fin, h1);
  }

  lemma FlagsRoundTrip(b: u8)
    ensures FlagByte(FlagsOf(b)) == b
  {
    hide Above, Odd;
    var b4 := b / 2 / 2 / 2 / 2;
    AboveWhole(b);
    AboveWhole(b / 2);
    AboveWhole(b / 2 / 2);
    AboveWhole(b / 2 / 2 / 2);
    AboveWhole(b4);
    AboveWhole(b4 / 2);
    AboveWhole(b4 / 2 / 2);
    AboveWhole(b4 / 2 / 2 / 2);
  }

  // ----- TCP segments -----

  lemma TcpParts(h: TcpHdr, tail: seq<u8>)
    requires TcpSized(h)
    ensures |TcpBytes(h)| == 20 && TcpOf(TcpBytes(h) + tail) == h
  {
    hide FlagsOf, FlagByte;
    FlagByteRoundTrip(h.flags);
  }

  lemma TcpWhole(s: seq<u8>)
    requires |s| >= 20
    ensures TcpBytes(TcpOf(s)) + s[20..] == s && TcpSized(TcpOf(s))
  {
    hide FlagsOf, FlagByte;
    FlagsRoundTrip(s[13]);
  }

  lemma FieldsOf(x: seq<u8>, n: seq<u8>, a: seq<u8>, w: seq<u8>, u: seq<u8>, k: seq<u8>, tail: seq<u8>)
    requires |x| == 3 && |n| == 4 && |w| == 2 && |k| == 2
    ensures var c := x + n + a + w + u + k + tail;
            && c[0] == x[0] && c[3..7] == n && c[7..7 + |a|] == a && c[7 + |a|..9 + |a|] == w
            && c[9 + |a|..9 + |a| + |u|] == u && c[9 + |a| + |u|..11 + |a| + |u|] == k && c[11 + |a| + |u|..] == tail
  {
  }

  /** The frame of a segment that is not plain, read by recv_tcp. */
  lemma TcpFrame(fid: u8, seg: seq<u8>, stored: TcpHdr)
    requires |seg| >= 20 && !Unflagged(FlagsOf(seg[13]))
    ensures var c, h := CompressTcp(fid, seg), TcpOf(seg);
            && TcpFits(c) && c[CheckAt(Info(c)) + 2..] == seg[20..]
            && RestoredTcp(stored, c) == TcpHdr(stored.ports, h.number,
                 if h.flags.ack then h.ackNumber else stored.ackNumber, stored.doff,
                 RestoredFlags(stored.flags, TcpInfo(h.flags)), h.window, h.check,
                 if h.flags.urg then h.urgent else stored.urgent)
  {
    hide FlagsOf, TcpInfo, RestoredFlags, HasSeq, HasAck, HasWindow, Urgent;
    var h := TcpOf(seg);
    InfoBits(h.flags);
    var x := Chdr(FRAME_TCP, TcpInfo(h.flags), MYMAC, fid);
    FieldsOf(x, h.number, if h.flags.ack then h.ackNumber else [], h.window, if h.flags.urg then h.urgent else [],
             h.check, seg[20..]);
    assert Info(x) == TcpInfo(h.flags);
  }

  /** When recv_tcp rebuilds a segment from the TCP header of its flow: the flags are representable, and what is not
      sent is as stored. */
  predicate TcpCarried(stored: TcpHdr, h: TcpHdr) {
    && Representable(h.flags) && stored.ports == h.ports && stored.doff == h.doff
    && stored.flags.ece == h.flags.ece && stored.flags.cwr == h.flags.cwr
    && (h.flags.ack || stored.ackNumber == h.ackNumber) && (h.flags.urg || stored.urgent == h.urgent)
  }

  lemma TcpSameIff(t: seq<u8>, c: seq<u8>, seg: seq<u8>)
    requires |t| == 20 && |seg| >= 20 && TcpFits(c)
    ensures RestoreTcp(t, c) == seg
       <==> RestoredTcp(TcpOf(t), c) == TcpOf(seg) && c[CheckAt(Info(c)) + 2..] == seg[20..]
  {
    hide TcpOf, TcpBytes, RestoredTcp, CheckAt;
    TcpWhole(t);
    TcpWhole(seg);
    var r, tail := RestoredTcp(TcpOf(t), c), c[CheckAt(Info(c)) + 2..];
    TcpParts(r, tail);
    TcpParts(TcpOf(seg), seg[20..]);
    assert (TcpBytes(r) + tail)[20..] == tail;
  }

  /** The TCP round trip, exactly. A plain acknowledgement shares its code with URG: its frame is too short or
      misread. */
  lemma TcpRoundTripIff(fid: u8, t: seq<u8>, seg: seq<u8>)
    requires |t| == 20 && |seg| >= 20
    ensures var c := CompressTcp(fid, seg);
            TcpFits(c) && RestoreTcp(t, c) == seg <==> TcpCarried(TcpOf(t), TcpOf(seg))
  {
    hide TcpOf, RestoredTcp, RestoreTcp, CompressTcp, FlagsOf, RestoredFlags, TcpFits, CheckAt;
    hide Representable, Unflagged;
    var c, stored, h := CompressTcp(fid, seg), TcpOf(t), TcpOf(seg);
    FlagsRestoredIff(h.flags, stored.flags);
    TcpRead(fid, seg, stored);
    if TcpFits(c) {
      TcpSameIff(t, c, seg);
    }
  }

  lemma TcpRead(fid: u8, seg: seq<u8>, stored: TcpHdr)
    requires |seg| >= 20
    ensures var c, h := CompressTcp(fid, seg), TcpOf(seg);
            Unflagged(h.flags) ==> !Representable(h.flags) && (TcpFits(c) ==> RestoredTcp(stored, c) != h)
    ensures var c, h := CompressTcp(fid, seg), TcpOf(seg);
            !Unflagged(h.flags) ==>
              && TcpFits(c) && c[CheckAt(Info(c)) + 2..] == seg[20..]
              && (RestoredTcp(stored, c) == h <==>
                  && RestoredFlags(stored.flags, TcpInfo(h.flags)) == h.flags && stored.ports == h.ports
                  && stored.doff == h.doff && (h.flags.ack || stored.ackNumber == h.ackNumber)
                  && (h.flags.urg || stored.urgent == h.urgent))
  {
    var c, h := CompressTcp(fid, seg), TcpOf(seg);
    hide FlagsOf, CompressTcp, CheckAt, RestoredFlags;
    if Unflagged(h.flags) {
      PlainIsMisread(fid, seg, stored);
    } else {
      TcpFrame(fid, seg, stored);
    }
  }

  /** A plain acknowledgement comes back, if at all, with the URG flag set. */
  lemma PlainIsMisread(fid: u8, seg: seq<u8>, stored: TcpHdr)
    requires |seg| >= 20 && Unflagged(FlagsOf(seg[13]))
    ensures var c := CompressTcp(fid, seg);
            && (TcpFits(c) <==> |seg| >= 22) && (TcpFits(c) ==> RestoredTcp(stored, c).flags.urg)
  {
    hide FlagsOf, TcpInfo, HasSeq, HasAck, HasWindow, Urgent;
    var h := TcpOf(seg);
    InfoBits(h.flags);
    var x := Chdr(FRAME_TCP, TcpInfo(h.flags), MYMAC, fid);
    assert Info(x) == TcpInfo(h.flags) && CompressTcp(fid, seg)[0] == x[0];
  }

  // ----- UDP and RAW -----

  /** The UDP round trip, exactly: the ports must be those of the flow and the length field the real length. */
  lemma UdpRoundTripIff(fid: u8, t: seq<u8>, seg: seq<u8>)
    requires |t| == 8 && 8 <= |seg| < 0x800
    ensures RestoreUdp(t, CompressUdp(fid, seg)) == seg <==> t[..4] == seg[..4] && FromBe16(seg, 4) == |seg|
  {
    var c := CompressUdp(fid, seg);
    assert c[3..5] == seg[6..8] && c[5..] == seg[8..];
    var r := RestoreUdp(t, c);
    assert r[..4] == t[..4] && r[4..6] == Be16(|seg|) && r[6..8] == seg[6..8] && r[8..] == seg[8..];
    Be16At(|seg|, r, 4);
    Be16Injective(seg, 4);
    assert seg == seg[..4] + seg[4..6] + seg[6..8] + seg[8..];
    assert r == r[..4] + r[4..6] + r[6..8] + r[8..];
  }

  /** The RAW round trip: the payload and the fragment field without its DF and reserved bits. */
  lemma RawRoundTrip(fid: u8, frag: u16, seg: seq<u8>)
    ensures var c := CompressRaw(fid, frag, seg);
            RawFits(c) && RawPayload(c) == seg && RestoredFrag(c) == frag % 0x4000
  {
    hide HasSeq, HasAck;
    var c := CompressRaw(fid, frag, seg);
    RawBits(frag);
    assert Info(c) == RawInfo(frag);
    if Offset(frag) != 0 {
      assert c[3..5] == Be16(Offset(frag));
      Be16At(Offset(frag), c, 3);
    }
  }

  lemma RawBits(frag: u16)
    ensures (HasSeq(RawInfo(frag)) <==> Offset(frag) != 0) && (HasAck(RawInfo(frag)) <==> MoreFragments(frag))
    ensures Offset(Offset(frag)) == Offset(frag)
    ensures frag % 0x4000 == Offset(frag) + if MoreFragments(frag) then 0x2000 else 0
  {
  }

  // ----- whole packets -----

  /** When the segment of p survives compression on a flow with these stored headers. */
  predicate Carried(h: Hdr, p: Buffer)
    requires WellShaped(h) && Compressible(KeyOf(p), p) && h.ip[9] == p[9]
  {
    KeyOf(p).ipid == 0 ==>
      if p[9] == TCP then TcpCarried(TcpOf(h.t), TcpOf(Segment(p)))
      else h.t[..4] == Segment(p)[..4] && FromBe16(Segment(p), 4) == |Segment(p)|
  }

  lemma CompressedShape(fid: u8, p: Buffer)
    requires Compressible(KeyOf(p), p)
    ensures var c, k := Compress(fid, KeyOf(p), p), KeyOf(p);
            && 3 <= |c| && |c| + 15 <= TotLen(p) && c[1] == MYMAC && c[2] == fid
            && Type(c) == (if k.ipid != 0 then FRAME_RAW else if p[9] == TCP then FRAME_TCP else FRAME_UDP)
            && (Type(c) == FRAME_UDP ==> |c| >= 5) && (Type(c) == FRAME_TCP ==> HasSeq(Info(c)))
            && !LooksLikeIp(c)
  {
    hide FlagsOf, TcpInfo, KeyOf, HasSeq, HasAck, HasWindow, Urgent;
    if KeyOf(p).ipid == 0 && p[9] == TCP {
      var h := TcpOf(Segment(p));
      InfoBits(h.flags);
      var x := Chdr(FRAME_TCP, TcpInfo(h.flags), MYMAC, fid);
      assert Info(x) == TcpInfo(h.flags) && CompressTcp(fid, Segment(p))[0] == x[0];
    }
  }

  /** Compression is undone by the receiver, exactly for the packets that the flow can carry. */
  lemma RoundTrip(fid: u8, h: Hdr, p: Buffer)
    requires WellShaped(h) && Compressible(KeyOf(p), p) && h.ip[9] == p[9]
    ensures var c := Compress(fid, KeyOf(p), p);
            Restorable(h, c) && Restore(h, c)[20..] == Segment(p) <==> Carried(h, p)
  {
    hide KeyOf, CompressTcp, CompressUdp, CompressRaw, RestoreTcp, RestoreUdp, RawPayload, RawFits, TcpFits, TcpCarried;
    hide Segment;
    var k, seg := KeyOf(p), Segment(p);
    SegmentLength(p);
    var c := Compress(fid, k, p);
    CompressedShape(fid, p);
    if k.ipid != 0 {
      RawRoundTrip(fid, FragOff(p), seg);
    } else if p[9] == TCP {
      TcpRoundTripIff(fid, h.t, seg);
    } else {
      UdpRoundTripIff(fid, h.t, seg);
    }
    if Restorable(h, c) {
      RestoredTail(h, c);
    }
  }

  lemma SegmentLength(p: Buffer)
    requires 20 <= TotLen(p) <= |p|
    ensures |Segment(p)| == TotLen(p) - 20
  {
  }

  lemma RestoredTail(h: Hdr, c: seq<u8>)
    requires Restorable(h, c)
    ensures Restore(h, c)[20..] == RestoredSegment(h, c)
  {
    hide RestoredSegment, RestoreIp, Restorable;
  }

  /** The IP header of a restored packet; its checksum verifies exactly if the sum folds without a further carry. */
  lemma RestoredIpFields(ip: seq<u8>, len: u16, id: u16, frag: u16)
    requires |ip| == 20
    ensures var r := RestoreIp(ip, len, id, frag);
            && r[..2] == ip[..2] && FromBe16(r, 2) == len && FromBe16(r, 4) == id && FromBe16(r, 6) == frag
            && r[8..10] == ip[8..10] && r[12..] == ip[12..]
    ensures var u := UnstampedIp(ip, len, id, frag);
            && Csum.WordSum(u) <= 0xffff_ffff
            && (Csum.Csum(RestoreIp(ip, len, id, frag)) == 0 <==> Csum.Fold(Csum.WordSum(u)) < 0x1_0000)
  {
    hide Csum.Csum, Csum.WordSum, Csum.Fold;
    var u := UnstampedIp(ip, len, id, frag);
    var r := RestoreIp(ip, len, id, frag);
    UnstampedFields(ip, len, id, frag);
    StampedElsewhere(u, Csum.Csum(u));
    Be16At(len, r, 2);
    Be16At(id, r, 4);
    Be16At(frag, r, 6);
    Csum.SumBound(u);
    Csum.StampVerifiesIff(u, 10);
  }

  lemma UnstampedFields(ip: seq<u8>, len: u16, id: u16, frag: u16)
    requires |ip| == 20
    ensures var u := UnstampedIp(ip, len, id, frag);
            && u[..2] == ip[..2] && u[2..4] == Be16(len) && u[4..6] == Be16(id) && u[6..8] == Be16(frag)
            && u[8..10] == ip[8..10] && u[12..] == ip[12..]
  {
  }

  lemma StampedElsewhere(u: seq<u8>, check: u16)
    requires |u| == 20
    ensures var r := Csum.Stamped(u, 10, check);
            && r[..2] == u[..2] && r[2..4] == u[2..4] && r[4..6] == u[4..6] && r[6..8] == u[6..8]
            && r[8..10] == u[8..10] && r[12..] == u[12..]
  {
  }

  /** A receiver's stored header belongs to the flow that q opened: equal up to the IP id, and for a RAW flow equal. */
  predicate Belongs(h: Hdr, q: Buffer) {
    SameUpToId(h, HdrOf(q)) && (KeyOf(q).ipid != 0 ==> h == HdrOf(q))
  }

  /** The IP header in front of the restored segment. Addresses and protocol are those of the packet; RAW restores
      its IP id and its fragment field without DF; version, type of service and time to live are those of the packet
      that opened the flow. */
  lemma RestoredHeader(fid: u8, h: Hdr, q: Buffer, p: Buffer)
    requires KeyOf(p) == KeyOf(q) && Belongs(h, q) && Compressible(KeyOf(p), p)
    requires Restorable(h, Compress(fid, KeyOf(p), p))
    ensures var r, raw := Restore(h, Compress(fid, KeyOf(p), p)), KeyOf(p).ipid != 0;
            && |r| >= 20 && FromBe16(r, 2) == |r|
            && r[..2] == q[..2] && r[8] == q[8] && r[9] == p[9] && r[12..20] == p[12..20]
            && FromBe16(r, 6) == (if raw then FragOff(p) % 0x4000 else FragOff(q))
            && FromBe16(r, 4) == if raw then IpId(p) else (StoredId(h) + 1) % 0x1_0000
  {
    hide KeyOf, Compress, RestoredSegment, RestoreIp, Restorable, RestoredFrag;
    var c := Compress(fid, KeyOf(p), p);
    CompressedShape(fid, p);
    KeyFixesHeader(p, q);
    RestoredParts(h, c);
    var raw := KeyOf(p).ipid != 0;
    var g := if raw then h else Advanced(h);
    StoredFields(h, g, q, raw);
    assert Restore(h, c)[12..20] == g.ip[12..];
    if raw {
      RawFragment(fid, p);
    }
  }

  lemma RestoredParts(h: Hdr, c: seq<u8>)
    requires Restorable(h, c)
    ensures var r, g := Restore(h, c), HdrAfter(h, c);
            && |r| >= 20 && FromBe16(r, 2) == |r| && FromBe16(r, 4) == StoredId(g)
            && FromBe16(r, 6) == (if Type(c) == FRAME_RAW then RestoredFrag(c) else StoredFrag(g))
            && r[..2] == g.ip[..2] && r[8] == g.ip[8] && r[9] == g.ip[9] && r[12..20] == g.ip[12..]
  {
    hide RestoredSegment, RestoreIp, RawFits;
    var g, seg := HdrAfter(h, c), RestoredSegment(h, c);
    var frag := if Type(c) == FRAME_RAW then RestoredFrag(c) else StoredFrag(g);
    var ip := RestoreIp(g.ip, 20 + |seg|, StoredId(g), frag);
    RestoredIpFields(g.ip, 20 + |seg|, StoredId(g), frag);
    InFront(ip, seg);
    InFront(g.ip, []);
  }

  lemma InFront(ip: seq<u8>, seg: seq<u8>)
    requires |ip| == 20
    ensures var r := ip + seg;
            && FromBe16(r, 2) == FromBe16(ip, 2) && FromBe16(r, 4) == FromBe16(ip, 4)
            && FromBe16(r, 6) == FromBe16(ip, 6)
            && r[..2] == ip[..2] && r[8] == ip[8..10][0] && r[9] == ip[8..10][1] && r[12..20] == ip[12..]
  {
  }

  lemma RawFragment(fid: u8, p: Buffer)
    requires KeyOf(p).ipid != 0 && Compressible(KeyOf(p), p)
    ensures var c := Compress(fid, KeyOf(p), p); RawFits(c) && RestoredFrag(c) == FragOff(p) % 0x4000
  {
    RawRoundTrip(fid, FragOff(p), Segment(p));
  }

  lemma StoredFields(h: Hdr, g: Hdr, q: Buffer, raw: bool)
    requires WellShaped(h) && SameUpToId(h, HdrOf(q)) && g == if raw then h else Advanced(h)
    ensures g.ip[..2] == q[..2] && g.ip[8] == q[8] && g.ip[9] == q[9] && g.ip[12..] == q[12..20]
    ensures StoredFrag(g) == FragOff(q) && StoredId(g) == if raw then StoredId(h) else (StoredId(h) + 1) % 0x1_0000
  {
  }

  /** A request brings the headers across, and neither it nor its answer is taken for an IPv4 packet. */
  lemma RequestRoundTrip(fid: u8, h: Hdr)
    requires WellShaped(h)
    ensures var c := BuildCtl(fid, h);
            && ReqFits(c) && ReqHdr(c) == h && |c| < 0x800 && !LooksLikeIp(c)
            && Type(c) == CTL && Info(c) == REQ && c[1] == MYMAC && c[2] == fid
    ensures var a := BuildAck(BuildCtl(fid, h));
            && |a| == 3 && Type(a) == CTL && Info(a) == ACK && a[1] == MYMAC && a[2] == fid && !LooksLikeIp(a)
  {
    var c := BuildCtl(fid, h);
    assert c[3..23] == h.ip && c[23..] == h.t && c[12] == h.ip[9];
  }

  // ----- a checksum that does not verify -----

  /** The IP header of a TCP segment without data from 192.168.0.1 to 192.168.0.2. */
  function StoredHeader(): (ip: seq<u8>)
    ensures |ip| == 20
  {
    [0x45, 0, 0, 40, 0xfa, 0x7c, 0, 0, 64, TCP, 0, 0, 192, 168, 0, 1, 192, 168, 0, 2]
  }

  lemma StoredWords()
    ensures var h := StoredHeader();
            && FromLe16(h, 0) == 0x45 && FromLe16(h, 2) == 0x2800 && FromLe16(h, 4) == 0x7cfa && FromLe16(h, 6) == 0
            && FromLe16(h, 8) == 0x640 && FromLe16(h, 10) == 0 && FromLe16(h, 12) == 0xa8c0 && FromLe16(h, 14) == 0x100
            && FromLe16(h, 16) == 0xa8c0 && FromLe16(h, 18) == 0x200
    ensures UnstampedIp(StoredHeader(), 40, 0xfa7c, 0) == StoredHeader()
  {
  }

  /** The words of that header add up to 0x1ffff, whose fold carries once more. */
  lemma StoredHeaderSum()
    ensures UnstampedIp(StoredHeader(), 40, 0xfa7c, 0) == StoredHeader() && Csum.WordSum(StoredHeader()) == 0x1_ffff
  {
    hide Csum.WordSum, FromLe16, StoredHeader, UnstampedIp;
    var h := StoredHeader();
    StoredWords();
    Csum.NextWord(h, 0);
    Csum.NextWord(h, 2);
    Csum.NextWord(h, 4);
    Csum.NextWord(h, 6);
    Csum.NextWord(h, 8);
    Csum.NextWord(h, 10);
    Csum.NextWord(h, 12);
    Csum.NextWord(h, 14);
    Csum.NextWord(h, 16);
    Csum.NextWord(h, 18);
    assert h[0..] == h;
    Csum.NoWords(h[20..]);
  }

  /** A packet the decoders build can carry a checksum that does not verify. */
  lemma StampCanFail()
    ensures Csum.Csum(RestoreIp(StoredHeader(), 40, 0xfa7c, 0)) != 0
  {
    hide Csum.WordSum, Csum.Csum, StoredHeader, UnstampedIp, RestoreIp;
    StoredHeaderSum();
    RestoredIpFields(StoredHeader(), 40, 0xfa7c, 0);
  }
}
