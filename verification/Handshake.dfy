/** Two nodes of the compact layer and the unordered, lossy channels between them. */
module Handshake {
  import opened Bytes
  import opened Headers
  import opened Codec
  import opened CodecTheorems
  import opened Flows
  import Csum

  /** A frame in flight, named by what it was made for. */
  datatype Frame =
    | Plain(p: Buffer)
    | Request(fid: u8, hdr: Hdr)
    | Compressed(fid: u8, p: Buffer)
    | Untyped(t: Stale, fid: u8, p: Buffer)
    | Answer(fid: u8)

  /** The bytes that travel. */
  function Image(f: Frame): seq<u8> {
    match f
    case Plain(p) => if TotLen(p) <= |p| then p[..TotLen(p)] else []
    case Request(fid, h) => if WellShaped(h) then BuildCtl(fid, h) else []
    case Compressed(fid, p) => if Compressible(KeyOf(p), p) then Compress(fid, KeyOf(p), p) else []
    case Untyped(t, fid, _) => Bare(t, fid)
    case Answer(fid) => Chdr(CTL, ACK, MYMAC, fid)
  }

  datatype Node = Node(fs: Flows, pool: seq<u8>, rs: Rflows)

  /** Node a, node b, and the frames on their way from a to b and from b to a. */
  datatype System = System(a: Node, b: Node, ab: multiset<Frame>, ba: multiset<Frame>)

  function Flip(s: System): System {
    System(s.b, s.a, s.ba, s.ab)
  }

  /** What xmit_compress sends for a packet. */
  function SentFrames(fs: Flows, pool: seq<u8>, b: Buffer, stale: Stale): seq<Frame> {
    var k := KeyOf(b);
    if !Compactable(b) then [Plain(b)]
    else if k !in fs then
      if pool == [] then [] else [Request(pool[0], HdrOf(b)), Plain(b)]
    else
      match fs[k].state
      case New => [Request(fs[k].fid, fs[k].hdr), Plain(b)]
      case Pending => [Plain(b)]
      case Established => [if Compressible(k, b) then Compressed(fs[k].fid, b) else Untyped(stale, fs[k].fid, b)]
  }

  lemma SentImages(fs: Flows, pool: seq<u8>, b: Buffer, now: int, stale: Stale)
    requires Sendable(fs, b)
    ensures var sent := SentFrames(fs, pool, b, stale);
            Xmit(fs, pool, b, now, stale).frames == seq(|sent|, i requires 0 <= i < |sent| => Image(sent[i]))
  {
    hide Compactable, Compress, KeyOf, BuildCtl;
  }

  /** The frame of a TCP segment without flags and without data ends before the fields that recv_tcp reads. */
  predicate Starved(b: Buffer) {
    KeyOf(b).ipid == 0 && b[9] == TCP && Unflagged(FlagsOf(b[33])) && TotLen(b) < 42
  }

  /** The packets that the layer is made for: IPv4 with a valid header checksum, as long as they say, and, once their
      flow is established, none that the receiver cannot read. */
  predicate CanSend(fs: Flows, b: Buffer, stale: Stale) {
    && Sendable(fs, b) && 20 <= TotLen(b) && LooksLikeIp(b[..TotLen(b)])
    && (Compactable(b) && KeyOf(b) in fs && fs[KeyOf(b)].state == Established ==> Readable(b, stale))
  }

  /** The receiver can read what such a packet is compressed to. */
  predicate Readable(b: Buffer, stale: Stale) {
    if Compressible(KeyOf(b), b) then !Starved(b) else stale == FRAME_RAW
  }

  datatype Action =
    | Send(b: Buffer, now: int, stale: Stale)    // a: xmit_compress
    | Receive(f: Frame, time: int)               // a: recv_compress
    | Lose(f: Frame)                             // on the way from a to b
    | Again(f: Frame)                            // from a to b: the second push of a RAW packet

  predicate Enabled(s: System, act: Action) {
    match act
    case Send(b, _, stale) => CanSend(s.a.fs, b, stale)
    case Receive(f, _) => f in s.ba
    case Lose(f) => f in s.ab
    case Again(f) => f in s.ab && f.Compressed? && KeyOf(f.p).ipid != 0
  }

  /** No assertion of recv_compress fails, and it reads no further than the frame goes. */
  predicate Safe(s: System, act: Action) {
    act.Receive? ==> Understood(s.a.rs, Image(act.f))
  }

  function Step(s: System, act: Action): System
    requires Enabled(s, act) && Safe(s, act)
  {
    match act
    case Send(b, now, stale) =>
      var x := Xmit(s.a.fs, s.a.pool, b, now, stale);
      s.(a := Node(x.flows, x.pool, s.a.rs), ab := s.ab + multiset(SentFrames(s.a.fs, s.a.pool, b, stale)))
    case Receive(f, time) =>
      var r := Recv(s.a.fs, s.a.rs, Image(f), time);
      s.(a := s.a.(fs := r.flows, rs := r.rflows), ba := s.ba - multiset{f}, ab := s.ab + Replies(r.reply))
    case Lose(f) => s.(ab := s.ab - multiset{f})
    case Again(f) => s.(ab := s.ab + multiset{f})
  }

  function Replies(reply: Option<seq<u8>>): multiset<Frame> {
    if reply.Some? && |reply.value| == 3 then multiset{Answer(reply.value[2])} else multiset{}
  }

  // ----- the invariant -----

  /** h is what the receiver keeps of a flow: the sender's headers, but for the IP id unless frames are RAW. */
  predicate Kin(h: Hdr, f: Flow, k: Key) {
    SameUpToId(h, f.hdr) && (k.ipid != 0 ==> h == f.hdr)
  }

  ghost predicate OpenedBy(k: Key, h: Hdr) {
    exists q: Buffer :: KeyOf(q) == k && HdrOf(q) == h
  }

  ghost predicate FlowsOk(fs: Flows, pool: seq<u8>) {
    Consistent(fs, pool) && forall k :: k in fs ==> OpenedBy(k, fs[k].hdr) && fs[k].state != New
  }

  /** The receiver knows only flows that the sender has, and every established one. */
  ghost predicate Shared(fs: Flows, rs: Rflows) {
    && (forall r :: r in rs ==> r.smac == MYMAC && exists k :: k in fs && fs[k].fid == r.id && Kin(rs[r].hdr, fs[k], k))
    && (forall k :: k in fs && fs[k].state == Established ==> Rkey(MYMAC, fs[k].fid) in rs)
  }

  ghost predicate FrameOk(f: Frame, fs: Flows, rs: Rflows) {
    match f
    case Plain(p) => 20 <= TotLen(p) <= |p| && LooksLikeIp(p[..TotLen(p)])
    case Request(fid, h) => Rkey(MYMAC, fid) !in rs && exists k :: k in fs && fs[k].fid == fid && fs[k].hdr == h
    case Compressed(fid, p) =>
      && Rkey(MYMAC, fid) in rs && KeyOf(p) in fs && fs[KeyOf(p)].fid == fid
      && Compressible(KeyOf(p), p) && !Starved(p)
    case Untyped(t, fid, p) =>
      && Rkey(MYMAC, fid) in rs && KeyOf(p) in fs && fs[KeyOf(p)].fid == fid
      && LongEnough(KeyOf(p), p) && !Compressible(KeyOf(p), p) && t == FRAME_RAW
    case Answer(_) => true
  }

  /** One direction: a's flows, what b stores of them, the frames from a to b, and those back. */
  ghost predicate Direction(fs: Flows, pool: seq<u8>, rs: Rflows, out: multiset<Frame>, back: multiset<Frame>) {
    && FlowsOk(fs, pool) && Shared(fs, rs)
    && (forall f :: f in out ==> FrameOk(f, fs, rs))
    && (forall f :: f in out && f.Request? ==> out[f] == 1)
    && (forall f :: f in back && f.Answer? ==> Rkey(MYMAC, f.fid) in rs)
  }

  ghost predicate Inv(s: System) {
    && Direction(s.a.fs, s.a.pool, s.b.rs, s.ab, s.ba)
    && Direction(s.b.fs, s.b.pool, s.a.rs, s.ba, s.ab)
  }

  // ----- what each kind of frame does at its receiver -----

  /** The receiver can read a compressed frame of its flow exactly if the packet was not starved. */
  lemma RestorableIff(fid: u8, h: Hdr, p: Buffer)
    requires WellShaped(h) && Compressible(KeyOf(p), p) && h.ip[9] == p[9]
    ensures Restorable(h, Compress(fid, KeyOf(p), p)) <==> !Starved(p)
  {
    hide KeyOf, CompressTcp, CompressUdp, CompressRaw, TcpFits, RawFits, FlagsOf, Unflagged;
    CompressedShape(fid, p);
    if KeyOf(p).ipid != 0 {
      RawRoundTrip(fid, FragOff(p), Segment(p));
    } else if p[9] == TCP {
      TcpFitsIff(fid, Segment(p));
      assert Segment(p)[13] == p[33];
    }
  }

  lemma TcpFitsIff(fid: u8, seg: seq<u8>)
    requires |seg| >= 20
    ensures TcpFits(CompressTcp(fid, seg)) <==> !Unflagged(FlagsOf(seg[13])) || |seg| >= 22
  {
    hide CompressTcp, TcpFits, FlagsOf, RestoredTcp, CheckAt;
    if Unflagged(FlagsOf(seg[13])) {
      PlainIsMisread(fid, seg, TcpOf(seg));
    } else {
      TcpFrame(fid, seg, TcpOf(seg));
    }
  }

  lemma PlainArrives(f: Frame, fs: Flows, rs: Rflows, own: Flows, now: int)
    requires f.Plain? && FrameOk(f, fs, rs)
    ensures Understood(rs, Image(f))
    ensures var r := Recv(own, rs, Image(f), now);
            r.flows == own && r.rflows == rs && r.packet == Some(Image(f)) && r.reply == None
  {
    var c := Image(f);
    assert FromBe16(c, 2) == TotLen(f.p) && c[..|c|] == c;
  }

  lemma RequestArrives(f: Frame, fs: Flows, rs: Rflows, own: Flows, now: int)
    requires f.Request? && FrameOk(f, fs, rs) && WellShaped(f.hdr)
    ensures Understood(rs, Image(f))
    ensures var r := Recv(own, rs, Image(f), now);
            && r.flows == own && r.rflows == rs[Rkey(MYMAC, f.fid) := Stored(f.hdr, now + SOFT_TIMEOUT_INTERVAL)]
            && r.packet == None && Replies(r.reply) == multiset{Answer(f.fid)}
  {
    hide LooksLikeIp, ReqFits, ReqHdr, BuildCtl, BuildAck, Info, Type;
    RequestRoundTrip(f.fid, f.hdr);
  }

  lemma AnswerArrives(f: Frame, rs: Rflows, own: Flows, now: int)
    requires f.Answer?
    ensures Understood(rs, Image(f))
    ensures var r := Recv(own, rs, Image(f), now);
            r.flows == OnAck(own, f.fid) && r.rflows == rs && r.packet == None && r.reply == None
  {
  }

  lemma CompressedArrives(f: Frame, fs: Flows, rs: Rflows, own: Flows, now: int)
    requires f.Compressed? && FrameOk(f, fs, rs)
    requires var r := Rkey(MYMAC, f.fid); r in rs && WellShaped(rs[r].hdr) && rs[r].hdr.ip[9] == f.p[9]
    ensures Understood(rs, Image(f)) && Restorable(rs[Rkey(MYMAC, f.fid)].hdr, Image(f))
    ensures var r, key := Recv(own, rs, Image(f), now), Rkey(MYMAC, f.fid);
            && r.flows == own
            && r.rflows == rs[key := Stored(HdrAfter(rs[key].hdr, Image(f)), now + SOFT_TIMEOUT_INTERVAL)]
            && r.packet == Some(Restore(rs[key].hdr, Image(f))) && r.reply == None
  {
    hide LooksLikeIp, Restorable, Restore, HdrAfter, KeyOf, Compress, Starved;
    var h := rs[Rkey(MYMAC, f.fid)].hdr;
    RestorableIff(f.fid, h, f.p);
    CompressedShape(f.fid, f.p);
    RestorableFits(h, Image(f));
  }

  lemma RestorableFits(h: Hdr, c: seq<u8>)
    requires Restorable(h, c)
    ensures LengthsFit(c)
  {
  }

  /** A packet of another protocol with IP id 0, on an established flow: its frame is understood exactly if the type
      bits happen to be those of RAW; then a packet without a segment is handed on, with the right addresses. */
  lemma UntypedArrivesIff(t: Stale, fid: u8, p: Buffer, rs: Rflows, own: Flows, now: int)
    requires LongEnough(KeyOf(p), p) && !Compressible(KeyOf(p), p) && Rkey(MYMAC, fid) in rs
    requires var h := rs[Rkey(MYMAC, fid)].hdr; WellShaped(h) && h.ip[9] == p[9] && h.ip[12..] == p[12..20]
    ensures Understood(rs, Bare(t, fid)) <==> t == FRAME_RAW
    ensures t == FRAME_RAW ==>
              var r, key := Recv(own, rs, Bare(t, fid), now), Rkey(MYMAC, fid);
              && r.flows == own && r.rflows == rs[key := Stored(rs[key].hdr, now + SOFT_TIMEOUT_INTERVAL)]
              && r.packet.Some? && r.reply == None && UntypedAs(p, r.packet.value)
  {
    hide KeyOf;
    var c, h := Bare(t, fid), rs[Rkey(MYMAC, fid)].hdr;
    assert KeyOf(p).ipid == 0 && p[9] != TCP && p[9] != UDP;
    if t == FRAME_RAW {
      BareFits(h, fid);
      RestoredParts(h, c);
      RestoredTail(h, c);
      SegmentLength(p);
    }
  }

  lemma BareFits(h: Hdr, fid: u8)
    requires WellShaped(h)
    ensures var c := Bare(FRAME_RAW, fid);
            && RkeyOf(c) == Rkey(MYMAC, fid) && !LooksLikeIp(c) && Type(c) == FRAME_RAW && Restorable(h, c)
            && RestoredSegment(h, c) == [] && HdrAfter(h, c) == h
  {
  }

  /** What is left of such a packet: its segment comes back exactly if there is none. */
  predicate UntypedAs(p: Buffer, r: seq<u8>) {
    && LongEnough(KeyOf(p), p) && |r| == 20 && r[9] == p[9] && r[12..20] == p[12..20]
    && (r[20..] == Segment(p) <==> TotLen(p) == 20)
  }

  // ----- every step keeps the invariant -----

  /** Flows only get more, and keep their ids and headers. */
  ghost predicate Grows(fs: Flows, gs: Flows) {
    forall k :: k in fs ==> k in gs && gs[k].fid == fs[k].fid && gs[k].hdr == fs[k].hdr
  }

  lemma StillKnown(fs: Flows, gs: Flows, rs: Rflows, r: Rkey)
    requires Grows(fs, gs) && r in rs && exists k :: k in fs && fs[k].fid == r.id && Kin(rs[r].hdr, fs[k], k)
    ensures exists k :: k in gs && gs[k].fid == r.id && Kin(rs[r].hdr, gs[k], k)
  {
    var k :| k in fs && fs[k].fid == r.id && Kin(rs[r].hdr, fs[k], k);
    assert k in gs && gs[k].fid == r.id && Kin(rs[r].hdr, gs[k], k);
  }

  lemma FrameStaysOk(f: Frame, fs: Flows, gs: Flows, rs: Rflows)
    requires Grows(fs, gs) && FrameOk(f, fs, rs)
    ensures FrameOk(f, gs, rs)
  {
    hide Compressible, Starved, LooksLikeIp, KeyOf;
    if f.Request? {
      var k :| k in fs && fs[k].fid == f.fid && fs[k].hdr == f.hdr;
      assert k in gs && gs[k].fid == f.fid && gs[k].hdr == f.hdr;
    }
  }

  /** A new state of the sender's flows, if none becomes established. */
  lemma GrownDirection(fs: Flows, pool: seq<u8>, gs: Flows, rest: seq<u8>, rs: Rflows,
                       out: multiset<Frame>, back: multiset<Frame>)
    requires Direction(fs, pool, rs, out, back) && FlowsOk(gs, rest) && Grows(fs, gs)
    requires forall k :: k in gs && gs[k].state == Established ==> Rkey(MYMAC, gs[k].fid) in rs
    ensures Direction(gs, rest, rs, out, back)
  {
    hide FlowsOk, Kin, FrameOk;
    forall r | r in rs ensures r.smac == MYMAC && exists k :: k in gs && gs[k].fid == r.id && Kin(rs[r].hdr, gs[k], k) {
      StillKnown(fs, gs, rs, r);
    }
    forall f | f in out ensures FrameOk(f, gs, rs) {
      FrameStaysOk(f, fs, gs, rs);
    }
  }

  /** One more frame, which is no request. */
  lemma OneMoreFrame(fs: Flows, pool: seq<u8>, rs: Rflows, out: multiset<Frame>, back: multiset<Frame>, f: Frame)
    requires Direction(fs, pool, rs, out, back) && FrameOk(f, fs, rs) && !f.Request?
    ensures Direction(fs, pool, rs, out + multiset{f}, back)
  {
    hide FlowsOk, Shared, FrameOk;
  }

  /** A request for an id that no frame asks for yet. */
  lemma OneMoreRequest(fs: Flows, pool: seq<u8>, rs: Rflows, out: multiset<Frame>, back: multiset<Frame>, f: Frame)
    requires Direction(fs, pool, rs, out, back) && FrameOk(f, fs, rs) && f.Request? && f !in out
    ensures Direction(fs, pool, rs, out + multiset{f}, back)
  {
    hide FlowsOk, Shared, FrameOk;
  }

  lemma FewerFrames(fs: Flows, pool: seq<u8>, rs: Rflows, out: multiset<Frame>, back: multiset<Frame>,
                    out1: multiset<Frame>, back1: multiset<Frame>)
    requires Direction(fs, pool, rs, out, back) && out1 <= out
    requires forall f :: f in back1 && f.Answer? ==> f in back
    ensures Direction(fs, pool, rs, out1, back1)
  {
    hide FlowsOk, Shared, FrameOk;
  }

  /** A free id is neither known to the receiver nor asked for. */
  lemma FreeIsUnknown(fs: Flows, pool: seq<u8>, rs: Rflows, out: multiset<Frame>, back: multiset<Frame>, h: Hdr)
    requires Direction(fs, pool, rs, out, back) && pool != []
    ensures Rkey(MYMAC, pool[0]) !in rs && Request(pool[0], h) !in out
  {
    hide Kin;
    NewId(fs, pool[0]);
    assert Request(pool[0], h) in out ==> FrameOk(Request(pool[0], h), fs, rs);
  }

  lemma NewFlowOk(fs: Flows, pool: seq<u8>, b: Buffer, now: int, stale: Stale)
    requires FlowsOk(fs, pool) && Sendable(fs, b) && Compactable(b) && (KeyOf(b) in fs || pool != [])
    ensures var x := Xmit(fs, pool, b, now, stale);
            && FlowsOk(x.flows, x.pool) && Grows(fs, x.flows) && KeyOf(b) in x.flows
            && (KeyOf(b) !in fs ==> x.flows[KeyOf(b)] == Flow(Pending, HdrOf(b), pool[0], now + SOFT_TIMEOUT_INTERVAL))
            && (KeyOf(b) in fs ==> x.flows[KeyOf(b)].state == fs[KeyOf(b)].state)
            && (forall k :: k in x.flows && k != KeyOf(b) ==> k in fs && x.flows[k] == fs[k])
  {
    hide KeyOf, HdrOf, Compactable, FramesOf, Consistent;
    XmitKeepsConsistent(fs, pool, b, now, stale);
    assert OpenedBy(KeyOf(b), HdrOf(b));
  }

  lemma SendKeepsDirection(fs: Flows, pool: seq<u8>, rs: Rflows, out: multiset<Frame>, back: multiset<Frame>,
                           b: Buffer, now: int, stale: Stale)
    requires Direction(fs, pool, rs, out, back) && CanSend(fs, b, stale)
    ensures var x := Xmit(fs, pool, b, now, stale);
            Direction(x.flows, x.pool, rs, out + multiset(SentFrames(fs, pool, b, stale)), back)
  {
    hide KeyOf, HdrOf, Compactable, FramesOf, LooksLikeIp, Starved, Direction, Compressible;
    if !Compactable(b) {
      OneMoreFrame(fs, pool, rs, out, back, Plain(b));
    } else if KeyOf(b) in fs {
      SendOnFlow(fs, pool, rs, out, back, b, now, stale);
    } else if pool != [] {
      SendOnNewFlow(fs, pool, rs, out, back, b, now, stale);
    } else {
      assert out + multiset{} == out;
    }
  }

  lemma SendOnFlow(fs: Flows, pool: seq<u8>, rs: Rflows, out: multiset<Frame>, back: multiset<Frame>,
                    b: Buffer, now: int, stale: Stale)
    requires Direction(fs, pool, rs, out, back) && CanSend(fs, b, stale) && Compactable(b)
    requires KeyOf(b) in fs
    ensures var x := Xmit(fs, pool, b, now, stale);
            Direction(x.flows, x.pool, rs, out + multiset(SentFrames(fs, pool, b, stale)), back)
  {
    hide KeyOf, HdrOf, Compactable, FramesOf, FlowsOk, Shared, LooksLikeIp, Starved, Direction, Compressible;
    var k, x := KeyOf(b), Xmit(fs, pool, b, now, stale);
    DirectionParts(fs, pool, rs, out, back);
    NewFlowOk(fs, pool, b, now, stale);
    EstablishedKnown(fs, x.flows, rs);
    GrownDirection(fs, pool, x.flows, x.pool, rs, out, back);
    if fs[k].state == Pending {
      OneMoreFrame(x.flows, x.pool, rs, out, back, Plain(b));
    } else {
      NotNew(fs, pool, k);
      EstablishedIsKnown(fs, rs, k);
      OneMoreFrame(x.flows, x.pool, rs, out, back, SentFrames(fs, pool, b, stale)[0]);
    }
  }

  lemma SendOnNewFlow(fs: Flows, pool: seq<u8>, rs: Rflows, out: multiset<Frame>, back: multiset<Frame>,
                       b: Buffer, now: int, stale: Stale)
    requires Direction(fs, pool, rs, out, back) && CanSend(fs, b, stale) && Compactable(b)
    requires KeyOf(b) !in fs && pool != []
    ensures var x := Xmit(fs, pool, b, now, stale);
            Direction(x.flows, x.pool, rs, out + multiset(SentFrames(fs, pool, b, stale)), back)
  {
    hide KeyOf, HdrOf, Compactable, FramesOf, FlowsOk, Shared, LooksLikeIp, Starved, Direction, Compressible;
    var k, x := KeyOf(b), Xmit(fs, pool, b, now, stale);
    DirectionParts(fs, pool, rs, out, back);
    NewFlowOk(fs, pool, b, now, stale);
    EstablishedKnown(fs, x.flows, rs);
    GrownDirection(fs, pool, x.flows, x.pool, rs, out, back);
    FreeIsUnknown(fs, pool, rs, out, back, HdrOf(b));
    OpeningKeeps(x.flows, x.pool, rs, out, back, pool[0], b);
  }

  /** The two frames of a new flow. */
  lemma OpeningKeeps(fs: Flows, pool: seq<u8>, rs: Rflows, out: multiset<Frame>, back: multiset<Frame>, fid: u8,
                     b: Buffer)
    requires Direction(fs, pool, rs, out, back) && FrameOk(Plain(b), fs, rs)
    requires Rkey(MYMAC, fid) !in rs && Request(fid, HdrOf(b)) !in out
    requires KeyOf(b) in fs && fs[KeyOf(b)].fid == fid && fs[KeyOf(b)].hdr == HdrOf(b)
    ensures Direction(fs, pool, rs, out + multiset([Request(fid, HdrOf(b)), Plain(b)]), back)
  {
    hide Direction, KeyOf, HdrOf, LooksLikeIp;
    var req := Request(fid, HdrOf(b));
    assert FrameOk(req, fs, rs);
    OneMoreRequest(fs, pool, rs, out, back, req);
    OneMoreFrame(fs, pool, rs, out + multiset{req}, back, Plain(b));
    assert out + multiset([req, Plain(b)]) == out + multiset{req} + multiset{Plain(b)};
  }

  lemma DirectionParts(fs: Flows, pool: seq<u8>, rs: Rflows, out: multiset<Frame>, back: multiset<Frame>)
    requires Direction(fs, pool, rs, out, back)
    ensures FlowsOk(fs, pool) && Shared(fs, rs)
  {
  }

  lemma NotNew(fs: Flows, pool: seq<u8>, k: Key)
    requires FlowsOk(fs, pool) && k in fs
    ensures fs[k].state != New
  {
  }

  lemma EstablishedIsKnown(fs: Flows, rs: Rflows, k: Key)
    requires Shared(fs, rs) && k in fs && fs[k].state == Established
    ensures Rkey(MYMAC, fs[k].fid) in rs
  {
  }

  lemma EstablishedKnown(fs: Flows, gs: Flows, rs: Rflows)
    requires Shared(fs, rs) && Grows(fs, gs)
    requires forall l :: l in gs && gs[l].state == Established ==> l in fs && fs[l].state == Established
    ensures forall l :: l in gs && gs[l].state == Established ==> Rkey(MYMAC, gs[l].fid) in rs
  {
  }

  lemma AnswerKeepsDirection(fs: Flows, pool: seq<u8>, rs: Rflows, out: multiset<Frame>, back: multiset<Frame>, fid: u8)
    requires Direction(fs, pool, rs, out, back) && Answer(fid) in back
    ensures Direction(OnAck(fs, fid), pool, rs, out, back)
  {
    hide FrameOk, Kin, Consistent, Compressible, Starved, LooksLikeIp, KeyOf, HdrOf, OpenedBy;
    var gs := OnAck(fs, fid);
    assert Rkey(MYMAC, Answer(fid).fid) in rs;
    AckKeepsConsistent(fs, pool, fid);
    forall k | k in gs ensures OpenedBy(k, gs[k].hdr) && gs[k].state != New {
      assert gs[k].hdr == fs[k].hdr;
    }
    GrownDirection(fs, pool, gs, pool, rs, out, back);
  }

  /** The receiver stores the headers of a request: no other request for this id is left. */
  lemma RequestKeepsDirection(fs: Flows, pool: seq<u8>, rs: Rflows, out: multiset<Frame>, back: multiset<Frame>,
                              f: Frame, timeout: int)
    requires Direction(fs, pool, rs, out, back) && f in out && f.Request?
    ensures WellShaped(f.hdr)
    ensures Direction(fs, pool, rs[Rkey(MYMAC, f.fid) := Stored(f.hdr, timeout)], out - multiset{f},
                      back + multiset{Answer(f.fid)})
  {
    hide Compressible, Starved, LooksLikeIp, KeyOf, Consistent, HdrOf;
    assert FrameOk(f, fs, rs);
    var owner :| owner in fs && fs[owner].fid == f.fid && fs[owner].hdr == f.hdr;
    assert OpenedBy(owner, f.hdr);
    OwnerShape(owner, f.hdr);
    var r := Rkey(MYMAC, f.fid);
    var qs := rs[r := Stored(f.hdr, timeout)];
    assert Kin(f.hdr, fs[owner], owner);
    RequestKeepsFrames(fs, pool, rs, out, f, qs);
    StoredKeepsShared(fs, rs, r, f.hdr, timeout);
  }

  lemma OwnerShape(k: Key, h: Hdr)
    requires OpenedBy(k, h)
    ensures WellShaped(h)
  {
  }

  lemma StoredKeepsShared(fs: Flows, rs: Rflows, r: Rkey, h: Hdr, timeout: int)
    requires Shared(fs, rs) && r.smac == MYMAC && exists k :: k in fs && fs[k].fid == r.id && Kin(h, fs[k], k)
    ensures Shared(fs, rs[r := Stored(h, timeout)])
  {
    hide Kin;
  }

  lemma RequestKeepsFrames(fs: Flows, pool: seq<u8>, rs: Rflows, out: multiset<Frame>, f: Frame, qs: Rflows)
    requires FlowsOk(fs, pool) && f in out && f.Request? && (forall g :: g in out ==> FrameOk(g, fs, rs))
    requires forall g :: g in out && g.Request? ==> out[g] == 1
    requires qs.Keys == rs.Keys + {Rkey(MYMAC, f.fid)}
    ensures forall g :: g in out - multiset{f} ==> FrameOk(g, fs, qs)
  {
    hide Compressible, Starved, LooksLikeIp, KeyOf;
    forall g | g in out - multiset{f} ensures FrameOk(g, fs, qs) {
      assert g in out && FrameOk(g, fs, rs) && FrameOk(f, fs, rs);
      if g.Request? && g.fid == f.fid {
        SameRequest(fs, pool, rs, f, g);
      }
    }
  }

  lemma SameRequest(fs: Flows, pool: seq<u8>, rs: Rflows, f: Frame, g: Frame)
    requires FlowsOk(fs, pool) && f.Request? && g.Request? && f.fid == g.fid && FrameOk(f, fs, rs) && FrameOk(g, fs, rs)
    ensures f == g
  {
    hide OpenedBy, LiveIds;
    var k :| k in fs && fs[k].fid == f.fid && fs[k].hdr == f.hdr;
    var l :| l in fs && fs[l].fid == g.fid && fs[l].hdr == g.hdr;
    assert k == l;
  }

  /** The frame is for a flow that both ends know. */
  ghost predicate OfFlow(fid: u8, p: Buffer, fs: Flows, rs: Rflows) {
    Rkey(MYMAC, fid) in rs && KeyOf(p) in fs && fs[KeyOf(p)].fid == fid
  }

  /** The flow of a compressed frame at both ends. */
  lemma FlowReady(fs: Flows, pool: seq<u8>, rs: Rflows, out: multiset<Frame>, back: multiset<Frame>, fid: u8, p: Buffer)
    requires Direction(fs, pool, rs, out, back) && OfFlow(fid, p, fs, rs)
    ensures var h, f, k := rs[Rkey(MYMAC, fid)].hdr, fs[KeyOf(p)], KeyOf(p);
            && Kin(h, f, k) && OpenedBy(k, f.hdr) && WellShaped(h) && h.ip[9] == p[9] && h.ip[12..] == p[12..20]
  {
    hide KeyOf, HdrOf, LiveIds, FrameOk;
    var r, k := Rkey(MYMAC, fid), KeyOf(p);
    var l :| l in fs && fs[l].fid == r.id && Kin(rs[r].hdr, fs[l], l);
    assert l == k;
    assert OpenedBy(k, fs[k].hdr);
    ProtocolOf(k, fs[k].hdr, p);
    SameFields(rs[r].hdr, fs[k].hdr);
  }

  lemma SameFields(h: Hdr, g: Hdr)
    requires SameUpToId(h, g)
    ensures h.ip[9] == g.ip[9] && h.ip[12..] == g.ip[12..]
  {
    assert h.ip[9] == h.ip[6..][3] && g.ip[9] == g.ip[6..][3];
    assert h.ip[12..] == h.ip[6..][6..] && g.ip[12..] == g.ip[6..][6..];
  }

  lemma CompressedReady(fs: Flows, pool: seq<u8>, rs: Rflows, out: multiset<Frame>, back: multiset<Frame>, f: Frame)
    requires Direction(fs, pool, rs, out, back) && f in out && f.Compressed?
    ensures OfFlow(f.fid, f.p, fs, rs) && Compressible(KeyOf(f.p), f.p) && !Starved(f.p)
    ensures var h, g, k := rs[Rkey(MYMAC, f.fid)].hdr, fs[KeyOf(f.p)], KeyOf(f.p);
            Kin(h, g, k) && OpenedBy(k, g.hdr) && WellShaped(h) && h.ip[9] == f.p[9]
  {
    FramesOk(fs, pool, rs, out, back, f);
    hide Direction, Compressible, Starved, KeyOf;
    FlowReady(fs, pool, rs, out, back, f.fid, f.p);
  }

  lemma UntypedReady(fs: Flows, pool: seq<u8>, rs: Rflows, out: multiset<Frame>, back: multiset<Frame>, f: Frame)
    requires Direction(fs, pool, rs, out, back) && f in out && f.Untyped?
    ensures OfFlow(f.fid, f.p, fs, rs) && f.t == FRAME_RAW
    ensures LongEnough(KeyOf(f.p), f.p) && !Compressible(KeyOf(f.p), f.p)
    ensures var h := rs[Rkey(MYMAC, f.fid)].hdr; WellShaped(h) && h.ip[9] == f.p[9] && h.ip[12..] == f.p[12..20]
  {
    FramesOk(fs, pool, rs, out, back, f);
    hide Direction, Compressible, LongEnough, KeyOf;
    FlowReady(fs, pool, rs, out, back, f.fid, f.p);
  }

  /** The receiver touches the flow and stores nothing new. */
  lemma UntypedKeepsDirection(fs: Flows, pool: seq<u8>, rs: Rflows, out: multiset<Frame>, back: multiset<Frame>,
                              f: Frame, timeout: int)
    requires Direction(fs, pool, rs, out, back) && f in out && f.Untyped?
    ensures var r := Rkey(MYMAC, f.fid);
            r in rs && Direction(fs, pool, rs[r := Stored(rs[r].hdr, timeout)], out, back)
  {
    hide Compressible, LongEnough, Starved, KeyOf, HdrOf, Consistent, LooksLikeIp, Kin, OpenedBy;
    UntypedReady(fs, pool, rs, out, back, f);
    FlowReady(fs, pool, rs, out, back, f.fid, f.p);
    var r, k := Rkey(MYMAC, f.fid), KeyOf(f.p);
    var qs := rs[r := Stored(rs[r].hdr, timeout)];
    assert k in fs && fs[k].fid == r.id && Kin(rs[r].hdr, fs[k], k);
    StoredKeepsShared(fs, rs, r, rs[r].hdr, timeout);
    assert qs.Keys == rs.Keys;
    SameKeys(fs, rs, qs, out);
  }

  lemma ProtocolOf(k: Key, h: Hdr, p: Buffer)
    requires OpenedBy(k, h) && k == KeyOf(p)
    ensures WellShaped(h) && h.ip[9] == p[9] && h.ip[12..] == p[12..20]
  {
    hide KeyOf;
    var q: Buffer :| KeyOf(q) == k && HdrOf(q) == h;
    KeyFixesHeader(p, q);
  }

  /** The stored headers stay kin to the sender's. */
  lemma StaysKin(h: Hdr, f: Flow, fid: u8, p: Buffer)
    requires Compressible(KeyOf(p), p) && Kin(h, f, KeyOf(p)) && Restorable(h, Compress(fid, KeyOf(p), p))
    ensures Kin(HdrAfter(h, Compress(fid, KeyOf(p), p)), f, KeyOf(p))
  {
    hide KeyOf, Compress, Restorable, Info;
    CompressedShape(fid, p);
  }

  lemma CompressedKeepsDirection(fs: Flows, pool: seq<u8>, rs: Rflows, out: multiset<Frame>, back: multiset<Frame>,
                                 f: Frame, timeout: int)
    requires Direction(fs, pool, rs, out, back) && f in out && f.Compressed?
    ensures var r := Rkey(MYMAC, f.fid);
            && r in rs && Restorable(rs[r].hdr, Image(f))
            && Direction(fs, pool, rs[r := Stored(HdrAfter(rs[r].hdr, Image(f)), timeout)], out, back)
  {
    hide Compressible, Starved, KeyOf, HdrOf, Consistent, LooksLikeIp, Kin, Compress, Restorable, HdrAfter, OpenedBy;
    CompressedReady(fs, pool, rs, out, back, f);
    var r, k := Rkey(MYMAC, f.fid), KeyOf(f.p);
    RestorableIff(f.fid, rs[r].hdr, f.p);
    StaysKin(rs[r].hdr, fs[k], f.fid, f.p);
    var h := HdrAfter(rs[r].hdr, Image(f));
    var qs := rs[r := Stored(h, timeout)];
    assert k in fs && fs[k].fid == r.id && Kin(h, fs[k], k);
    StoredKeepsShared(fs, rs, r, h, timeout);
    assert qs.Keys == rs.Keys;
    SameKeys(fs, rs, qs, out);
  }

  lemma SameKeys(fs: Flows, rs: Rflows, qs: Rflows, out: multiset<Frame>)
    requires (forall f :: f in out ==> FrameOk(f, fs, rs)) && qs.Keys == rs.Keys
    ensures forall f :: f in out ==> FrameOk(f, fs, qs)
  {
    hide Compressible, Starved, LooksLikeIp, KeyOf;
    forall f | f in out ensures FrameOk(f, fs, qs) {
      assert FrameOk(f, fs, rs);
    }
  }

  lemma EveryFrameUnderstood(s: System, f: Frame)
    requires Inv(s) && f in s.ba
    ensures Understood(s.a.rs, Image(f))
  {
    hide Understood, KeyOf, Compressible, Starved, LooksLikeIp, Restorable;
    var fs, rs := s.b.fs, s.a.rs;
    assert FrameOk(f, fs, rs);
    match f {
      case Plain(_) => PlainArrives(f, fs, rs, s.a.fs, 0);
      case Request(_, _) =>
        RequestKeepsDirection(fs, s.b.pool, rs, s.ba, s.ab, f, 0);
        RequestArrives(f, fs, rs, s.a.fs, 0);
      case Compressed(_, _) =>
        CompressedReady(fs, s.b.pool, rs, s.ba, s.ab, f);
        CompressedArrives(f, fs, rs, s.a.fs, 0);
      case Untyped(t, fid, p) =>
        UntypedReady(fs, s.b.pool, rs, s.ba, s.ab, f);
        UntypedArrivesIff(t, fid, p, rs, s.a.fs, 0);
      case Answer(_) => AnswerArrives(f, rs, s.a.fs, 0);
    }
  }

  lemma ReceiveKeepsInv(s: System, f: Frame, now: int)
    requires Inv(s) && f in s.ba && Understood(s.a.rs, Image(f))
    ensures Inv(Step(s, Receive(f, now)))
  {
    hide Understood, Inv, Step;
    match f {
      case Plain(_) => ReceivePlain(s, f, now);
      case Request(_, _) => ReceiveRequest(s, f, now);
      case Compressed(_, _) => ReceiveCompressed(s, f, now);
      case Untyped(_, _, _) => ReceiveUntyped(s, f, now);
      case Answer(_) => ReceiveAnswer(s, f, now);
    }
  }

  lemma ReceivePlain(s: System, f: Frame, now: int)
    requires Inv(s) && f in s.ba && f.Plain? && Understood(s.a.rs, Image(f))
    ensures Inv(Step(s, Receive(f, now)))
  {
    hide Understood, KeyOf, Compressible, Starved, LooksLikeIp, Restorable, Direction, HdrAfter, Restore, Image;
    hide OnAck, Recv;
    var a, b, t := s.a, s.b, Step(s, Receive(f, now));
    FramesOk(b.fs, b.pool, a.rs, s.ba, s.ab, f);
    PlainArrives(f, b.fs, a.rs, a.fs, now);
    assert t.ab == s.ab;
    FewerFrames(b.fs, b.pool, a.rs, s.ba, s.ab, t.ba, s.ab);
    FewerFrames(a.fs, a.pool, b.rs, s.ab, s.ba, s.ab, t.ba);
  }

  lemma ReceiveRequest(s: System, f: Frame, now: int)
    requires Inv(s) && f in s.ba && f.Request? && Understood(s.a.rs, Image(f))
    ensures Inv(Step(s, Receive(f, now)))
  {
    hide Understood, KeyOf, Compressible, Starved, LooksLikeIp, Restorable, Direction, HdrAfter, Restore, Image;
    hide OnAck, Recv;
    var a, b, t := s.a, s.b, Step(s, Receive(f, now));
    FramesOk(b.fs, b.pool, a.rs, s.ba, s.ab, f);
    RequestKeepsDirection(b.fs, b.pool, a.rs, s.ba, s.ab, f, now + SOFT_TIMEOUT_INTERVAL);
    RequestArrives(f, b.fs, a.rs, a.fs, now);
    FewerFrames(a.fs, a.pool, b.rs, s.ab, s.ba, s.ab, t.ba);
    OneMoreFrame(a.fs, a.pool, b.rs, s.ab, t.ba, Answer(f.fid));
  }

  lemma ReceiveCompressed(s: System, f: Frame, now: int)
    requires Inv(s) && f in s.ba && f.Compressed? && Understood(s.a.rs, Image(f))
    ensures Inv(Step(s, Receive(f, now)))
  {
    hide Understood, KeyOf, Compressible, Starved, LooksLikeIp, Restorable, Direction, HdrAfter, Restore, Image;
    hide OnAck, Recv;
    var a, b, t := s.a, s.b, Step(s, Receive(f, now));
    FramesOk(b.fs, b.pool, a.rs, s.ba, s.ab, f);
    CompressedReady(b.fs, b.pool, a.rs, s.ba, s.ab, f);
    CompressedKeepsDirection(b.fs, b.pool, a.rs, s.ba, s.ab, f, now + SOFT_TIMEOUT_INTERVAL);
    CompressedArrives(f, b.fs, a.rs, a.fs, now);
    assert t.ab == s.ab;
    FewerFrames(b.fs, b.pool, t.a.rs, s.ba, s.ab, t.ba, s.ab);
    FewerFrames(a.fs, a.pool, b.rs, s.ab, s.ba, s.ab, t.ba);
  }

  lemma ReceiveUntyped(s: System, f: Frame, now: int)
    requires Inv(s) && f in s.ba && f.Untyped? && Understood(s.a.rs, Image(f))
    ensures Inv(Step(s, Receive(f, now)))
  {
    hide Understood, KeyOf, Compressible, Starved, LooksLikeIp, Restorable, Direction, HdrAfter, Restore, Image;
    hide OnAck, Recv;
    var a, b, t := s.a, s.b, Step(s, Receive(f, now));
    UntypedReady(b.fs, b.pool, a.rs, s.ba, s.ab, f);
    UntypedKeepsDirection(b.fs, b.pool, a.rs, s.ba, s.ab, f, now + SOFT_TIMEOUT_INTERVAL);
    ImageOfUntyped(f);
    UntypedArrivesIff(f.t, f.fid, f.p, a.rs, a.fs, now);
    assert t.ab == s.ab;
    FewerFrames(b.fs, b.pool, t.a.rs, s.ba, s.ab, t.ba, s.ab);
    FewerFrames(a.fs, a.pool, b.rs, s.ab, s.ba, s.ab, t.ba);
  }

  lemma ImageOfUntyped(f: Frame)
    requires f.Untyped?
    ensures Image(f) == Bare(f.t, f.fid)
  {
  }

  lemma ReceiveAnswer(s: System, f: Frame, now: int)
    requires Inv(s) && f in s.ba && f.Answer? && Understood(s.a.rs, Image(f))
    ensures Inv(Step(s, Receive(f, now)))
  {
    hide Understood, KeyOf, Compressible, Starved, LooksLikeIp, Restorable, Direction, HdrAfter, Restore, Image;
    hide OnAck, Recv;
    var a, b, t := s.a, s.b, Step(s, Receive(f, now));
    AnswerArrives(f, a.rs, a.fs, now);
    AnswerKeepsDirection(a.fs, a.pool, b.rs, s.ab, s.ba, f.fid);
    assert t.ab == s.ab;
    FewerFrames(b.fs, b.pool, a.rs, s.ba, s.ab, t.ba, s.ab);
    FewerFrames(t.a.fs, a.pool, b.rs, s.ab, s.ba, s.ab, t.ba);
  }

  lemma FramesOk(fs: Flows, pool: seq<u8>, rs: Rflows, out: multiset<Frame>, back: multiset<Frame>, f: Frame)
    requires Direction(fs, pool, rs, out, back) && f in out
    ensures FrameOk(f, fs, rs)
  {
  }

  lemma StepKeepsInv(s: System, act: Action)
    requires Inv(s) && Enabled(s, act) && Safe(s, act)
    ensures Inv(Step(s, act))
  {
    hide Understood, KeyOf, Compressible, Starved, LooksLikeIp, Direction, CanSend, Xmit, Recv, FrameOk;
    var a, b := s.a, s.b;
    match act {
      case Send(p, now, stale) =>
        SendKeepsDirection(a.fs, a.pool, b.rs, s.ab, s.ba, p, now, stale);
        var sent := multiset(SentFrames(a.fs, a.pool, p, stale));
        NoAnswers(a.fs, a.pool, p, stale);
        FewerFrames(b.fs, b.pool, a.rs, s.ba, s.ab, s.ba, s.ab + sent);
      case Receive(f, now) => ReceiveKeepsInv(s, f, now);
      case Lose(f) =>
        FewerFrames(a.fs, a.pool, b.rs, s.ab, s.ba, s.ab - multiset{f}, s.ba);
        FewerFrames(b.fs, b.pool, a.rs, s.ba, s.ab, s.ba, s.ab - multiset{f});
      case Again(f) =>
        FramesOk(a.fs, a.pool, b.rs, s.ab, s.ba, f);
        OneMoreFrame(a.fs, a.pool, b.rs, s.ab, s.ba, f);
        FewerFrames(b.fs, b.pool, a.rs, s.ba, s.ab, s.ba, s.ab + multiset{f});
    }
  }

  lemma NoAnswers(fs: Flows, pool: seq<u8>, b: Buffer, stale: Stale)
    ensures forall f :: f in multiset(SentFrames(fs, pool, b, stale)) ==> !f.Answer?
  {
    hide KeyOf, Compactable, HdrOf;
  }

  // ----- runs -----

  /** A step of node a or of node b. */
  datatype Move = Move(byB: bool, act: Action)

  predicate MoveEnabled(s: System, m: Move) {
    Enabled(if m.byB then Flip(s) else s, m.act)
  }

  predicate MoveSafe(s: System, m: Move) {
    Safe(if m.byB then Flip(s) else s, m.act)
  }

  function Next(s: System, m: Move): System
    requires MoveEnabled(s, m) && MoveSafe(s, m)
  {
    if m.byB then Flip(Step(Flip(s), m.act)) else Step(s, m.act)
  }

  predicate Init(s: System) {
    && s.a.fs == s.b.fs == map[] && s.a.rs == s.b.rs == map[] && s.ab == s.ba == multiset{}
    && |s.a.pool| == |s.b.pool| == 256 && forall i :: 0 <= i < 256 ==> s.a.pool[i] == i == s.b.pool[i]
  }

  /** A run may do anything after an unsafe step. */
  ghost predicate Run(states: seq<System>, moves: seq<Move>) {
    && |states| == |moves| + 1 && Init(states[0])
    && forall i :: 0 <= i < |moves| ==>
         && MoveEnabled(states[i], moves[i])
         && (MoveSafe(states[i], moves[i]) ==> states[i + 1] == Next(states[i], moves[i]))
  }

  lemma InitInv(s: System)
    requires Init(s)
    ensures Inv(s)
  {
    forall f: u8 ensures f in s.a.pool && f in s.b.pool {
      assert s.a.pool[f] == f && s.b.pool[f] == f;
    }
  }

  lemma MoveOk(s: System, m: Move)
    requires Inv(s) && MoveEnabled(s, m)
    ensures MoveSafe(s, m) && Inv(Next(s, m))
  {
    hide Direction, Understood, CanSend, Step;
    var t := if m.byB then Flip(s) else s;
    assert Inv(t);
    if m.act.Receive? {
      EveryFrameUnderstood(t, m.act.f);
    }
    StepKeepsInv(t, m.act);
  }

  /** In every run, no assertion of recv_compress fails, and the invariant holds in every state. */
  lemma {:induction false} RunOk(states: seq<System>, moves: seq<Move>, i: nat)
    requires Run(states, moves) && i <= |moves|
    ensures Inv(states[i])
    ensures i < |moves| ==> MoveSafe(states[i], moves[i])
  {
    hide Inv, MoveEnabled, MoveSafe, Next, Init;
    if i == 0 {
      InitInv(states[0]);
    } else {
      RunOk(states, moves, i - 1);
      MoveOk(states[i - 1], moves[i - 1]);
    }
    if i < |moves| {
      MoveOk(states[i], moves[i]);
    }
  }

  /** Established means known: in every state of a run, b has stored the headers of every flow of a that is
      established or whose answer is on its way, up to the IP id, and no request for it is left. */
  lemma EstablishedIsShared(states: seq<System>, moves: seq<Move>, i: nat, k: Key)
    requires Run(states, moves) && i <= |moves| && k in states[i].a.fs
    requires states[i].a.fs[k].state == Established || Answer(states[i].a.fs[k].fid) in states[i].ba
    ensures var s := states[i];
            var r := Rkey(MYMAC, s.a.fs[k].fid);
            && r in s.b.rs && SameUpToId(s.b.rs[r].hdr, s.a.fs[k].hdr)
            && forall h :: Request(r.id, h) !in s.ab
  {
    hide Init, MoveEnabled, MoveSafe, Next, OpenedBy, SameUpToId, KeyOf, Compressible, LooksLikeIp, Starved, LiveIds;
    RunOk(states, moves, i);
    var s := states[i];
    var r := Rkey(MYMAC, s.a.fs[k].fid);
    if s.a.fs[k].state != Established {
      assert Answer(r.id).fid == r.id;
    }
    var l :| l in s.a.fs && s.a.fs[l].fid == r.id && Kin(s.b.rs[r].hdr, s.a.fs[l], l);
    assert l == k;
    forall h ensures Request(r.id, h) !in s.ab {
      assert Request(r.id, h) in s.ab ==> FrameOk(Request(r.id, h), s.a.fs, s.b.rs);
    }
  }

  /** A packet that is sent as it is gets handed on as it was exactly if it passes for IPv4. Every other one makes an
      assertion fail, or is taken for a control frame or for a compressed one, which comes out longer. */
  lemma PlainArrivesIff(p: Buffer, rs: Rflows, own: Flows, now: int)
    requires TotLen(p) <= |p|
    ensures var c := Image(Plain(p));
            Understood(rs, c) && Recv(own, rs, c, now).packet == Some(c) <==> LooksLikeIp(c)
  {
    hide LooksLikeIp;
    var c := Image(Plain(p));
    if LooksLikeIp(c) {
      IpIsLong(c);
      assert FromBe16(c, 2) == TotLen(p) && c[..|c|] == c;
    } else if Understood(rs, c) && Type(c) != CTL {
      RestoredIsLonger(rs[RkeyOf(c)].hdr, c);
    }
  }

  lemma RestoredIsLonger(h: Hdr, c: seq<u8>)
    requires Restorable(h, c)
    ensures |Restore(h, c)| > |c|
  {
    RestoredTail(h, c);
    RestoredParts(h, c);
    hide Restore, Csum.Csum;
    assert |RestoredSegment(h, c)| + 20 > |c|;
  }

  /** A packet of IP version 6 never passes for IPv4: it is taken for a compressed TCP segment of the flow that its
      second and third byte name. An assertion fails exactly if there is no such flow. The lengths fit unless the packet
      is very short, since the low bits of its first byte announce at most four bytes more. If the flow is not one of
      TCP, a header is copied that was never stored; otherwise a packet is handed on that nobody sent. */
  lemma Ipv6IsMisread(p: Buffer, rs: Rflows)
    requires 3 <= TotLen(p) <= |p| && p[0] / 16 == 6
    ensures var c, key := Image(Plain(p)), Rkey(p[1], p[2]);
            var announced := (if p[0] / 8 % 2 == 1 then 2 else 0) + if 1 <= p[0] % 8 <= 4 then 0 else 2;
            && !Compactable(p) && !LooksLikeIp(c)
            && (Passes(rs, c) <==> key in rs && TotLen(p) >= 9 + announced)
            && (Understood(rs, c) <==> Passes(rs, c) && WellShaped(rs[key].hdr) && rs[key].hdr.ip[9] == TCP)
  {
    var c, b := Image(Plain(p)), p[0] as int;
    assert c[0] == p[0] && c[1] == p[1] && c[2] == p[2];
    FirstByte(b);
  }

  /** What recv_tcp reads out of the first byte of a version 6 packet. */
  lemma FirstByte(b: nat)
    requires b / 16 == 6
    ensures b / 64 == FRAME_TCP
    ensures var i := b % 64;
            && HasSeq(i) && !HasAck(i)
            && (HasWindow(i) <==> b / 8 % 2 == 1) && (Urgent(i) <==> !(1 <= b % 8 <= 4))
  {
    var low := b - 96;
    assert b % 64 == 32 + low && 0 <= low < 16;
  }

  /** What of packet p arrives in r, if it was compressed on a flow with headers h: the addresses, the protocol and
      the length; of RAW also the IP id and the fragment field without DF; and everything behind the IP header exactly
      if the flow can carry it. */
  predicate ArrivesAs(p: Buffer, h: Hdr, r: seq<u8>) {
    && Compressible(KeyOf(p), p) && WellShaped(h) && h.ip[9] == p[9] && |r| >= 20
    && r[9] == p[9] && r[12..20] == p[12..20] && FromBe16(r, 2) == |r|
    && (KeyOf(p).ipid != 0 ==> FromBe16(r, 4) == IpId(p) && FromBe16(r, 6) == FragOff(p) % 0x4000)
    && (r[20..] == Segment(p) <==> Carried(h, p))
  }

  lemma DeliveredCompressed(fid: u8, p: Buffer, h: Hdr, stored: Hdr)
    requires Compressible(KeyOf(p), p) && !Starved(p) && OpenedBy(KeyOf(p), h)
    requires SameUpToId(stored, h) && (KeyOf(p).ipid != 0 ==> stored == h)
    ensures Restorable(stored, Compress(fid, KeyOf(p), p))
    ensures ArrivesAs(p, h, Restore(stored, Compress(fid, KeyOf(p), p)))
  {
    hide KeyOf, Compress, Restorable, Restore, Segment, HdrOf, Starved, TcpCarried;
    ProtocolOf(KeyOf(p), h, p);
    assert stored.ip[6..][3] == h.ip[6..][3];
    var q: Buffer :| KeyOf(q) == KeyOf(p) && HdrOf(q) == h;
    assert Belongs(stored, q);
    RestorableIff(fid, stored, p);
    RestoredHeader(fid, stored, q, p);
    RoundTrip(fid, stored, p);
    SameCarried(stored, h, p);
  }

  lemma SameCarried(stored: Hdr, h: Hdr, p: Buffer)
    requires Compressible(KeyOf(p), p) && SameUpToId(stored, h) && h.ip[9] == p[9] && stored.ip[9] == p[9]
    ensures Carried(stored, p) <==> Carried(h, p)
  {
    hide KeyOf, TcpCarried;
  }

  // ----- where the packets come from -----

  function Origin(f: Frame): Option<Buffer> {
    match f
    case Plain(p) => Some(p)
    case Compressed(_, p) => Some(p)
    case Untyped(_, _, p) => Some(p)
    case _ => None
  }

  /** Node b (or a) was given p to send before step i. */
  ghost predicate WasGiven(moves: seq<Move>, i: nat, byB: bool, p: Buffer) {
    exists j :: 0 <= j < i <= |moves| && moves[j].byB == byB && moves[j].act.Send? && moves[j].act.b == p
  }

  lemma SentOrigins(fs: Flows, pool: seq<u8>, b: Buffer, stale: Stale)
    ensures forall f :: f in multiset(SentFrames(fs, pool, b, stale)) ==> Origin(f).None? || Origin(f) == Some(b)
  {
    hide KeyOf, Compactable, HdrOf, Compressible;
  }

  /** A step adds no frame to a channel but what its sender sends, and answers. */
  lemma StepOrigins(s: System, act: Action, f: Frame)
    requires Enabled(s, act) && Safe(s, act) && Origin(f).Some?
    ensures var t := Step(s, act);
            && (f in t.ba ==> f in s.ba)
            && (f in t.ab ==> f in s.ab || (act.Send? && Origin(f) == Some(act.b)))
  {
    hide Recv, Xmit, Understood, CanSend, SentFrames;
    if act.Send? {
      SentOrigins(s.a.fs, s.a.pool, act.b, act.stale);
    }
  }

  lemma MoveOrigins(s: System, m: Move, f: Frame)
    requires MoveEnabled(s, m) && MoveSafe(s, m) && Origin(f).Some?
    ensures var t := Next(s, m);
            && (f in t.ba ==> f in s.ba || (m.byB && m.act.Send? && Origin(f) == Some(m.act.b)))
            && (f in t.ab ==> f in s.ab || (!m.byB && m.act.Send? && Origin(f) == Some(m.act.b)))
  {
    hide Enabled, Safe, Step;
    StepOrigins(if m.byB then Flip(s) else s, m.act, f);
  }

  /** Every packet in flight was given to the node it comes from. */
  lemma {:induction false} InFlightWasGiven(states: seq<System>, moves: seq<Move>, i: nat, f: Frame)
    requires Run(states, moves) && i <= |moves| && Origin(f).Some?
    ensures f in states[i].ba ==> WasGiven(moves, i, true, Origin(f).value)
    ensures f in states[i].ab ==> WasGiven(moves, i, false, Origin(f).value)
  {
    hide MoveEnabled, MoveSafe, Next, Inv;
    if i > 0 {
      RunOk(states, moves, i - 1);
      MoveOrigins(states[i - 1], moves[i - 1], f);
      InFlightWasGiven(states, moves, i - 1, f);
      GivenEarlier(moves, i - 1, true, Origin(f).value);
      GivenEarlier(moves, i - 1, false, Origin(f).value);
    }
  }

  lemma GivenEarlier(moves: seq<Move>, i: nat, byB: bool, p: Buffer)
    requires i < |moves|
    ensures WasGiven(moves, i, byB, p) ==> WasGiven(moves, i + 1, byB, p)
    ensures moves[i].byB == byB && moves[i].act.Send? && moves[i].act.b == p ==> WasGiven(moves, i + 1, byB, p)
  {
  }

  /** What node a hands on is what b was given: an uncompressed packet byte for byte, a compressed one as far as the
      headers of its flow allow. Nothing else is handed on. */
  lemma DeliveredIsSent(states: seq<System>, moves: seq<Move>, i: nat, f: Frame, now: int)
    requires Run(states, moves) && i <= |moves| && f in states[i].ba
    ensures Origin(f).Some? ==> WasGiven(moves, i, true, Origin(f).value)
    ensures var s := states[i];
            && Understood(s.a.rs, Image(f))
            && var r := Recv(s.a.fs, s.a.rs, Image(f), now).packet;
               match f
               case Plain(p) => TotLen(p) <= |p| && r == Some(p[..TotLen(p)])
               case Compressed(_, p) => KeyOf(p) in s.b.fs && r.Some? && ArrivesAs(p, s.b.fs[KeyOf(p)].hdr, r.value)
               case Untyped(_, _, p) => r.Some? && UntypedAs(p, r.value)
               case _ => r == None
  {
    hide Init, MoveEnabled, MoveSafe, Next, Understood, KeyOf, Compressible, LooksLikeIp, Starved;
    hide ArrivesAs, Recv, Restorable, Restore;
    RunOk(states, moves, i);
    if Origin(f).Some? {
      InFlightWasGiven(states, moves, i, f);
    }
    var s := states[i];
    EveryFrameUnderstood(s, f);
    FramesOk(s.b.fs, s.b.pool, s.a.rs, s.ba, s.ab, f);
    match f {
      case Plain(_) => PlainArrives(f, s.b.fs, s.a.rs, s.a.fs, now);
      case Request(_, _) =>
        RequestKeepsDirection(s.b.fs, s.b.pool, s.a.rs, s.ba, s.ab, f, now);
        RequestArrives(f, s.b.fs, s.a.rs, s.a.fs, now);
      case Compressed(fid, p) =>
        CompressedReady(s.b.fs, s.b.pool, s.a.rs, s.ba, s.ab, f);
        CompressedArrives(f, s.b.fs, s.a.rs, s.a.fs, now);
        DeliveredCompressed(fid, p, s.b.fs[KeyOf(p)].hdr, s.a.rs[Rkey(MYMAC, fid)].hdr);
      case Untyped(t, fid, p) =>
        UntypedReady(s.b.fs, s.b.pool, s.a.rs, s.ba, s.ab, f);
        UntypedArrivesIff(t, fid, p, s.a.rs, s.a.fs, now);
      case Answer(_) => AnswerArrives(f, s.a.rs, s.a.fs, now);
    }
  }
}
