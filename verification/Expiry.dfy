/** What becomes of the agreement between two nodes when timer_event has run and flows have expired. */
module Expiry {
  import opened Bytes
  import opened Headers
  import opened Codec
  import opened CodecTheorems
  import opened Flows
  import opened Handshake

  /** timer_event keeps the received flows whose time has not come. */
  function Remaining(rs: Rflows, now: int): Rflows {
    map r | r in rs && now < rs[r].timeout :: rs[r]
  }

  /** A request or a compressed frame gives its flow the full interval at the receiver, and no other flow anything. */
  lemma ReceivedFlowLives(fs: Flows, rs: Rflows, c: seq<u8>, now: int, later: int)
    requires Understood(rs, c) && !LooksLikeIp(c) && (Type(c) == CTL ==> Info(c) == REQ)
    ensures var qs := Recv(fs, rs, c, now).rflows;
            && (RkeyOf(c) in Remaining(qs, later) <==> later < now + SOFT_TIMEOUT_INTERVAL)
            && forall r :: r != RkeyOf(c) ==>
                 (r in Remaining(qs, later) <==> r in Remaining(rs, later)) && (r in rs ==> r in qs && qs[r] == rs[r])
  {
    hide LooksLikeIp, Restorable, Restore, HdrAfter, LengthsFit, ReqFits, ReqHdr, BuildAck;
  }

  lemma CompressedAfter(rs: Rflows, c: seq<u8>, t: int)
    requires Understood(rs, c) && !LooksLikeIp(c) && Type(c) != CTL
    ensures RkeyOf(c) in rs
    ensures Passes(Remaining(rs, t), c) <==> t < rs[RkeyOf(c)].timeout
    ensures Understood(Remaining(rs, t), c) <==> t < rs[RkeyOf(c)].timeout
  {
    hide LooksLikeIp, Restorable, LengthsFit;
  }

  lemma RequestAfter(rs: Rflows, fid: u8, h: Hdr)
    requires WellShaped(h)
    ensures Understood(rs, BuildCtl(fid, h)) <==> Rkey(MYMAC, fid) !in rs
  {
    hide LooksLikeIp, ReqFits, ReqHdr, BuildCtl, BuildAck, Info, Type;
    RequestRoundTrip(fid, h);
  }

  /** The flow that a frame needs is known and its time has not come. */
  predicate StillThere(rs: Rflows, f: Frame, t: int) {
    f.Compressed? || f.Untyped? ==> Rkey(MYMAC, f.fid) in rs && t < rs[Rkey(MYMAC, f.fid)].timeout
  }

  lemma PlainAfter(s: System, f: Frame, t: int)
    requires Inv(s) && f in s.ba && f.Plain?
    ensures Understood(Remaining(s.a.rs, t), Image(f)) && Passes(Remaining(s.a.rs, t), Image(f))
  {
    hide Direction, LooksLikeIp;
    FramesOk(s.b.fs, s.b.pool, s.a.rs, s.ba, s.ab, f);
    PlainArrives(f, s.b.fs, Remaining(s.a.rs, t), s.a.fs, t);
  }

  lemma RequestStays(s: System, f: Frame, t: int)
    requires Inv(s) && f in s.ba && f.Request?
    ensures Understood(Remaining(s.a.rs, t), Image(f)) && Passes(Remaining(s.a.rs, t), Image(f))
  {
    EveryFrameUnderstood(s, f);
    RequestKeepsDirection(s.b.fs, s.b.pool, s.a.rs, s.ba, s.ab, f, t);
    hide Direction, LooksLikeIp, Restorable, BuildCtl;
    RequestAfter(s.a.rs, f.fid, f.hdr);
    RequestAfter(Remaining(s.a.rs, t), f.fid, f.hdr);
  }

  lemma AnswerAfter(rs: Rflows, f: Frame, t: int)
    requires f.Answer?
    ensures Understood(Remaining(rs, t), Image(f)) && Passes(Remaining(rs, t), Image(f))
  {
    AnswerArrives(f, Remaining(rs, t), map[], t);
  }

  lemma CompressedNeeds(s: System, f: Frame, t: int)
    requires Inv(s) && f in s.ba && (f.Compressed? || f.Untyped?)
    ensures Passes(Remaining(s.a.rs, t), Image(f)) <==> StillThere(s.a.rs, f, t)
    ensures Understood(Remaining(s.a.rs, t), Image(f)) <==> StillThere(s.a.rs, f, t)
  {
    EveryFrameUnderstood(s, f);
    hide Direction, LooksLikeIp, Understood, Passes, Compress, KeyOf, Compressible, Starved, LongEnough;
    if f.Compressed? {
      CompressedReady(s.b.fs, s.b.pool, s.a.rs, s.ba, s.ab, f);
      CompressedShape(f.fid, f.p);
    } else {
      UntypedReady(s.b.fs, s.b.pool, s.a.rs, s.ba, s.ab, f);
      BareFits(s.a.rs[Rkey(MYMAC, f.fid)].hdr, f.fid);
    }
    CompressedAfter(s.a.rs, Image(f), t);
  }

  /** In every state of a run, a frame in flight is still understood after its receiver's timer exactly if the flow it
      needs has not expired there; if it has, an assertion fails. */
  lemma InFlightIff(s: System, f: Frame, t: int)
    requires Inv(s) && f in s.ba
    ensures Passes(Remaining(s.a.rs, t), Image(f)) <==> StillThere(s.a.rs, f, t)
    ensures Understood(Remaining(s.a.rs, t), Image(f)) <==> StillThere(s.a.rs, f, t)
  {
    hide Inv, Understood, Passes, Image, Remaining;
    match f {
      case Plain(_) => PlainAfter(s, f, t);
      case Request(_, _) => RequestStays(s, f, t);
      case Answer(_) => AnswerAfter(s.a.rs, f, t);
      case _ => CompressedNeeds(s, f, t);
    }
  }

  /** A packet to be sent when both timers have run, at a node with these flows and free ids left. */
  ghost predicate SafeNext(gs: Flows, free: seq<u8>, rs: Rflows, b: Buffer, t: int) {
    if !Compactable(b) then true
    else if KeyOf(b) !in gs then free == [] || Rkey(MYMAC, free[0]) !in Remaining(rs, t)
    else gs[KeyOf(b)].state == Established ==>
           Rkey(MYMAC, gs[KeyOf(b)].fid) in rs && t < rs[Rkey(MYMAC, gs[KeyOf(b)].fid)].timeout
  }

  lemma PlainNext(fs: Flows, rs: Rflows, b: Buffer, stale: Stale)
    requires CanSend(fs, b, stale)
    ensures Understood(rs, Image(Plain(b)))
  {
    hide LooksLikeIp, Understood;
    PlainArrives(Plain(b), fs, rs, fs, 0);
  }

  lemma KnownFlow(s: System, k: Key)
    requires Inv(s) && k in s.b.fs
    ensures s.b.fs[k].state != New
    ensures s.b.fs[k].state == Established ==> Rkey(MYMAC, s.b.fs[k].fid) in s.a.rs
  {
  }

  lemma EstablishedNext(s: System, b: Buffer, t: int, stale: Stale, f: Frame)
    requires var k := KeyOf(b);
             && Inv(s) && CanSend(Alive(s.b.fs, t), b, stale) && Compactable(b)
             && k in Alive(s.b.fs, t) && s.b.fs[k].state == Established
             && f == if Compressible(k, b) then Compressed(s.b.fs[k].fid, b) else Untyped(stale, s.b.fs[k].fid, b)
    ensures Understood(Remaining(s.a.rs, t), Image(f)) <==> StillThere(s.a.rs, f, t)
  {
    KnownFlow(s, KeyOf(b));
    hide Direction, LooksLikeIp, Understood, StillThere, KeyOf, Compressible, Starved, LongEnough, Compactable;
    assert FrameOk(f, s.b.fs, s.a.rs);
    OneMoreFrame(s.b.fs, s.b.pool, s.a.rs, s.ba, s.ab, f);
    FewerFrames(s.a.fs, s.a.pool, s.b.rs, s.ab, s.ba, s.ab, s.ba + multiset{f});
    InFlightIff(s.(ba := s.ba + multiset{f}), f, t);
  }

  ghost predicate AllUnderstood(rs: Rflows, frames: seq<Frame>) {
    forall f :: f in frames ==> Understood(rs, Image(f))
  }

  lemma OneOrTwo(rs: Rflows, f: Frame, g: Frame)
    ensures AllUnderstood(rs, [f]) <==> Understood(rs, Image(f))
    ensures AllUnderstood(rs, [f, g]) <==> Understood(rs, Image(f)) && Understood(rs, Image(g))
  {
    hide Understood, Image;
    assert f in [f] && f in [f, g] && g in [f, g];
  }

  /** When both timers have run, the frames for the next packet are understood exactly if the flow, when it is still
      established at the sender, has not expired at the receiver; and if it is gone at the sender, and its packet opens
      a new one, the id of that one is not still known to the receiver from an old one. */
  lemma NextPacketIff(s: System, b: Buffer, t: int, stale: Stale, free: seq<u8>)
    requires Inv(s) && CanSend(Alive(s.b.fs, t), b, stale)
    ensures AllUnderstood(Remaining(s.a.rs, t), SentFrames(Alive(s.b.fs, t), free, b, stale))
       <==> SafeNext(Alive(s.b.fs, t), free, s.a.rs, b, t)
  {
    hide Inv, KeyOf, Compactable, HdrOf, LooksLikeIp, Understood, CanSend, BuildCtl, Compressible, AllUnderstood, Image;
    var gs, rs, k := Alive(s.b.fs, t), Remaining(s.a.rs, t), KeyOf(b);
    PlainNext(gs, rs, b, stale);
    OneOrTwo(rs, Plain(b), Plain(b));
    if !Compactable(b) {
    } else if k !in gs {
      NewNext(gs, rs, b, stale, free);
    } else {
      KnownFlow(s, k);
      if gs[k].state == Established {
        var f := SentFrames(gs, free, b, stale)[0];
        EstablishedNext(s, b, t, stale, f);
        OneOrTwo(rs, f, f);
      }
    }
  }

  lemma NewNext(gs: Flows, rs: Rflows, b: Buffer, stale: Stale, free: seq<u8>)
    requires Compactable(b) && KeyOf(b) !in gs && Understood(rs, Image(Plain(b)))
    ensures AllUnderstood(rs, SentFrames(gs, free, b, stale)) <==> free == [] || Rkey(MYMAC, free[0]) !in rs
  {
    hide KeyOf, Compactable, HdrOf, LooksLikeIp, Understood, BuildCtl;
    if free != [] {
      RequestAfter(rs, free[0], HdrOf(b));
      OneOrTwo(rs, Request(free[0], HdrOf(b)), Plain(b));
    }
  }
}
