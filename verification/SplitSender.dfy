/** Every step of the sender keeps the protocol invariant. */
module SplitSender {
  import opened Bytes
  import opened Packets
  import opened Frames
  import opened Bitmap
  import opened SplitRun
  import opened SplitInv
  import Slicing
  import S = Sender

  /** `t` differs from `s` as a step of the sender may make it differ: the frames `added` are new on the link. */
  ghost predicate SenderStep(l: Link, s: System, t: System, added: seq<Tagged>)
    requires MessagesOk(t.sent)
  {
    && t.rcv == s.rcv && t.cur == s.cur && t.clean == s.clean && t.delivered == s.delivered
    && s.sent <= t.sent && t.start == s.start && Base(s) <= Base(t)
    && |added| <= 1 && t.toR == s.toR + added
    && (t.toS == s.toS || (s.toS != [] && t.toS == s.toS[1..]))
    && (forall x :: x in added ==> ToReceiverOk(l, ViewOf(t), x) && (x.frame.Ackr? || x.num == Base(t)))
    && t.acked <= Done(t.delivered)
    && t.transmitted
       == s.transmitted + (if added != [] && added[0].frame.Data? then multiset{added[0].num} else multiset{})
    && forall n: nat :: t.transmitted[n] <= Allowed(t, n)
  }

  lemma SenderStepChannels(l: Link, s: System, t: System, added: seq<Tagged>)
    requires Inv(l, s) && SenderOk(l, t) && SenderStep(l, s, t, added)
    ensures ChannelsOk(l, t)
  {
    var v, w := ViewOf(s), ViewOf(t);
    forall i | 0 <= i < |t.toR| ensures ToReceiverOk(l, w, t.toR[i]) {
      if i < |s.toR| {
        ToReceiverGrows(l, v, w, s.toR[i]);
      } else {
        assert t.toR[i] in added;
      }
    }
    forall i | 0 <= i < |t.toS| ensures ToSenderOk(l, w, t.toS[i]) {
      ToSenderGrows(l, v, w, if t.toS == s.toS then s.toS[i] else s.toS[i + 1]);
    }
    forall i, j | 0 <= i < j < |t.toR| && !t.toR[i].frame.Ackr? && !t.toR[j].frame.Ackr?
      ensures t.toR[i].num <= t.toR[j].num
    {
      assert ToReceiverOk(l, v, s.toR[i]);
      if j == |s.toR| {
        assert t.toR[j] in added;
      }
    }
  }

  lemma SenderStepCounts(l: Link, s: System, t: System, added: seq<Tagged>)
    requires CountOk(s) && MessagesOk(t.sent) && SenderStep(l, s, t, added)
    ensures CountOk(t)
  {
    forall n: nat ensures Times(t.delivered, n) + Pending(t, n) + InFlight(t.toR, n) <= t.transmitted[n] {
      assert Times(s.delivered, n) + Pending(s, n) + InFlight(s.toR, n) <= s.transmitted[n];
      InFlightAppend(s.toR, added, n);
      if added != [] {
        assert added == [added[0]];
        InFlightOne(added[0], n);
      }
    }
  }

  lemma SenderStepKeeps(l: Link, s: System, t: System, added: seq<Tagged>)
    requires Inv(l, s) && SenderOk(l, t) && SenderStep(l, s, t, added)
    ensures Inv(l, t)
  {
    var v, w := ViewOf(s), ViewOf(t);
    SenderStepChannels(l, s, t, added);
    SenderStepCounts(l, s, t, added);
    if s.rcv.Some? {
      SessionGrows(l, v, w, s.rcv.value, s.clean);
    }
    forall i | 0 <= i < |t.delivered| ensures DeliveryOk(l, w, t.delivered[i]) {
      DeliveryGrows(l, v, w, s.delivered[i]);
    }
  }

  /** Each DATA frame uses up one of the transmissions its packet is allowed. */
  ghost predicate Paid(s: System, t: System, out: seq<Frame>) {
    forall n: nat :: Allowed(s, n) + (if out != [] && out[0].Data? && n == Base(t) then 1 else 0) <= Allowed(t, n)
  }

  /** A frame the sender may queue: the head's DATA, a patch of the head, or a request. */
  ghost predicate Sendable(l: Link, t: System, f: Frame)
    requires MessagesOk(t.sent)
  {
    match f
    case Data(_, _, _, _, _, _) => Queue(t) != [] && f == DataFrame(Queue(t)[0])
    case Patch(_, _, _, _) => 0 <= Base(t) && ToReceiverOk(l, ViewOf(t), Tagged(Base(t), f))
    case Ackr(src, dst, _) => src == l.a && dst == l.b
    case _ => false
  }

  lemma Moved(l: Link, s: System, mid: System, t: System, snd: Option<S.State>, out: seq<Frame>, now: int)
    requires Inv(l, s) && SenderOk(l, t)
    requires mid == s.(sent := mid.sent, acked := mid.acked, toS := mid.toS, clock := mid.clock)
    requires |out| <= 1 && t == SenderMoves(mid, snd, out, now)
    requires s.sent <= t.sent && Base(s) <= Base(t)
    requires t.toS == s.toS || (s.toS != [] && t.toS == s.toS[1..])
    requires t.acked <= Done(t.delivered)
    requires (out != [] ==> Sendable(l, t, out[0])) && Paid(s, t, out)
    ensures Inv(l, t)
  {
    hide ChannelsOk, HistoryOk, Done, SenderStep, ToReceiverOk, PacketOf, MakePacket, S.Inv, SessionOk, Allowed;
    MovedStep(l, s, mid, t, snd, out, now);
    SenderStepKeeps(l, s, t, Tag(out, Base(t), if |t.sent| == 0 then 0 else |t.sent| - 1));
  }

  lemma MovedStep(l: Link, s: System, mid: System, t: System, snd: Option<S.State>, out: seq<Frame>, now: int)
    requires s.cur <= Base(s) && CountOk(s) && SenderOk(l, t)
    requires mid == s.(sent := mid.sent, acked := mid.acked, toS := mid.toS, clock := mid.clock)
    requires |out| <= 1 && t == SenderMoves(mid, snd, out, now)
    requires s.sent <= t.sent && Base(s) <= Base(t)
    requires t.toS == s.toS || (s.toS != [] && t.toS == s.toS[1..])
    requires t.acked <= Done(t.delivered)
    requires (out != [] ==> Sendable(l, t, out[0])) && Paid(s, t, out)
    ensures SenderStep(l, s, t, Tag(out, Base(t), if |t.sent| == 0 then 0 else |t.sent| - 1))
  {
    hide Done, ToReceiverOk, Sendable, S.Inv, Allowed, CountOk, Paid, PacketOf, MessagesOk;
    var added := Tag(out, Base(t), if |t.sent| == 0 then 0 else |t.sent| - 1);
    if out != [] {
      SendableTagged(l, t, added[0]);
    }
    PaidFor(s, t, out);
  }

  lemma PaidFor(s: System, t: System, out: seq<Frame>)
    requires CountOk(s) && Paid(s, t, out) && 0 <= Base(t) && |out| <= 1
    requires t.transmitted == s.transmitted + DataSent(out, Base(t))
    ensures forall n: nat :: t.transmitted[n] <= Allowed(t, n)
  {
    forall n: nat ensures t.transmitted[n] <= Allowed(t, n) {
      assert s.transmitted[n] <= Allowed(s, n);
    }
  }

  lemma SendableTagged(l: Link, t: System, x: Tagged)
    requires SenderOk(l, t) && t.cur <= Base(t) && Sendable(l, t, x.frame)
    requires x.frame.Ackr? || x.num == Base(t)
    ensures ToReceiverOk(l, ViewOf(t), x)
  {
    if x.frame.Data? {
      assert Queue(t)[0] == PacketOf(l, ViewOf(t), Base(t));
    }
  }

  // ----- upper_send -----

  /** A new session may start its numbering at the next packet: nothing of the old one is left. */
  lemma Renewed(l: Link, s: System)
    requires Inv(l, s) && s.snd.None? && s.rcv.None? && s.toR == [] && s.toS == []
    ensures Inv(l, s.(start := |s.sent|))
  {
    var t := s.(start := |s.sent|);
    forall i | 0 <= i < |t.delivered| ensures DeliveryOk(l, ViewOf(t), t.delivered[i]) {
      DeliveryGrows(l, ViewOf(s), ViewOf(t), s.delivered[i]);
    }
    forall n: nat
      ensures Times(t.delivered, n) + Pending(t, n) + InFlight(t.toR, n) <= t.transmitted[n]
      ensures t.transmitted[n] <= Allowed(t, n)
    {
      assert Times(s.delivered, n) + Pending(s, n) + InFlight(s.toR, n) <= s.transmitted[n];
    }
  }

  lemma UpperSendKeeps(l: Link, s: System, act: Action)
    requires act.UpperSend? && Enabled(l, s, act) && Inv(l, s)
    ensures Inv(l, Next(l, s, act))
  {
    hide Inv, S.UpperSend;
    if act.msg == [] {
      ClockMoves(l, s, act.now);
    } else {
      MessageTaken(l, s, act);
    }
  }

  lemma MessageTaken(l: Link, s: System, act: Action)
    requires act.UpperSend? && act.msg != [] && Enabled(l, s, act) && Inv(l, s)
    ensures Inv(l, Next(l, s, act))
  {
    hide Inv, S.UpperSend;
    var s0 := s;
    if s.snd.None? {
      Renewed(l, s);
      s0 := s.(start := |s.sent|);
    }
    var k := if s.snd.Some? then s.snd.value.seqNo else 0;
    Slicing.AcceptedBounds(l.c, l.a, l.b, k, act.msg);
    var kept := act.msg[..Slicing.Accepted(l.c, l.a, l.b, k, act.msg)];
    var r := S.UpperSend(l.c, s.snd, l.a, l.b, act.msg, act.now);
    assert s0.(sent := s.sent + [kept])
        == s.(sent := s.sent + [kept], start := if s.snd.Some? then s.start else |s.sent|);
    SendStep(l, s0, act.msg, act.now, k, kept);
  }

  lemma SendStep(l: Link, s: System, msg: seq<u8>, now: int, k: u8, kept: seq<u8>)
    requires Inv(l, s) && msg != [] && s.clock <= now && (s.snd.None? ==> s.start == |s.sent|)
    requires k == if s.snd.Some? then s.snd.value.seqNo else 0
    requires Slicing.Accepted(l.c, l.a, l.b, k, msg) <= |msg| && kept == msg[..Slicing.Accepted(l.c, l.a, l.b, k, msg)]
    ensures var r := S.UpperSend(l.c, s.snd, l.a, l.b, msg, now);
            Inv(l, SenderMoves(s.(sent := s.sent + [kept]), Some(r.state), r.out, now))
  {
    hide ReceiverOk, ChannelsOk, HistoryOk, CountOk, Done, ToReceiverOk, Paid, PacketOf, MakePacket, SeqOf, S.UpperSend;
    hide S.Inv, S.Armed;
    var mid := s.(sent := s.sent + [kept]);
    var r := S.UpperSend(l.c, s.snd, l.a, l.b, msg, now);
    var t := SenderMoves(mid, Some(r.state), r.out, now);
    SendFacts(l, s, msg, now, k, kept);
    FirstSeq(s.start);
    QueueAfterSend(l, s, t);
    SendPaid(s, t, r.out);
    assert s.acked <= Done(s.delivered) by { AckedDelivered(l, s); }
    Moved(l, s, mid, t, Some(r.state), r.out, now);
  }

  lemma SendFacts(l: Link, s: System, msg: seq<u8>, now: int, k: u8, kept: seq<u8>)
    requires SenderOk(l, s) && msg != [] && s.clock <= now && k == if s.snd.Some? then s.snd.value.seqNo else 0
    requires Slicing.Accepted(l.c, l.a, l.b, k, msg) <= |msg| && kept == msg[..Slicing.Accepted(l.c, l.a, l.b, k, msg)]
    ensures 0 < |kept| <= MAX_MSG_LEN
    ensures var r := S.UpperSend(l.c, s.snd, l.a, l.b, msg, now);
            && r.state.queue == Queue(s) + [MakePacket(l.c, l.a, l.b, k, kept)] && r.state.seqNo == (k + 1) % 256
            && S.Inv(r.state) && S.Armed(r.state) && r.state.idleTimeout == now + IDLE_TIMEOUT
            && (if Queue(s) == [] then r.out == [DataFrame(r.state.queue[0])] else r.out == [])
            && (s.snd.Some? ==> S.Armed(s.snd.value) && r.state.dataRetry == s.snd.value.dataRetry)
  {
    hide Slicing.Accepted, Slices;
    S.UpperSendKeepsInv(l.c, s.snd, l.a, l.b, msg, now);
    Slicing.AcceptedBounds(l.c, l.a, l.b, k, msg);
  }

  lemma AckedDelivered(l: Link, s: System)
    requires Inv(l, s)
    ensures s.acked <= Done(s.delivered)
  {
  }

  lemma FirstSeq(start: nat)
    ensures SeqOf(start, start) == 0
  {
  }

  lemma NextSeq(start: nat, num: nat)
    requires start <= num
    ensures SeqOf(start, num + 1) == (SeqOf(start, num) + 1) % 256
  {
  }

  lemma SendPaid(s: System, t: System, out: seq<Frame>)
    requires t.snd.Some? && Base(s) == Base(t) && S.Armed(t.snd.value) && (s.snd.Some? ==> S.Armed(s.snd.value))
    requires s.snd.Some? ==> t.snd.value.dataRetry == s.snd.value.dataRetry
    requires Queue(s) != [] ==> out == [] && Queue(t) != []
    requires Queue(s) == [] ==> Queue(t) != []
    ensures Paid(s, t, out)
  {
  }

  lemma QueueAfterSend(l: Link, s: System, t: System)
    requires SenderOk(l, s) && t.snd.Some? && t.start == s.start && 0 <= t.clock
    requires |t.sent| == |s.sent| + 1 && s.sent == t.sent[..|s.sent|] && 0 < |t.sent[|s.sent|]| <= MAX_MSG_LEN
    requires Queue(t) == Queue(s) + [MakePacket(l.c, l.a, l.b, SeqOf(s.start, |s.sent|), t.sent[|s.sent|])]
    requires s.snd.None? ==> s.start == |s.sent|
    requires S.Inv(t.snd.value) && t.snd.value.idleTimeout <= t.clock + IDLE_TIMEOUT
    requires t.snd.value.seqNo == (SeqOf(s.start, |s.sent|) + 1) % 256
    ensures SenderOk(l, t) && Base(t) == Base(s)
  {
    assert t.sent == s.sent + [t.sent[|s.sent|]];
    NextSeq(s.start, |s.sent|);
    forall i | 0 <= i < |Queue(t)| ensures Queue(t)[i] == PacketOf(l, ViewOf(t), Base(t) + i) {
      if i < |Queue(s)| {
        assert Queue(s)[i] == PacketOf(l, ViewOf(s), Base(s) + i);
      }
    }
  }

  // ----- timeouts and acknowledgements -----

  /** After a step that kept the queue or removed its head, the session is still in order. */
  lemma QueueAfterPop(l: Link, s: System, t: System, q: S.State)
    requires SenderOk(l, s) && s.snd.Some? && t.snd == Some(q)
    requires t.sent == s.sent && t.start == s.start && s.clock <= t.clock
    requires q.queue == s.snd.value.queue || (s.snd.value.queue != [] && q.queue == s.snd.value.queue[1..])
    requires S.Inv(q) && q.idleTimeout <= t.clock + IDLE_TIMEOUT && q.seqNo == s.snd.value.seqNo
    ensures SenderOk(l, t) && Base(s) <= Base(t) <= Base(s) + 1
  {
    var p := s.snd.value.queue;
    forall i | 0 <= i < |q.queue| ensures q.queue[i] == PacketOf(l, ViewOf(t), Base(t) + i) {
      assert p[i + (|p| - |q.queue|)] == PacketOf(l, ViewOf(s), Base(s) + i + (|p| - |q.queue|));
    }
  }

  lemma SenderTimerKeeps(l: Link, s: System, act: Action)
    requires act.SenderTimer? && Enabled(l, s, act) && Inv(l, s)
    ensures Safe(l, s, act) && Inv(l, Next(l, s, act))
  {
    if s.snd.Some? {
      S.TimerKeepsInv(s.snd.value, act.now);
      var r := S.Timer(s.snd.value, act.now);
      var t := Next(l, s, act);
      if r.0.Some? {
        TimedOut(l, s, t, r.0.value, r.1, act.now);
      }
      Moved(l, s, s, t, r.0, r.1, act.now);
    } else {
      ClockMoves(l, s, act.now);
    }
  }

  lemma ClockMoves(l: Link, s: System, now: int)
    requires Inv(l, s) && s.clock <= now
    ensures Inv(l, s.(clock := now))
  {
    hide Done, ToReceiverOk, PacketOf;
    var t := s.(clock := now);
    assert SenderStep(l, s, t, []);
    SenderStepKeeps(l, s, t, []);
  }

  /** A turn of the timer that leaves the session in place. */
  lemma TimedOut(l: Link, s: System, t: System, q: S.State, out: seq<Frame>, now: int)
    requires SenderOk(l, s) && s.snd.Some? && s.clock <= now
    requires S.AckTimerDue(s.snd.value, now) ==> s.snd.value.queue != []
    requires (Some(q), out) == S.Timer(s.snd.value, now) && S.Inv(q)
    requires |out| <= 1 && t == SenderMoves(s, Some(q), out, now)
    ensures SenderOk(l, t) && Base(s) <= Base(t)
    ensures (out != [] ==> Sendable(l, t, out[0])) && Paid(s, t, out)
  {
    QueueAfterPop(l, s, t, q);
    if s.snd.value.queue != [] {
      assert s.snd.value.queue[0] == PacketOf(l, ViewOf(s), Base(s));
    }
  }

  /** The one place where sequence numbers are compared: an acknowledgement that matches the head and is
      less than 256 packets old is about the head. */
  lemma MatchMeansHead(l: Link, s: System, t: Tagged)
    requires SenderOk(l, s) && ReceiverOk(l, s) && s.snd.Some? && ToSenderOk(l, ViewOf(s), t)
    requires Base(s) - t.num < 256 && S.Answers(t.frame, s.snd.value)
    ensures t.num == Base(s) == s.cur
  {
    assert s.snd.value.queue[0] == PacketOf(l, ViewOf(s), Base(s));
  }

  lemma SenderTakesKeeps(l: Link, s: System, act: Action)
    requires act.SenderTakes? && Enabled(l, s, act) && Inv(l, s)
    ensures Safe(l, s, act) && Inv(l, Next(l, s, act))
  {
    var first := s.toS[0];
    assert ToSenderOk(l, ViewOf(s), first);
    var t := Next(l, s, act);
    if s.snd.None? {
      AckIgnored(l, s, act.now);
      return;
    }
    var q := s.snd.value;
    S.AckKeepsInv(q, first.frame, act.junk, act.now);
    if S.Answers(first.frame, q) {
      MatchMeansHead(l, s, first);
    }
    if first.frame.Acka? {
      AckAllStep(l, s, t, act.junk, act.now);
    } else {
      AckPartStep(l, s, t, act.junk, act.now);
    }
  }

  lemma AckIgnored(l: Link, s: System, now: int)
    requires Inv(l, s) && s.clock <= now && s.toS != [] && s.snd.None?
    ensures Inv(l, s.(toS := s.toS[1..], clock := now))
  {
    var t := s.(toS := s.toS[1..], clock := now);
    assert SenderStep(l, s, t, []);
    SenderStepKeeps(l, s, t, []);
  }

  lemma AckAllStep(l: Link, s: System, t: System, junk: nat -> Slice, now: int)
    requires Inv(l, s) && s.snd.Some? && s.toS != [] && s.clock <= now && s.toS[0].frame.Acka?
    requires s.acked <= Done(s.delivered)
    requires S.Answers(s.toS[0].frame, s.snd.value) ==> Base(s) in Done(s.delivered)
    requires t == Answered(s.(toS := s.toS[1..], clock := now), s.toS[0].frame, junk, now)
    ensures Inv(l, t)
  {
    hide ReceiverOk, ChannelsOk, HistoryOk, CountOk, Done, PacketOf, ToReceiverOk, Paid, S.Inv;
    var r := S.ProcAckAll(s.snd.value, s.toS[0].frame, now);
    S.AckKeepsInv(s.snd.value, s.toS[0].frame, junk, now);
    QueueAfterPop(l, s, t, r.state);
    AckAllPaid(s, t, s.toS[0].frame, now);
    Moved(l, s, s.(acked := t.acked, toS := t.toS, clock := now), t, Some(r.state), r.out, now);
  }

  lemma AckAllPaid(s: System, t: System, f: Frame, now: int)
    requires s.snd.Some? && S.Inv(s.snd.value) && 0 <= now && |t.sent| == |s.sent|
    requires t.snd == Some(S.ProcAckAll(s.snd.value, f, now).state) && S.Inv(t.snd.value)
    ensures Paid(s, t, S.ProcAckAll(s.snd.value, f, now).out)
  {
  }

  lemma AckPartStep(l: Link, s: System, t: System, junk: nat -> Slice, now: int)
    requires Inv(l, s) && s.snd.Some? && s.toS != [] && s.clock <= now && s.toS[0].frame.Ackp?
    requires S.Answers(s.toS[0].frame, s.snd.value) ==> s.toS[0].num == Base(s) == s.cur
    requires s.acked <= Done(s.delivered) && ToSenderOk(l, ViewOf(s), s.toS[0])
    requires t == Answered(s.(toS := s.toS[1..], clock := now), s.toS[0].frame, junk, now)
    ensures Inv(l, t)
  {
    hide ReceiverOk, ChannelsOk, HistoryOk, CountOk, Done, S.Inv, S.SendPatch;
    var f := s.toS[0].frame;
    var r := S.ProcAckPart(s.snd.value, f, junk, now);
    S.AckKeepsInv(s.snd.value, f, junk, now);
    QueueAfterPop(l, s, t, r.state);
    if S.Answers(f, s.snd.value) {
      assert s.snd.value.queue[0] == PacketOf(l, ViewOf(s), Base(s));
      PatchOk(l, s, t, f.missing, junk);
    }
    Moved(l, s, s.(toS := t.toS, clock := now), t, Some(r.state), r.out, now);
  }

  /** The patch sent for a request of the receiver holds slices of the head packet only. */
  lemma PatchOk(l: Link, s: System, t: System, missing: seq<u8>, junk: nat -> Slice)
    requires SenderOk(l, s) && Queue(s) != [] && Queue(s)[0] == PacketOf(l, ViewOf(s), Base(s))
    requires ViewOf(t) == ViewOf(s) && s.cur == Base(s)
    requires missing != [] && Increasing(missing)
    requires forall i :: 0 <= i < |missing| ==> missing[i] < SliceCount(|s.sent[Base(s)]|)
    ensures var out := S.SendPatch(Queue(s)[0], missing, junk);
            |out| == 1 && out[0].Patch? && ToReceiverOk(l, ViewOf(t), Tagged(Base(s), out[0]))
  {
    var p := Queue(s)[0];
    IncreasingBound(missing, |p.slices|);
    S.SendPatchExact(p, missing, junk);
  }

  lemma {:induction false} IncreasingBound(s: seq<nat>, n: nat)
    requires Increasing(s) && forall i :: 0 <= i < |s| ==> s[i] < n
    ensures |s| <= n
  {
    if s != [] {
      var last := |s| - 1;
      IncreasingBound(s[..last], s[last]);
    }
  }
}
