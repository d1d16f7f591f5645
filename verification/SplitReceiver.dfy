/** Every step of the receiver and of the channels keeps the protocol invariant. */
module SplitReceiver {
  import opened Bytes
  import opened Packets
  import opened Frames
  import opened Bitmap
  import opened SplitContent
  import opened SplitRun
  import opened SplitInv
  import S = Sender
  import R = Receiver

  // ----- losses and expiry -----

  lemma LoseToReceiverKeeps(l: Link, s: System, i: nat)
    requires Inv(l, s) && i < |s.toR|
    ensures Inv(l, s.(toR := Cut(s.toR, i)))
  {
    hide Done, PacketOf, S.Inv, SessionOk, CountOk;
    var t := s.(toR := Cut(s.toR, i));
    forall k | 0 <= k < |t.toR| ensures t.toR[k] == s.toR[if k < i then k else k + 1] {
    }
    LossCounts(s, i);
  }

  lemma LossCounts(s: System, i: nat)
    requires CountOk(s) && i < |s.toR|
    ensures CountOk(s.(toR := Cut(s.toR, i)))
  {
    var t := s.(toR := Cut(s.toR, i));
    forall n: nat
      ensures Times(t.delivered, n) + Pending(t, n) + InFlight(t.toR, n) <= t.transmitted[n] <= Allowed(t, n)
    {
      InFlightCut(s.toR, i, n);
      assert Times(s.delivered, n) + Pending(s, n) + InFlight(s.toR, n) <= s.transmitted[n];
    }
  }

  lemma LoseToSenderKeeps(l: Link, s: System, i: nat)
    requires Inv(l, s) && i < |s.toS|
    ensures Inv(l, s.(toS := Cut(s.toS, i)))
  {
    hide Done, PacketOf, S.Inv, SessionOk, CountOk;
    var t := s.(toS := Cut(s.toS, i));
    forall k | 0 <= k < |t.toS| ensures t.toS[k] == s.toS[if k < i then k else k + 1] {
    }
    SameCounts(s, t);
  }

  /** Counting does not look at the frames to the sender or the clock, and forgetting a session only lowers it. */
  lemma SameCounts(s: System, t: System)
    requires CountOk(s) && t == s.(toS := t.toS, clock := t.clock, rcv := t.rcv) && (t.rcv == s.rcv || t.rcv.None?)
    ensures CountOk(t)
  {
    forall n: nat
      ensures Times(t.delivered, n) + Pending(t, n) + InFlight(t.toR, n) <= t.transmitted[n] <= Allowed(t, n)
    {
      assert Times(s.delivered, n) + Pending(s, n) + InFlight(s.toR, n) <= s.transmitted[n];
    }
  }

  /** The receiver may forget everything at any time. */
  lemma ReceiverTimerKeeps(l: Link, s: System, now: int, keep: bool)
    requires Inv(l, s) && s.clock <= now
    ensures Inv(l, s.(clock := now, rcv := if keep then s.rcv else None))
  {
    hide Done, PacketOf, S.Inv, SessionOk, CountOk;
    var t := s.(clock := now, rcv := if keep then s.rcv else None);
    SameCounts(s, t);
  }

  // ----- a frame taken by the receiver -----

  /** `t` is `s` after the receiver turned the first frame into `r` while receiving packet `cur`. */
  ghost predicate ReceiverStep(l: Link, s: System, t: System, r: R.Step, cur: nat, clean: bool, now: int) {
    && s.toR != [] && s.cur <= cur && s.clock <= now && |r.out| <= 1 && |r.up| <= 1
    && t == ReceiverMoves(s.(toR := s.toR[1..], clock := now), r, cur, clean, now)
  }

  lemma SenderUntouched(l: Link, s: System, t: System)
    requires SenderOk(l, s) && t.snd == s.snd && t.sent == s.sent && t.start == s.start && s.clock <= t.clock
    ensures SenderOk(l, t)
  {
  }

  lemma ReceiverStepChannels(l: Link, s: System, t: System, r: R.Step, cur: nat, clean: bool, now: int)
    requires SenderOk(l, s) && ChannelsOk(l, s) && ReceiverStep(l, s, t, r, cur, clean, now)
    requires cur == s.cur || (s.toR[0].frame.Data? && s.toR[0].num == cur)
    requires r.out != [] ==> ToSenderOk(l, ViewOf(t), Tagged(cur, r.out[0])) && !r.out[0].Ackr?
    ensures ChannelsOk(l, t)
  {
    var v, w := ViewOf(s), ViewOf(t);
    DoneAppend(s.delivered, Deliveries(r.up, cur, clean));
    forall i | 0 <= i < |t.toR| ensures ToReceiverOk(l, w, t.toR[i]) {
      assert t.toR[i] == s.toR[i + 1] && ToReceiverOk(l, v, s.toR[i + 1]) && ToReceiverOk(l, v, s.toR[0]);
    }
    forall i | 0 <= i < |t.toS| ensures ToSenderOk(l, w, t.toS[i]) {
      if i < |s.toS| {
        ToSenderGrows(l, v, w, s.toS[i]);
      }
    }
  }

  lemma ReceiverStepHistory(l: Link, s: System, t: System, r: R.Step, cur: nat, clean: bool, now: int)
    requires HistoryOk(l, s) && ReceiverStep(l, s, t, r, cur, clean, now)
    requires r.up != [] ==> DeliveryOk(l, ViewOf(t), Delivery(cur, r.up[0], clean))
    ensures HistoryOk(l, t)
  {
    DoneAppend(s.delivered, Deliveries(r.up, cur, clean));
    forall i | 0 <= i < |t.delivered| ensures DeliveryOk(l, ViewOf(t), t.delivered[i]) {
      if i < |s.delivered| {
        DeliveryGrows(l, ViewOf(s), ViewOf(t), s.delivered[i]);
      }
    }
    forall i, j | 0 <= i < j < |t.delivered| ensures t.delivered[i].num <= t.delivered[j].num {
      assert DeliveryOk(l, ViewOf(s), s.delivered[i]);
    }
  }

  lemma ReceiverStepCounts(l: Link, s: System, t: System, r: R.Step, cur: nat, clean: bool, now: int)
    requires CountOk(s) && ReceiverStep(l, s, t, r, cur, clean, now)
    requires r.up == [] ==> s.toR[0].frame.Data? || (cur == s.cur && Pending(t, cur) <= Pending(s, cur))
    requires r.up != [] ==> cur == s.cur && Pending(s, cur) == 1 && r.state.completed
    requires s.toR[0].frame.Data? ==> cur == s.toR[0].num && r.up == []
    ensures CountOk(t)
  {
    forall n: nat
      ensures Times(t.delivered, n) + Pending(t, n) + InFlight(t.toR, n) <= t.transmitted[n] <= Allowed(t, n)
    {
      hide InFlight;
      assert Times(s.delivered, n) + Pending(s, n) + InFlight(s.toR, n) <= s.transmitted[n];
      assert s.toR[1..] == Cut(s.toR, 0);
      InFlightCut(s.toR, 0, n);
      if r.up != [] {
        TimesAppendOne(s.delivered, Delivery(cur, r.up[0], clean), n);
      } else {
        assert t.delivered == s.delivered;
      }
      assert Allowed(t, n) == Allowed(s, n);
    }
  }

  /** What the receiver answers for the packet it is set up for. */
  lemma AckOk(l: Link, v: View, r: R.State, clean: bool)
    requires MessagesOk(v.sent) && SessionOk(l, v, r, clean)
    ensures var out := R.SendAck(r, l.a, l.b);
            out != [] ==> ToSenderOk(l, v, Tagged(v.cur, out[0])) && !out[0].Ackr?
  {
    MissingExact(r.bits, 0, r.nSlices);
    R.SliceNumbers(r.bits, r.nSlices);
  }

  /** What the invariant says about the first frame and the session that takes it. */
  lemma InFrontOk(l: Link, s: System)
    requires Inv(l, s) && s.toR != []
    ensures MessagesOk(s.sent) && ToReceiverOk(l, ViewOf(s), s.toR[0]) && s.cur < |s.sent| && s.cur <= Base(s)
    ensures s.rcv.Some? ==> s.cur >= 0 && SessionOk(l, ViewOf(s), s.rcv.value, s.clean) && R.Inv(s.rcv.value)
  {
    hide Done, PacketOf, CountOk, HistoryOk, S.Inv;
  }

  lemma AckrTaken(l: Link, s: System, now: int)
    requires Inv(l, s) && s.clock <= now && s.toR != [] && s.rcv.Some? && R.Sized(s.rcv.value) && s.cur >= 0
    requires s.toR[0].frame.Ackr?
    ensures var r := R.ProcAckReq(s.rcv.value, s.toR[0].frame, now);
            Inv(l, ReceiverMoves(s.(toR := s.toR[1..], clock := now), r, s.cur, s.clean, now))
  {
    InFrontOk(l, s);
    hide Inv, SenderOk, ChannelsOk, HistoryOk, CountOk, Done, R.SendAck;
    var r := R.ProcAckReq(s.rcv.value, s.toR[0].frame, now);
    var t := ReceiverMoves(s.(toR := s.toR[1..], clock := now), r, s.cur, s.clean, now);
    assert s.delivered + [] == s.delivered;
    assert t.delivered == s.delivered + [] == s.delivered;
    assert SessionOk(l, ViewOf(t), r.state, s.clean);
    AckOk(l, ViewOf(t), r.state, s.clean);
    StepsKeep(l, s, t, r, s.cur, s.clean, now);
  }

  lemma StepsKeep(l: Link, s: System, t: System, r: R.Step, cur: nat, clean: bool, now: int)
    requires Inv(l, s) && ReceiverStep(l, s, t, r, cur, clean, now)
    requires cur == s.cur || (s.toR[0].frame.Data? && s.toR[0].num == cur)
    requires cur < |s.sent| && cur <= Base(s) && SessionOk(l, ViewOf(t), r.state, clean)
    requires r.out != [] ==> ToSenderOk(l, ViewOf(t), Tagged(cur, r.out[0])) && !r.out[0].Ackr?
    requires r.up != [] ==> DeliveryOk(l, ViewOf(t), Delivery(cur, r.up[0], clean))
    requires r.up == [] ==> s.toR[0].frame.Data? || (cur == s.cur && Pending(t, cur) <= Pending(s, cur))
    requires r.up != [] ==> cur == s.cur && Pending(s, cur) == 1 && r.state.completed
    requires s.toR[0].frame.Data? ==> cur == s.toR[0].num && r.up == []
    ensures Inv(l, t)
  {
    hide SessionOk, HistoryOk, ChannelsOk, CountOk, SenderOk, PacketOf, Done;
    SenderUntouched(l, s, t);
    ReceiverStepChannels(l, s, t, r, cur, clean, now);
    ReceiverStepHistory(l, s, t, r, cur, clean, now);
    ReceiverStepCounts(l, s, t, r, cur, clean, now);
  }

  /** A DATA frame sets the session up for its packet and is answered with the list of all slices. */
  lemma DataTaken(l: Link, s: System, now: int)
    requires Inv(l, s) && s.clock <= now && s.toR != [] && s.toR[0].frame.Data?
    ensures s.toR[0].frame.len <= MAX_MSG_LEN
    ensures Inv(l, Taken(l, s.(toR := s.toR[1..], clock := now), s.toR[0], [], true, now))
  {
    var f, num := s.toR[0].frame, s.toR[0].num;
    assert ToReceiverOk(l, ViewOf(s), s.toR[0]);
    var r := R.ProcData(l.c, s.rcv, f, now);
    Restart(l.c, s.rcv, f, now);
    var t := ReceiverMoves(s.(toR := s.toR[1..], clock := now), r, num, true, now);
    assert ViewOf(t) == ViewOf(s).(cur := num);
    assert SessionOk(l, ViewOf(t), r.state, true);
    AckOk(l, ViewOf(t), r.state, true);
    StepsKeep(l, s, t, r, num, true, now);
  }

  lemma Restart(c: Crcs, so: Option<R.State>, f: Frame, now: int)
    requires f.Data? && 0 < f.len <= MAX_MSG_LEN && f.slices == [] && (so.Some? ==> R.Sized(so.value))
    ensures var r := R.ProcData(c, so, f, now);
            && r.state == R.Restarted(so, f, now) && r.state.bits == {} && R.Inv(r.state)
            && r.out == R.SendAck(r.state, f.src, f.dst) && r.up == []
  {
    assert 0 !in R.Restarted(so, f, now).bits;
  }

  /** A PATCH adds slices; the last one delivers the message, or refuses it if the CRC does not match. */
  lemma PatchTaken(l: Link, s: System, p: Frame, clean: bool, now: int)
    requires Inv(l, s) && s.clock <= now && s.toR != [] && s.rcv.Some? && R.Sized(s.rcv.value) && s.cur >= 0
    requires s.toR[0].frame.Patch? && p.Patch?
    requires var f := s.toR[0].frame; p == Patch(f.src, f.dst, f.seqNo, p.slices)
    requires clean ==> s.clean && forall sl :: sl in p.slices && Intact(l.c, sl) ==> sl in s.toR[0].frame.slices
    ensures var r := R.ProcPatch(l.c, s.rcv.value, p, now);
            Inv(l, ReceiverMoves(s.(toR := s.toR[1..], clock := now), r, s.cur, clean, now))
  {
    InFrontOk(l, s);
    hide Inv, SenderOk, ChannelsOk, HistoryOk, CountOk, R.ProcPatch, R.Inv, R.Sized, SessionOk, DeliveryOk, Done;
    var r := R.ProcPatch(l.c, s.rcv.value, p, now);
    var t := ReceiverMoves(s.(toR := s.toR[1..], clock := now), r, s.cur, clean, now);
    DoneAppend(s.delivered, Deliveries(r.up, s.cur, clean));
    DoneOne(r.up, s.cur, clean);
    PatchOutcome(l, ViewOf(s), ViewOf(t), s.rcv.value, s.clean, p, clean, now);
    StepsKeep(l, s, t, r, s.cur, clean, now);
  }

  lemma DoneOne(up: seq<seq<u8>>, num: nat, clean: bool)
    requires |up| <= 1
    ensures Done(Deliveries(up, num, clean)) == if up == [] then {} else {num}
  {
  }

  lemma PatchOutcome(l: Link, v: View, w: View, s: R.State, wasClean: bool, p: Frame, clean: bool, now: int)
    requires MessagesOk(v.sent) && SessionOk(l, v, s, wasClean) && p.Patch? && p.src == l.a && p.dst == l.b
    requires p.seqNo == SeqOf(v.start, v.cur)
    requires clean ==> wasClean && forall sl :: sl in p.slices ==> Genuine(l.c, v.sent[v.cur], sl)
    requires var up := R.ProcPatch(l.c, s, p, now).up;
             w == v.(done := w.done) && w.done == v.done + if up == [] then {} else {v.cur as nat}
    ensures var r := R.ProcPatch(l.c, s, p, now);
            && SessionOk(l, w, r.state, clean)
            && (r.out != [] ==> ToSenderOk(l, w, Tagged(v.cur, r.out[0])) && !r.out[0].Ackr?)
            && (r.up != [] ==> !s.completed && r.state.completed && DeliveryOk(l, w, Delivery(v.cur, r.up[0], clean)))
            && (r.up == [] ==> r.state.completed == s.completed)
  {
    var r := R.ProcPatch(l.c, s, p, now);
    var msg := v.sent[v.cur];
    R.ProcPatchKeepsInv(l.c, s, p, now);
    if !s.completed {
      var t := s.(idleTimeout := now + IDLE_TIMEOUT);
      var u := R.PatchRse(l.c, t, p.slices);
      if clean {
        PatchKeeps(l.c, t, msg, p.slices);
        if AllSet(u.bits, u.nSlices) {
          FullIsMessage(u, msg);
        }
      }
      assert SessionOk(l, w, r.state, clean);
      if r.up != [] {
        AckOk(l, w, r.state, clean);
        assert R.SendAck(u, l.a, l.b) == R.SendAck(r.state, l.a, l.b);
      }
    }
  }

  lemma ReceiverTakesKeeps(l: Link, s: System, act: Action)
    requires act.ReceiverTakes? && Enabled(l, s, act) && Inv(l, s)
    ensures Safe(l, s, act) && Inv(l, Next(l, s, act))
  {
    InFrontOk(l, s);
    hide Inv, SenderOk, ChannelsOk, HistoryOk, CountOk, SessionOk, PacketOf, Done;
    if s.toR[0].frame.Data? {
      DataTaken(l, s, act.now);
    } else if s.rcv.None? {
      LoseToReceiverKeeps(l, s, 0);
      assert s.toR[1..] == Cut(s.toR, 0);
      ReceiverTimerKeeps(l, s.(toR := s.toR[1..]), act.now, true);
    } else if s.toR[0].frame.Patch? {
      var f := s.toR[0].frame;
      PatchTaken(l, s, Patch(f.src, f.dst, f.seqNo, act.arrived), s.clean && act.faithful, act.now);
    } else {
      AckrTaken(l, s, act.now);
    }
  }
}
