/** What holds in every run of the two-ended protocol. */
module SplitTheorems {
  import opened Bytes
  import opened Packets
  import opened Frames
  import opened SplitRun
  import opened SplitInv
  import SplitSender
  import SplitReceiver
  import Slicing
  import S = Sender
  import R = Receiver

  lemma InitOk(l: Link, s: System)
    requires Init(s)
    ensures Inv(l, s)
  {
  }

  /** Every step that can happen meets the code's demands and keeps the invariant. */
  lemma StepOk(l: Link, s: System, act: Action)
    requires Inv(l, s) && Enabled(l, s, act)
    ensures Safe(l, s, act) && Inv(l, Next(l, s, act))
  {
    hide Inv;
    match act
    case UpperSend(msg, now) => SplitSender.UpperSendKeeps(l, s, act);
    case SenderTimer(now) => SplitSender.SenderTimerKeeps(l, s, act);
    case SenderTakes(junk, now) => SplitSender.SenderTakesKeeps(l, s, act);
    case ReceiverTakes(arrived, faithful, now) => SplitReceiver.ReceiverTakesKeeps(l, s, act);
    case LoseToReceiver(i) => SplitReceiver.LoseToReceiverKeeps(l, s, i);
    case LoseToSender(i) => SplitReceiver.LoseToSenderKeeps(l, s, i);
    case ReceiverTimer(now) =>
      SplitReceiver.ReceiverTimerKeeps(l, s, now, !(s.rcv.Some? && now >= s.rcv.value.idleTimeout));
  }

  /** In every run, every handler is called only as the code allows (the timeout handler never sees an empty
      queue, no buffer is overrun) and the invariant always holds. */
  lemma {:induction false} RunOk(l: Link, states: seq<System>, acts: seq<Action>, i: nat)
    requires Run(l, states, acts) && i < |states|
    ensures Inv(l, states[i])
    ensures i < |acts| ==> Safe(l, states[i], acts[i])
  {
    hide Inv, Next, Safe, Enabled, Init;
    if i == 0 {
      InitOk(l, states[0]);
    } else {
      RunOk(l, states, acts, i - 1);
      StepOk(l, states[i - 1], acts[i - 1]);
      assert Enabled(l, states[i - 1], acts[i - 1]);
    }
    if i < |acts| {
      assert Enabled(l, states[i], acts[i]);
      StepOk(l, states[i], acts[i]);
    }
  }

  /** Safety: a delivered message is, byte for byte, the accepted message of its packet number; packet numbers
      never decrease. If a slice was corrupted without its checksum noticing, length and CRC-32C still agree. */
  lemma DeliveredWasSent(l: Link, states: seq<System>, acts: seq<Action>, i: nat)
    requires Run(l, states, acts) && i < |states|
    ensures var s := states[i];
            && (forall k :: 0 <= k < |s.delivered| ==>
                 var d := s.delivered[k];
                 && d.num < |s.sent|
                 && |d.bytes| == |s.sent[d.num]| && l.c.c32(d.bytes) == l.c.c32(s.sent[d.num])
                 && (d.clean ==> d.bytes == s.sent[d.num]))
            && forall j, k :: 0 <= j < k < |s.delivered| ==> s.delivered[j].num <= s.delivered[k].num
  {
    RunOk(l, states, acts, i);
    forall k | 0 <= k < |states[i].delivered| ensures DeliveryOk(l, ViewOf(states[i]), states[i].delivered[k]) {
    }
  }

  /** A packet the sender removes because of an acknowledgement has been delivered, corrupted slices or not. */
  lemma AckedWasDelivered(l: Link, states: seq<System>, acts: seq<Action>, i: nat, n: nat)
    requires Run(l, states, acts) && i < |states| && n in states[i].acked
    ensures exists k :: 0 <= k < |states[i].delivered| && states[i].delivered[k].num == n
  {
    RunOk(l, states, acts, i);
    assert n in Done(states[i].delivered);
    var d :| d in states[i].delivered && d.num == n;
    var k :| 0 <= k < |states[i].delivered| && states[i].delivered[k] == d;
  }

  /** No packet is handed up more than six times. */
  lemma AtMostSixTimes(l: Link, states: seq<System>, acts: seq<Action>, i: nat, n: nat)
    requires Run(l, states, acts) && i < |states|
    ensures Times(states[i].delivered, n) <= states[i].transmitted[n] <= 6
  {
    RunOk(l, states, acts, i);
    var s := states[i];
    assert Times(s.delivered, n) + Pending(s, n) + InFlight(s.toR, n) <= s.transmitted[n];
    if n == Base(states[i]) && states[i].snd.Some? {
      assert states[i].snd.value.dataRetry <= 5;
    }
  }

  /** The messages given to upper_send, in the order of the calls; an empty one is refused. */
  ghost function Given(acts: seq<Action>): seq<seq<u8>> {
    if acts == [] then []
    else
      var last := acts[|acts| - 1];
      Given(acts[..|acts| - 1]) + if last.UpperSend? && last.msg != [] then [last.msg] else []
  }

  /** What upper_send accepts of a message in this state, and reports by its result. */
  ghost function AcceptedNow(l: Link, s: System, msg: seq<u8>): nat
    requires msg != []
  {
    Slicing.Accepted(l.c, l.a, l.b, if s.snd.Some? then s.snd.value.seqNo else 0, msg)
  }

  lemma GivenStep(acts: seq<Action>, i: nat)
    requires i < |acts|
    ensures Given(acts[..i + 1])
         == Given(acts[..i]) + if acts[i].UpperSend? && acts[i].msg != [] then [acts[i].msg] else []
  {
    assert acts[..i + 1][..i] == acts[..i];
  }

  /** Each message is a prefix of the one given for it. */
  ghost predicate PrefixOfEach(sent: seq<seq<u8>>, given: seq<seq<u8>>) {
    |sent| == |given| && forall n :: 0 <= n < |sent| ==> sent[n] <= given[n]
  }

  /** The packet of call j comes right behind those of all earlier calls and has the length that the call reported. */
  ghost predicate CallOk(l: Link, s: System, acts: seq<Action>, j: nat, sent: seq<seq<u8>>)
    requires j < |acts|
  {
    var n := |Given(acts[..j])|;
    acts[j].UpperSend? && acts[j].msg != [] ==> n < |sent| && |sent[n]| == AcceptedNow(l, s, acts[j].msg)
  }

  /** Packet number n is made of the n-th message given to upper_send: of as much of it as that call reported, which is
      never nothing. */
  lemma {:induction false} SentWasGiven(l: Link, states: seq<System>, acts: seq<Action>, i: nat)
    requires Run(l, states, acts) && i < |states|
    ensures MessagesOk(states[i].sent) && PrefixOfEach(states[i].sent, Given(acts[..i]))
    ensures forall j :: 0 <= j < i ==> CallOk(l, states[j], acts, j, states[i].sent)
  {
    hide Inv, Next, Safe, Enabled, AcceptedNow, Given, CallOk, MessagesOk, Init;
    RunOk(l, states, acts, i);
    MessagesInOrder(l, states[i]);
    if i == 0 {
      NothingYet(states[0], acts);
    } else {
      var s, t := states[i - 1], states[i];
      RunOk(l, states, acts, i - 1);
      SentWasGiven(l, states, acts, i - 1);
      assert Enabled(l, s, acts[i - 1]);
      SentGrows(l, s, acts[i - 1]);
      GivenStep(acts, i - 1);
      forall j | 0 <= j < i ensures CallOk(l, states[j], acts, j, t.sent) {
        if j < i - 1 {
          CallStaysOk(l, states[j], acts, j, s.sent, t.sent);
        } else {
          LastCall(l, s, acts, j, t.sent);
        }
      }
    }
  }

  lemma NothingYet(s: System, acts: seq<Action>)
    requires Init(s)
    ensures PrefixOfEach(s.sent, Given(acts[..0]))
  {
  }

  lemma CallStaysOk(l: Link, s: System, acts: seq<Action>, j: nat, sent: seq<seq<u8>>, more: seq<seq<u8>>)
    requires j < |acts| && CallOk(l, s, acts, j, sent) && sent <= more
    ensures CallOk(l, s, acts, j, more)
  {
    hide AcceptedNow, Given;
  }

  lemma LastCall(l: Link, s: System, acts: seq<Action>, j: nat, sent: seq<seq<u8>>)
    requires j < |acts| && PrefixOfEach(s.sent, Given(acts[..j]))
    requires acts[j].UpperSend? && acts[j].msg != [] ==>
               |sent| == |s.sent| + 1 && |sent[|s.sent|]| == AcceptedNow(l, s, acts[j].msg)
    ensures CallOk(l, s, acts, j, sent)
  {
    hide AcceptedNow, Given;
  }

  lemma MessagesInOrder(l: Link, s: System)
    requires Inv(l, s)
    ensures MessagesOk(s.sent)
  {
  }

  lemma SentGrows(l: Link, s: System, act: Action)
    requires Inv(l, s) && Enabled(l, s, act) && Safe(l, s, act)
    ensures s.sent <= Next(l, s, act).sent
    ensures var t := Next(l, s, act);
            if act.UpperSend? && act.msg != [] then
              && |t.sent| == |s.sent| + 1 && t.sent[|s.sent|] <= act.msg
              && |t.sent[|s.sent|]| == AcceptedNow(l, s, act.msg)
            else t.sent == s.sent
  {
    hide Inv, S.UpperSend, S.Timer, S.ProcAckAll, S.ProcAckPart, R.ProcData, R.ProcPatch, R.ProcAckReq;
    if act.UpperSend? && act.msg != [] {
      SendGrows(l, s, act);
    }
  }

  lemma SendGrows(l: Link, s: System, act: Action)
    requires Enabled(l, s, act) && act.UpperSend? && act.msg != []
    ensures var t := Next(l, s, act);
            && |t.sent| == |s.sent| + 1 && s.sent == t.sent[..|s.sent|] && t.sent[|s.sent|] <= act.msg
            && |t.sent[|s.sent|]| == AcceptedNow(l, s, act.msg)
  {
    hide S.UpperSend, Slicing.Accepted;
    Slicing.AcceptedBounds(l.c, l.a, l.b, if s.snd.Some? then s.snd.value.seqNo else 0, act.msg);
  }

  /** Idle collection never throws away a packet: a send session that disappears had an empty queue. */
  lemma NothingDiscarded(l: Link, states: seq<System>, acts: seq<Action>, i: nat)
    requires Run(l, states, acts) && i < |acts| && acts[i].SenderTimer?
    requires states[i].snd.Some? && states[i + 1].snd.None?
    ensures states[i].snd.value.queue == []
  {
    RunOk(l, states, acts, i);
    assert Enabled(l, states[i], acts[i]);
    S.TimerKeepsInv(states[i].snd.value, acts[i].now);
  }

  /** With no unnoticed corruption at all, every delivery is exact. */
  lemma {:induction false} FaithfulRunsAreClean(l: Link, states: seq<System>, acts: seq<Action>, i: nat)
    requires Run(l, states, acts) && i < |states|
    requires forall j :: 0 <= j < |acts| && acts[j].ReceiverTakes? ==> acts[j].faithful
    ensures states[i].clean && forall d :: d in states[i].delivered ==> d.clean
  {
    if i > 0 {
      RunOk(l, states, acts, i - 1);
      FaithfulRunsAreClean(l, states, acts, i - 1);
      CleanStep(l, states[i - 1], acts[i - 1]);
    }
  }

  lemma CleanStep(l: Link, s: System, act: Action)
    requires Enabled(l, s, act) && Safe(l, s, act) && (act.ReceiverTakes? ==> act.faithful)
    requires s.clean && forall d :: d in s.delivered ==> d.clean
    ensures var t := Next(l, s, act); t.clean && forall d :: d in t.delivered ==> d.clean
  {
  }

  // ----- why the two conditions on the network are there -----

  /** An acknowledgement in flight matches the head of the queue exactly if it is a multiple of 256 packets old;
      so one that matches is about the head exactly if it is less than 256 packets old. */
  lemma AckAmbiguity(l: Link, s: System, k: nat)
    requires Inv(l, s) && k < |s.toS| && s.snd.Some? && s.snd.value.queue != []
    ensures S.Answers(s.toS[k].frame, s.snd.value) <==> (Base(s) - s.toS[k].num) % 256 == 0
    ensures S.Answers(s.toS[k].frame, s.snd.value) ==> (s.toS[k].num == Base(s) <==> Base(s) - s.toS[k].num < 256)
  {
    hide Inv, ToSenderOk, PacketOf;
    AckFacts(l, s, k);
    SameSeq(s.start, s.toS[k].num, Base(s));
  }

  lemma AckFacts(l: Link, s: System, k: nat)
    requires Inv(l, s) && k < |s.toS| && s.snd.Some? && s.snd.value.queue != []
    ensures var t, p := s.toS[k], s.snd.value.queue[0];
            && s.start <= t.num <= Base(s)
            && t.frame.seqNo == SeqOf(s.start, t.num) && t.frame.src == l.b && t.frame.dst == l.a
            && p.seqNo == SeqOf(s.start, Base(s)) && p.src == l.a && p.dst == l.b
  {
    hide S.Inv, SessionOk, CountOk, HistoryOk, Done;
    assert ToSenderOk(l, ViewOf(s), s.toS[k]);
    assert s.snd.value.queue[0] == PacketOf(l, ViewOf(s), Base(s));
  }

  lemma SameSeq(start: nat, x: nat, y: nat)
    requires start <= x <= y
    ensures SeqOf(start, x) == SeqOf(start, y) <==> (y - x) % 256 == 0
  {
  }

  /** A send session that starts over, and whose first DATA is lost, asks for an acknowledgement. The answer takes the
      new packet off the queue, never delivered, exactly if the receiver still remembers a completed packet with
      number 0 of the old session. */
  lemma RenewalLosesMessage(c: Crcs, a: u8, b: u8, r: R.State, msg: seq<u8>, now: int)
    requires R.Inv(r) && msg != [] && 0 <= now
    ensures var s1 := S.UpperSend(c, None, a, b, msg, now).state;
            var later := now + S.ACK_TIMEOUT;
            && |s1.queue| == 1 && S.AckTimerDue(s1, later)
            && var (s2, request) := S.Timer(s1, later);
               && s2.Some? && request == [Ackr(a, b, 0)]
               && var answer := R.ProcAckReq(r, request[0], later);
                  && answer.up == []
                  && ((answer.out != [] && S.ProcAckAll(s2.value, answer.out[0], later).state.queue == []
                       && answer.out[0].Acka?) <==> r.completed && !r.nak && r.seqExp == 0)
  {
    S.UpperSendKeepsInv(c, None, a, b, msg, now);
  }
}
