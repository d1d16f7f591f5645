/** The invariant of the two-ended protocol. */
module SplitInv {
  import opened Bytes
  import opened Packets
  import opened Frames
  import opened Bitmap
  import opened SplitContent
  import opened SplitRun
  import S = Sender
  import R = Receiver

  /** The history an in-flight frame is judged by. */
  datatype View = View(sent: seq<seq<u8>>, start: nat, cur: int, base: int, done: set<nat>)

  ghost function Done(delivered: seq<Delivery>): set<nat> {
    set d | d in delivered :: d.num
  }

  ghost function ViewOf(s: System): View {
    View(s.sent, s.start, s.cur, Base(s), Done(s.delivered))
  }

  /** 8-bit sequence numbers count the packets of the present send session. */
  function SeqOf(start: nat, num: nat): u8
    requires start <= num
  {
    (num - start) % 256
  }

  ghost predicate MessagesOk(sent: seq<seq<u8>>) {
    forall i :: 0 <= i < |sent| ==> 0 < |sent[i]| <= MAX_MSG_LEN
  }

  /** The packet upper_send built for message `num`. */
  ghost function PacketOf(l: Link, v: View, num: nat): Packet
    requires MessagesOk(v.sent) && v.start <= num < |v.sent|
  {
    MakePacket(l.c, l.a, l.b, SeqOf(v.start, num), v.sent[num])
  }

  ghost predicate ToReceiverOk(l: Link, v: View, t: Tagged)
    requires MessagesOk(v.sent)
  {
    match t.frame
    case Data(_, _, _, _, _, _) =>
      v.start <= t.num < |v.sent| && v.cur <= t.num <= v.base && t.frame == DataFrame(PacketOf(l, v, t.num))
    case Patch(src, dst, seqNo, slices) =>
      && v.start <= t.num < |v.sent| && v.cur == t.num <= v.base
      && src == l.a && dst == l.b && seqNo == SeqOf(v.start, t.num)
      && forall sl :: sl in slices ==> sl in Slices(l.c, v.sent[t.num])
    case Ackr(src, dst, _) => src == l.a && dst == l.b
    case _ => false
  }

  ghost predicate ToSenderOk(l: Link, v: View, t: Tagged)
    requires MessagesOk(v.sent)
  {
    && v.start <= t.num < |v.sent| && t.num <= v.cur
    && t.frame.src == l.b && t.frame.dst == l.a && t.frame.seqNo == SeqOf(v.start, t.num)
    && match t.frame
       case Acka(_, _, _) => t.num in v.done
       case Ackp(_, _, _, missing) =>
         && missing != [] && Increasing(missing)
         && forall i :: 0 <= i < |missing| ==> missing[i] < SliceCount(|v.sent[t.num]|)
       case _ => false
  }

  ghost predicate SenderOk(l: Link, s: System) {
    && 0 <= s.clock && MessagesOk(s.sent) && s.start <= Base(s)
    && (s.snd.Some? ==>
          var q := s.snd.value;
          && S.Inv(q) && q.idleTimeout <= s.clock + IDLE_TIMEOUT
          && q.seqNo == SeqOf(s.start, |s.sent|)
          && forall i :: 0 <= i < |q.queue| ==> q.queue[i] == PacketOf(l, ViewOf(s), Base(s) + i))
  }

  /** The receive session is set up for packet `cur`. */
  ghost predicate SessionOk(l: Link, v: View, r: R.State, clean: bool)
    requires MessagesOk(v.sent)
  {
    && v.start <= v.cur < |v.sent|
    && R.Inv(r) && r.seqExp == SeqOf(v.start, v.cur) && r.msglen == |v.sent[v.cur]| && r.dCsum == l.c.c32(v.sent[v.cur])
    && (r.completed ==> v.cur in v.done)
    && (clean ==> Holds(r, v.sent[v.cur]))
  }

  ghost predicate ReceiverOk(l: Link, s: System)
    requires MessagesOk(s.sent)
  {
    -1 <= s.cur < |s.sent| && s.cur <= Base(s) && (s.rcv.Some? ==> SessionOk(l, ViewOf(s), s.rcv.value, s.clean))
  }

  ghost predicate ChannelsOk(l: Link, s: System)
    requires MessagesOk(s.sent)
  {
    && (forall i :: 0 <= i < |s.toR| ==> ToReceiverOk(l, ViewOf(s), s.toR[i]))
    && (forall i :: 0 <= i < |s.toS| ==> ToSenderOk(l, ViewOf(s), s.toS[i]))
    && Ordered(s.toR)
  }

  ghost predicate Ordered(ch: seq<Tagged>) {
    forall i, j :: 0 <= i < j < |ch| && !ch[i].frame.Ackr? && !ch[j].frame.Ackr? ==> ch[i].num <= ch[j].num
  }

  /** A delivered message has the length and the CRC of its packet, and is its packet unless corruption
      went unnoticed. */
  ghost predicate DeliveryOk(l: Link, v: View, d: Delivery) {
    && d.num < |v.sent| && d.num <= v.cur
    && |d.bytes| == |v.sent[d.num]| && l.c.c32(d.bytes) == l.c.c32(v.sent[d.num])
    && (d.clean ==> d.bytes == v.sent[d.num])
  }

  ghost predicate HistoryOk(l: Link, s: System) {
    && s.acked <= Done(s.delivered)
    && (forall i :: 0 <= i < |s.delivered| ==> DeliveryOk(l, ViewOf(s), s.delivered[i]))
    && forall i, j :: 0 <= i < j < |s.delivered| ==> s.delivered[i].num <= s.delivered[j].num
  }

  // ----- counting -----

  ghost function Times(ds: seq<Delivery>, n: nat): nat {
    if ds == [] then 0 else Times(ds[..|ds| - 1], n) + if ds[|ds| - 1].num == n then 1 else 0
  }

  /** DATA frames of packet n on their way to the receiver. */
  ghost function InFlight(ch: seq<Tagged>, n: nat): nat {
    if ch == [] then 0
    else InFlight(ch[..|ch| - 1], n) + if ch[|ch| - 1].frame.Data? && ch[|ch| - 1].num == n then 1 else 0
  }

  /** 1 while the receiver may still complete packet n. */
  ghost function Pending(s: System, n: nat): nat {
    if s.rcv.Some? && s.cur == n && !s.rcv.value.completed then 1 else 0
  }

  /** How often packet n may have been transmitted by now. */
  ghost function Allowed(s: System, n: nat): int {
    if n < Base(s) then 6
    else if n == Base(s) && s.snd.Some? && s.snd.value.waiting then s.snd.value.dataRetry + 1
    else 0
  }

  ghost predicate CountOk(s: System) {
    forall n: nat ::
      && Times(s.delivered, n) + Pending(s, n) + InFlight(s.toR, n) <= s.transmitted[n]
      && s.transmitted[n] <= Allowed(s, n)
  }

  ghost predicate Inv(l: Link, s: System) {
    SenderOk(l, s) && ReceiverOk(l, s) && ChannelsOk(l, s) && HistoryOk(l, s) && CountOk(s)
  }

  // ----- views grow -----

  /** More messages, a later head, more deliveries; the same session. */
  ghost predicate Grows(v: View, w: View) {
    v.sent <= w.sent && v.start == w.start && v.base <= w.base && v.done <= w.done
  }

  lemma ToReceiverGrows(l: Link, v: View, w: View, t: Tagged)
    requires MessagesOk(v.sent) && MessagesOk(w.sent) && Grows(v, w) && v.cur == w.cur && ToReceiverOk(l, v, t)
    ensures ToReceiverOk(l, w, t)
  {
  }

  lemma ToSenderGrows(l: Link, v: View, w: View, t: Tagged)
    requires MessagesOk(v.sent) && MessagesOk(w.sent) && Grows(v, w) && v.cur <= w.cur && ToSenderOk(l, v, t)
    ensures ToSenderOk(l, w, t)
  {
  }

  lemma DeliveryGrows(l: Link, v: View, w: View, d: Delivery)
    requires v.sent <= w.sent && v.cur <= w.cur && DeliveryOk(l, v, d)
    ensures DeliveryOk(l, w, d)
  {
  }

  lemma SessionGrows(l: Link, v: View, w: View, r: R.State, clean: bool)
    requires MessagesOk(v.sent) && MessagesOk(w.sent) && Grows(v, w) && v.cur == w.cur && SessionOk(l, v, r, clean)
    ensures SessionOk(l, w, r, clean)
  {
  }

  lemma DoneAppend(a: seq<Delivery>, b: seq<Delivery>)
    ensures Done(a + b) == Done(a) + Done(b)
  {
    assert forall d :: d in a + b <==> d in a || d in b;
  }

  lemma {:induction false} InFlightAppend(a: seq<Tagged>, b: seq<Tagged>, n: nat)
    ensures InFlight(a + b, n) == InFlight(a, n) + InFlight(b, n)
  {
    if b == [] {
      assert a + b == a;
    } else {
      InFlightAppend(a, b[..|b| - 1], n);
      assert (a + b)[..|a + b| - 1] == a + b[..|b| - 1];
    }
  }

  lemma InFlightOne(t: Tagged, n: nat)
    ensures InFlight([t], n) == if t.frame.Data? && t.num == n then 1 else 0
  {
    assert [t][..0] == [];
  }

  lemma InFlightCut(ch: seq<Tagged>, i: nat, n: nat)
    requires i < |ch|
    ensures InFlight(ch, n) == InFlight(Cut(ch, i), n) + if ch[i].frame.Data? && ch[i].num == n then 1 else 0
  {
    assert ch == ch[..i] + ([ch[i]] + ch[i + 1..]);
    InFlightAppend(ch[..i], [ch[i]] + ch[i + 1..], n);
    InFlightAppend([ch[i]], ch[i + 1..], n);
    InFlightAppend(ch[..i], ch[i + 1..], n);
    InFlightOne(ch[i], n);
  }

  lemma TimesAppendOne(ds: seq<Delivery>, d: Delivery, n: nat)
    ensures Times(ds + [d], n) == Times(ds, n) + if d.num == n then 1 else 0
  {
    assert (ds + [d])[..|ds|] == ds;
  }
}
