/** A sender and a receiver of split.c joined by two lossy first-in-first-out channels, as a state machine
    whose steps are the handlers. */
module SplitRun {
  import opened Bytes
  import opened Packets
  import opened Frames
  import Slicing
  import S = Sender
  import R = Receiver

  /** The addresses of the two ends and the checksums in use. */
  datatype Link = Link(c: Crcs, a: u8, b: u8)

  /** A frame in flight, marked with the number of the packet it belongs to. The mark is history: no handler
      sees it. */
  datatype Tagged = Tagged(num: nat, frame: Frame)

  /** A message handed to the receiver's user; `clean` says that no slice of it was corrupted unnoticed. */
  datatype Delivery = Delivery(num: nat, bytes: seq<u8>, clean: bool)

  datatype System = System(
    clock: int, snd: Option<S.State>, rcv: Option<R.State>, toR: seq<Tagged>, toS: seq<Tagged>,
    // history
    sent: seq<seq<u8>>,         // the messages as accepted by upper_send; a packet's number is its index
    start: nat,                 // the first packet of the present send session
    cur: int,                   // the packet of the last DATA the receiver took, or -1
    clean: bool,                // no slice was corrupted unnoticed since
    acked: set<nat>,            // packets the sender removed because of an acknowledgement
    delivered: seq<Delivery>,
    transmitted: multiset<nat>) // one entry per DATA frame queued for the link

  datatype Action =
    | UpperSend(msg: seq<u8>, now: int)
    | SenderTimer(now: int)
    | ReceiverTimer(now: int)
    | LoseToReceiver(i: nat)
    | LoseToSender(i: nat)
      // the receiver takes the next frame; of a PATCH only `arrived` is left, faithfully or not
    | ReceiverTakes(arrived: seq<Slice>, faithful: bool, now: int)
    | SenderTakes(junk: nat -> Slice, now: int)

  function Queue(s: System): seq<Packet> {
    if s.snd.Some? then s.snd.value.queue else []
  }

  /** The number of the packet at the head of the queue, or of the next packet if there is none. */
  function Base(s: System): int {
    |s.sent| - |Queue(s)|
  }

  // ----- steps -----

  /** Handlers queue at most one frame. */
  function Tag(out: seq<Frame>, head: nat, newest: nat): seq<Tagged>
    requires |out| <= 1
  {
    if out == [] then [] else [Tagged(if out[0].Ackr? then newest else head, out[0])]
  }

  function DataSent(out: seq<Frame>, head: nat): multiset<nat>
    requires |out| <= 1
  {
    if out != [] && out[0].Data? then multiset{head} else multiset{}
  }

  function Cut<T>(s: seq<T>, i: nat): seq<T>
    requires i < |s|
  {
    s[..i] + s[i + 1..]
  }

  /** The sender's session becomes `snd` and queues `out`. */
  function SenderMoves(s: System, snd: Option<S.State>, out: seq<Frame>, now: int): System
    requires |out| <= 1
  {
    var t := s.(snd := snd, clock := now);
    if Base(t) < 0 then t
    else
      t.(toR := t.toR + Tag(out, Base(t), if |t.sent| == 0 then 0 else |t.sent| - 1),
         transmitted := t.transmitted + DataSent(out, Base(t)))
  }

  function Deliveries(up: seq<seq<u8>>, num: nat, clean: bool): seq<Delivery>
    requires |up| <= 1
  {
    if up == [] then [] else [Delivery(num, up[0], clean)]
  }

  /** The receiver's session becomes `r.state` while receiving packet `cur`. */
  function ReceiverMoves(s: System, r: R.Step, cur: nat, clean: bool, now: int): System
    requires |r.out| <= 1 && |r.up| <= 1
  {
    s.(clock := now, rcv := Some(r.state), cur := cur, clean := clean,
       toS := s.toS + Tag(r.out, cur, cur), delivered := s.delivered + Deliveries(r.up, cur, clean))
  }

  /** What the code demands when it runs the step: a packet to time out on, sizes the buffers can hold, and
      an acknowledgement only from the other end. */
  ghost predicate Safe(l: Link, s: System, act: Action) {
    match act
    case SenderTimer(now) => s.snd.Some? && S.AckTimerDue(s.snd.value, now) ==> s.snd.value.queue != []
    case ReceiverTakes(_, _, _) =>
      && s.toR != []
      && (s.rcv.Some? ==> R.Sized(s.rcv.value) && s.cur >= 0)
      && match s.toR[0].frame {
           case Data(_, _, _, len, _, _) => len <= MAX_MSG_LEN
           case Patch(_, _, _, _) => true
           case Ackr(_, _, _) => true
           case _ => false
         }
    case SenderTakes(_, _) => s.toS != [] && (s.toS[0].frame.Acka? || s.toS[0].frame.Ackp?)
    case _ => true
  }

  /** When a step can happen. Two conditions on the network are part of it: an acknowledgement that arrives is
      less than 256 packets old, and a new send session starts only once the link and the receiver have
      forgotten the previous one. */
  ghost predicate Enabled(l: Link, s: System, act: Action) {
    match act
    case UpperSend(msg, now) =>
      s.clock <= now && (msg != [] && s.snd.None? ==> s.rcv.None? && s.toR == [] && s.toS == [])
    case SenderTimer(now) => s.clock <= now
    case ReceiverTimer(now) => s.clock <= now
    case LoseToReceiver(i) => i < |s.toR|
    case LoseToSender(i) => i < |s.toS|
    case ReceiverTakes(arrived, faithful, now) =>
      && s.clock <= now && s.toR != []
      && if s.toR[0].frame.Patch? then
           faithful ==> forall sl :: sl in arrived && Intact(l.c, sl) ==> sl in s.toR[0].frame.slices
         else arrived == []
    case SenderTakes(_, now) =>
      s.clock <= now && s.toS != [] && Base(s) - s.toS[0].num < 256
  }

  ghost function Next(l: Link, s: System, act: Action): System
    requires Enabled(l, s, act) && Safe(l, s, act)
  {
    match act
    case UpperSend(msg, now) =>
      if msg == [] then s.(clock := now)    // refused before any session is looked up
      else
        var r := S.UpperSend(l.c, s.snd, l.a, l.b, msg, now);
        var seqNo := if s.snd.Some? then s.snd.value.seqNo else 0;
        Slicing.AcceptedBounds(l.c, l.a, l.b, seqNo, msg);
        var kept := msg[..Slicing.Accepted(l.c, l.a, l.b, seqNo, msg)];
        SenderMoves(s.(sent := s.sent + [kept], start := if s.snd.Some? then s.start else |s.sent|),
                    Some(r.state), r.out, now)
    case SenderTimer(now) =>
      if s.snd.None? then s.(clock := now)
      else var r := S.Timer(s.snd.value, now); SenderMoves(s, r.0, r.1, now)
    case ReceiverTimer(now) =>
      s.(clock := now, rcv := if s.rcv.Some? then R.Timer(s.rcv.value, now) else None)
    case LoseToReceiver(i) => s.(toR := Cut(s.toR, i))
    case LoseToSender(i) => s.(toS := Cut(s.toS, i))
    case ReceiverTakes(arrived, faithful, now) =>
      Taken(l, s.(toR := s.toR[1..], clock := now), s.toR[0], arrived, faithful, now)
    case SenderTakes(junk, now) =>
      var t := s.(toS := s.toS[1..], clock := now);
      if s.snd.None? then t else Answered(t, s.toS[0].frame, junk, now)
  }

  ghost function Taken(l: Link, s: System, t: Tagged, arrived: seq<Slice>, faithful: bool, now: int): System
    requires s.rcv.Some? ==> R.Sized(s.rcv.value) && s.cur >= 0
    requires t.frame.Data? ==> t.frame.len <= MAX_MSG_LEN
  {
    match t.frame
    case Data(_, _, _, _, _, _) => ReceiverMoves(s, R.ProcData(l.c, s.rcv, t.frame, now), t.num, true, now)
    case Patch(src, dst, seqNo, _) =>
      if s.rcv.None? then s
      else
        var r := R.ProcPatch(l.c, s.rcv.value, Patch(src, dst, seqNo, arrived), now);
        ReceiverMoves(s, r, s.cur, s.clean && faithful, now)
    case Ackr(_, _, _) =>
      if s.rcv.None? then s
      else ReceiverMoves(s, R.ProcAckReq(s.rcv.value, t.frame, now), s.cur, s.clean, now)
    case _ => s
  }

  function Answered(s: System, f: Frame, junk: nat -> Slice, now: int): System
    requires s.snd.Some?
  {
    if f.Acka? then
      var r := S.ProcAckAll(s.snd.value, f, now);
      var removed := if |r.state.queue| < |s.snd.value.queue| && 0 <= Base(s) then {Base(s) as nat} else {};
      SenderMoves(s.(acked := s.acked + removed), Some(r.state), r.out, now)
    else if f.Ackp? then
      var r := S.ProcAckPart(s.snd.value, f, junk, now);
      SenderMoves(s, Some(r.state), r.out, now)
    else s
  }

  ghost predicate Init(s: System) {
    s == System(s.clock, None, None, [], [], [], 0, -1, true, {}, [], multiset{}) && 0 <= s.clock
  }

  /** A run. Where a step's demands were not met its outcome would be anything at all. */
  ghost predicate Run(l: Link, states: seq<System>, acts: seq<Action>) {
    && |states| == |acts| + 1 && Init(states[0])
    && forall i :: 0 <= i < |acts| ==>
         && Enabled(l, states[i], acts[i])
         && (Safe(l, states[i], acts[i]) ==> states[i + 1] == Next(l, states[i], acts[i]))
  }
}
