/** The send session of split.c: first as functions on its state, then as the object that is updated in place. */
module Sender {
  import opened Bytes
  import opened Packets
  import opened Frames
  import opened Queues
  import Slicing

  const ACK_TIMEOUT := 3 * 1000
  const MAX_RETRY_TIMES := 5
  const NO_TIMER := -1

  datatype State = State(
    queue: seq<Packet>, waiting: bool, seqNo: u8, dataRetry: int, ackRetry: int, ackTimeout: int, idleTimeout: int)

  /** A session after a step and the frames the step queued for the link. */
  datatype Step = Step(state: State, out: seq<Frame>)

  function Created(now: int): State {
    State([], false, 0, 0, 0, NO_TIMER, now + IDLE_TIMEOUT)
  }

  function Touched(s: State, now: int): State {
    s.(idleTimeout := now + IDLE_TIMEOUT)
  }

  function TryLowerSend(s: State, now: int): (r: Step)
    ensures |r.out| <= 1
  {
    if !s.waiting && s.queue != [] then
      Step(s.(ackTimeout := now + ACK_TIMEOUT, waiting := true), [DataFrame(s.queue[0])])
    else
      Step(s, [])
  }

  /** upper_send with a non-empty message, from an existing session or a new one. */
  function UpperSend(c: Crcs, so: Option<State>, src: u8, dst: u8, msg: seq<u8>, now: int): (r: Step)
    requires msg != []
    ensures |r.out| <= 1
  {
    var s := if so.Some? then Touched(so.value, now) else Created(now);
    Slicing.AcceptedBounds(c, src, dst, s.seqNo, msg);
    var p := MakePacket(c, src, dst, s.seqNo, msg[..Slicing.Accepted(c, src, dst, s.seqNo, msg)]);
    TryLowerSend(s.(seqNo := (s.seqNo + 1) % 0x100, queue := s.queue + [p]), now)
  }

  /** The head of the queue is the packet an acknowledgement `f` is about. */
  predicate Answers(f: Frame, s: State) {
    && s.queue != []
    && s.queue[0].src == f.dst && s.queue[0].dst == f.src
    && s.queue[0].seqNo == f.seqNo
  }

  function Popped(s: State): State
    requires s.queue != []
  {
    s.(queue := s.queue[1..], waiting := false, ackTimeout := NO_TIMER, dataRetry := 0)
  }

  function ProcAckAll(s: State, f: Frame, now: int): (r: Step)
    ensures |r.out| <= 1
  {
    var t := Touched(s, now);
    if Answers(f, t) then TryLowerSend(Popped(t).(ackRetry := 0), now) else Step(t, [])
  }

  // ----- send_patch -----

  function InRange(p: Packet, wanted: seq<u8>): nat {
    if wanted == [] then 0
    else InRange(p, wanted[..|wanted| - 1]) + if wanted[|wanted| - 1] < |p.slices| then 1 else 0
  }

  /** The slice areas of the patch frame. An area skipped for a request out of range keeps whatever the
      stack held there (`junk`). */
  function Areas(p: Packet, wanted: seq<u8>, junk: nat -> Slice): (r: seq<Slice>)
    ensures |r| == |wanted|
  {
    seq(|wanted|, i requires 0 <= i < |wanted| => if wanted[i] < |p.slices| then p.slices[wanted[i]] else junk(i))
  }

  lemma InRangeBound(p: Packet, wanted: seq<u8>)
    ensures InRange(p, wanted) <= |wanted|
  {
  }

  function SendPatch(p: Packet, missing: seq<u8>, junk: nat -> Slice): (r: seq<Frame>)
    ensures |r| <= 1
  {
    var wanted := if |missing| <= MAX_SLICE_NUM then missing else missing[..MAX_SLICE_NUM];
    InRangeBound(p, wanted);
    if InRange(p, wanted) == 0 then []
    else [Patch(p.src, p.dst, p.seqNo, Areas(p, wanted, junk)[..InRange(p, wanted)])]
  }

  /** A request within range is answered with exactly the slices asked for, in the order asked for. */
  lemma {:induction false} InRangeAll(p: Packet, wanted: seq<u8>)
    requires forall i :: 0 <= i < |wanted| ==> wanted[i] < |p.slices|
    ensures InRange(p, wanted) == |wanted|
  {
    if wanted != [] {
      InRangeAll(p, wanted[..|wanted| - 1]);
    }
  }

  lemma SendPatchExact(p: Packet, missing: seq<u8>, junk: nat -> Slice)
    requires 0 < |missing| <= MAX_SLICE_NUM && forall i :: 0 <= i < |missing| ==> missing[i] < |p.slices|
    ensures SendPatch(p, missing, junk)
         == [Patch(p.src, p.dst, p.seqNo,
                   seq(|missing|, i requires 0 <= i < |missing| => p.slices[missing[i]]))]
  {
    InRangeAll(p, missing);
    var areas := Areas(p, missing, junk);
    assert areas[..|missing|] == areas == seq(|missing|, i requires 0 <= i < |missing| => p.slices[missing[i]]);
  }

  function ProcAckPart(s: State, f: Frame, junk: nat -> Slice, now: int): (r: Step)
    requires f.Ackp?
    ensures |r.out| <= 1
  {
    var t := Touched(s, now);
    if Answers(f, t) then
      Step(t.(ackTimeout := now + ACK_TIMEOUT, ackRetry := 0), SendPatch(t.queue[0], f.missing, junk))
    else
      Step(t, [])
  }

  // ----- timers -----

  /** proc_sse_ack_timeout. It reads the head of the queue, so there must be one. */
  function AckTimeout(s: State, now: int): (r: Step)
    requires s.queue != []
    ensures |r.out| <= 1
  {
    var t := Touched(s, now).(ackRetry := s.ackRetry + 1);
    if t.ackRetry <= MAX_RETRY_TIMES then
      Step(t, [Ackr(t.queue[0].src, t.queue[0].dst, (t.seqNo - 1) % 0x100)])
    else
      var u := t.(ackRetry := 0, dataRetry := t.dataRetry + 1);
      TryLowerSend(if u.dataRetry > MAX_RETRY_TIMES then Popped(u) else u.(waiting := false), now)
  }

  predicate AckTimerDue(s: State, now: int) {
    s.ackTimeout > 0 && now >= s.ackTimeout
  }

  /** One session's turn in proc_timer; no session is left when it has been idle for too long. */
  function Timer(s: State, now: int): (r: (Option<State>, seq<Frame>))
    requires AckTimerDue(s, now) ==> s.queue != []
    ensures |r.1| <= 1
  {
    var r := if AckTimerDue(s, now) then AckTimeout(s, now) else Step(s, []);
    (if now >= r.state.idleTimeout then None else Some(r.state), r.out)
  }

  // ----- what every session keeps -----

  /** Waiting, a non-empty queue and an armed timer are one and the same. */
  ghost predicate Armed(s: State) {
    && (s.waiting <==> s.queue != [])
    && (s.waiting <==> s.ackTimeout > 0)
    && (!s.waiting ==> s.ackTimeout == NO_TIMER && s.dataRetry == 0 && s.ackRetry == 0)
    && 0 <= s.dataRetry <= MAX_RETRY_TIMES && 0 <= s.ackRetry <= MAX_RETRY_TIMES
  }

  /** And a waiting session times out on its acknowledgement long before it counts as idle. */
  ghost predicate Inv(s: State) {
    && Armed(s)
    && (s.waiting ==> s.ackTimeout + 7000 <= s.idleTimeout)
  }

  lemma UpperSendKeepsInv(c: Crcs, so: Option<State>, src: u8, dst: u8, msg: seq<u8>, now: int)
    requires msg != [] && 0 <= now
    requires so.Some? ==> Inv(so.value) && (so.value.waiting ==> so.value.idleTimeout <= now + IDLE_TIMEOUT)
    ensures Inv(UpperSend(c, so, src, dst, msg, now).state)
    ensures var r := UpperSend(c, so, src, dst, msg, now);
            && r.state.idleTimeout == now + IDLE_TIMEOUT
            && (so.None? || so.value.queue == [] ==> |r.state.queue| == 1 && r.out == [DataFrame(r.state.queue[0])])
            && (so.Some? && so.value.queue != [] ==> so.value.queue < r.state.queue && r.out == [])
  {
  }

  lemma AckKeepsInv(s: State, f: Frame, junk: nat -> Slice, now: int)
    requires Inv(s) && 0 <= now && s.idleTimeout <= now + IDLE_TIMEOUT
    ensures Inv(ProcAckAll(s, f, now).state)
    ensures f.Ackp? ==> Inv(ProcAckPart(s, f, junk, now).state)
  {
  }

  lemma AckTimeoutKeepsInv(s: State, now: int)
    requires Armed(s) && s.queue != [] && 0 <= now
    ensures Armed(AckTimeout(s, now).state)
    ensures s.ackTimeout <= now ==> Inv(AckTimeout(s, now).state)
  {
  }

  /** The timer never reads an empty queue, and never discards a session that still holds packets. */
  lemma TimerKeepsInv(s: State, now: int)
    requires Inv(s) && 0 <= now
    ensures AckTimerDue(s, now) ==> s.queue != []
    ensures var r := Timer(s, now).0;
            && (r.Some? ==> Inv(r.value))
            && (r.None? <==> s.queue == [] && now >= s.idleTimeout)
  {
    if AckTimerDue(s, now) {
      AckTimeoutKeepsInv(s, now);
    }
  }

  // ----- the session object -----

  class Sse {
    var pktList: seq<Packet>
    var isWaiting: bool
    var seqNo: u8
    var dataRetry: int
    var ackRetry: int
    var ackTimeout: int
    var idleTimeout: int

    function Current(): State
      reads this
    {
      State(pktList, isWaiting, seqNo, dataRetry, ackRetry, ackTimeout, idleTimeout)
    }

    /** create_sse */
    constructor (now: int)
      ensures Current() == Created(now)
    {
      idleTimeout := now + IDLE_TIMEOUT;
      ackTimeout := NO_TIMER;
      dataRetry := 0;
      ackRetry := 0;
      isWaiting := false;
      seqNo := 0;
      pktList := [];
    }

    method TryToSend(lower: Fifo<Frame>, now: int)
      modifies this, lower
      ensures var r := TryLowerSend(old(Current()), now);
              Current() == r.state && lower.items == old(lower.items) + r.out
    {
      if !isWaiting && pktList != [] {
        var pkt := pktList[0];
        lower.Push(DataFrame(pkt));
        ackTimeout := now + ACK_TIMEOUT;
        isWaiting := true;
      }
    }

    /** upper_send with the session found by get_sse; returns the accepted length. An empty message is refused. */
    method Send(c: Crcs, src: u8, dst: u8, msg: seq<u8>, lower: Fifo<Frame>, now: int) returns (ret: int)
      modifies this, lower
      ensures msg == [] ==> ret == -1 && Current() == old(Current()) && lower.items == old(lower.items)
      ensures msg != [] ==> var r := UpperSend(c, Some(old(Current())), src, dst, msg, now);
                            Current() == r.state && lower.items == old(lower.items) + r.out
      ensures msg != [] ==> ret == Slicing.Accepted(c, src, dst, old(seqNo), msg)
    {
      hide Slices, Slicing.Accepted, Slicing.HeaderBytes;
      if |msg| <= 0 {
        return -1;
      }
      idleTimeout := now + IDLE_TIMEOUT;
      var k := seqNo;
      seqNo := (seqNo + 1) % 0x100;
      var ok, slices, msglen, escaped := Slicing.BuildPacket(c, src, dst, k, msg);
      if !ok {
        return -1;
      }
      pktList := pktList + [Packet(src, dst, k, msglen, c.c32(msg[..msglen]), slices)];
      TryToSend(lower, now);
      return msglen;
    }

    /** proc_ack_all */
    method AckAll(f: Frame, lower: Fifo<Frame>, now: int)
      modifies this, lower
      ensures var r := ProcAckAll(old(Current()), f, now);
              Current() == r.state && lower.items == old(lower.items) + r.out
    {
      idleTimeout := now + IDLE_TIMEOUT;
      if pktList != [] {
        var pkt := pktList[0];
        if pkt.src != f.dst || pkt.dst != f.src {
          return;
        }
        if pkt.seqNo == f.seqNo {
          pktList := pktList[1..];
          isWaiting := false;
          ackTimeout := NO_TIMER;
          dataRetry := 0;
          ackRetry := 0;
          TryToSend(lower, now);
        }
      }
    }

    /** proc_ack_part */
    method AckPart(f: Frame, junk: nat -> Slice, lower: Fifo<Frame>, now: int)
      requires f.Ackp?
      modifies this, lower
      ensures var r := ProcAckPart(old(Current()), f, junk, now);
              Current() == r.state && lower.items == old(lower.items) + r.out
    {
      idleTimeout := now + IDLE_TIMEOUT;
      if pktList != [] {
        var pkt := pktList[0];
        if pkt.src != f.dst || pkt.dst != f.src {
          return;
        }
        if pkt.seqNo != f.seqNo {
          return;
        }
        ackTimeout := now + ACK_TIMEOUT;
        ackRetry := 0;
        PutPatch(pkt, f.missing, junk, lower);
      }
    }

    /** send_patch */
    static method PutPatch(pkt: Packet, data: seq<u8>, junk: nat -> Slice, lower: Fifo<Frame>)
      modifies lower
      ensures lower.items == old(lower.items) + SendPatch(pkt, data, junk)
    {
      ghost var wanted := if |data| <= MAX_SLICE_NUM then data else data[..MAX_SLICE_NUM];
      var areas: seq<Slice> := [];
      var len := 0;
      var i := 0;
      while i < |data| && FRM_MSG_HDR_LEN + SLICE_LEN * i < LINK_MTU - SLICE_LEN
        invariant 0 <= i <= |wanted| && len <= i
        invariant areas == Areas(pkt, wanted[..i], junk)
        invariant len == InRange(pkt, wanted[..i])
        invariant lower.items == old(lower.items)
      {
        assert wanted[..i + 1][..i] == wanted[..i];
        if data[i] < |pkt.slices| {
          areas := areas + [pkt.slices[data[i]]];
          len := len + 1;
        } else {
          areas := areas + [junk(i)];
        }
        i := i + 1;
      }
      assert wanted[..i] == wanted;
      if len == 0 {
        return;
      }
      lower.Push(Patch(pkt.src, pkt.dst, pkt.seqNo, areas[..len]));
    }

    /** proc_sse_ack_timeout */
    method ProcAckTimeout(lower: Fifo<Frame>, now: int)
      requires pktList != []
      modifies this, lower
      ensures var r := AckTimeout(old(Current()), now);
              Current() == r.state && lower.items == old(lower.items) + r.out
    {
      var pkt := pktList[0];
      idleTimeout := now + IDLE_TIMEOUT;
      ackRetry := ackRetry + 1;
      if ackRetry <= MAX_RETRY_TIMES {
        lower.Push(Ackr(pkt.src, pkt.dst, (seqNo - 1) % 0x100));
        return;
      }
      ackRetry := 0;
      dataRetry := dataRetry + 1;
      if dataRetry > MAX_RETRY_TIMES {
        pktList := pktList[1..];
        isWaiting := false;
        ackTimeout := NO_TIMER;
        dataRetry := 0;
        TryToSend(lower, now);
      } else {
        isWaiting := false;
        TryToSend(lower, now);
      }
    }

    /** This session's turn in proc_timer; the result says whether the session is kept. */
    method ProcTimer(lower: Fifo<Frame>, now: int) returns (keep: bool)
      requires AckTimerDue(Current(), now) ==> pktList != []
      modifies this, lower
      ensures var r := Timer(old(Current()), now);
              keep == r.0.Some? && (keep ==> r.0 == Some(Current())) && lower.items == old(lower.items) + r.1
    {
      if ackTimeout > 0 && now >= ackTimeout {
        ProcAckTimeout(lower, now);
      }
      keep := now < idleTimeout;
    }
  }
}
