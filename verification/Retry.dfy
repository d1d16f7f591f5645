/** How long a sender that hears nothing keeps trying: six DATA frames a packet, five ACKR frames after each. */
module Retry {
  import opened Bytes
  import opened Packets
  import opened Frames
  import opened Sender

  /** How many timeouts the head packet has already used up. */
  function Used(s: State): int {
    6 * s.dataRetry + s.ackRetry
  }

  /** How many more timeouts empty the queue. */
  function Remaining(s: State): int {
    36 * |s.queue| - Used(s)
  }

  /** Each acknowledgement timeout lowers the measure by exactly one; what is sent depends on the place in the
      cycle: an ACKR, the head's DATA again, or, after the 36th, the DATA of the next packet. */
  lemma TimeoutLowersMeasure(s: State, now: int)
    requires Armed(s) && s.queue != []
    ensures var r := AckTimeout(s, now);
            && Remaining(r.state) == Remaining(s) - 1
            && (if (Used(s) + 1) % 6 != 0 then
                  r.out == [Ackr(s.queue[0].src, s.queue[0].dst, (s.seqNo - 1) % 0x100)]
                else if Used(s) + 1 < 36 then r.out == [DataFrame(s.queue[0])]
                else r.out == if |s.queue| == 1 then [] else [DataFrame(s.queue[1])])
            && r.state.queue == if Used(s) + 1 < 36 then s.queue else s.queue[1..]
  {
  }

  // ----- what raises the measure, lowers it, and starts the timer -----

  /** A message given to upper_send adds its own 36 tries, and takes none from the packets before it. Sent at once, it
      times out after exactly the interval; queued, it leaves the timer alone. */
  lemma SendAddsTries(c: Crcs, so: Option<State>, src: u8, dst: u8, msg: seq<u8>, now: int)
    requires msg != [] && 0 <= now && (so.Some? ==> Armed(so.value))
    ensures var t := UpperSend(c, so, src, dst, msg, now).state;
            && Armed(t) && Remaining(t) == 36 + (if so.Some? then Remaining(so.value) else 0)
            && forall later :: AckTimerDue(t, later) <==>
                 if so.Some? && so.value.queue != [] then AckTimerDue(so.value, later) else later >= now + ACK_TIMEOUT
  {
  }

  /** An acknowledgement of the head takes it off the queue with whatever tries it had left, and sends the next packet
      at once, which has all of its own and times out after exactly the interval. Any other changes nothing. */
  lemma AckSendsNext(s: State, f: Frame, now: int)
    requires Armed(s) && 0 <= now
    ensures var r := ProcAckAll(s, f, now);
            && Armed(r.state)
            && (!Answers(f, s) ==> r.out == [] && r.state == s.(idleTimeout := r.state.idleTimeout))
            && (Answers(f, s) ==>
                  && Inv(r.state) && r.state.queue == s.queue[1..] && Remaining(r.state) == 36 * (|s.queue| - 1)
                  && r.out == (if |s.queue| == 1 then [] else [DataFrame(s.queue[1])])
                  && forall t :: AckTimerDue(r.state, t) <==> |s.queue| > 1 && t >= now + ACK_TIMEOUT)
  {
  }

  /** A request for slices of the head gives it back the requests already made, not the DATA already sent, and starts
      the timer again. Any other changes nothing. */
  lemma PartRestartsTimer(s: State, f: Frame, junk: nat -> Slice, now: int)
    requires Armed(s) && f.Ackp? && 0 <= now
    ensures var r := ProcAckPart(s, f, junk, now);
            && Armed(r.state) && r.state.queue == s.queue
            && (!Answers(f, s) ==> r.out == [] && r.state == s.(idleTimeout := r.state.idleTimeout))
            && (Answers(f, s) ==>
                  && Remaining(r.state) == 36 * |s.queue| - 6 * s.dataRetry
                  && forall t :: AckTimerDue(r.state, t) <==> t >= now + ACK_TIMEOUT)
  {
  }

  /** A request for an acknowledgement does not start the timer again: the next call of proc_timer times out again. Only
      DATA does. */
  lemma TimerAfterTimeout(s: State, now: int, t: int)
    requires Armed(s) && s.queue != [] && 0 <= now
    ensures var r := AckTimeout(s, now).state;
            AckTimerDue(r, t) <==>
              if (Used(s) + 1) % 6 != 0 then AckTimerDue(s, t) else r.queue != [] && t >= now + ACK_TIMEOUT
  {
  }

  /** The session after the timeouts at the given times, with nothing received in between. */
  function AfterTimeouts(s: State, times: seq<int>): State {
    if times == [] then s
    else
      var t := AfterTimeouts(s, times[..|times| - 1]);
      if t.queue == [] then t else AckTimeout(t, times[|times| - 1]).state
  }

  /** `t` has lost only packets from the head of `s`'s queue. Its measure then tells how many, and how often
      the present head has been tried. */
  ghost predicate LaterThan(t: State, s: State) {
    && Armed(t)
    && |t.queue| <= |s.queue| && t.queue == s.queue[|s.queue| - |t.queue|..]
  }

  lemma OneLater(s: State, t: State, now: int)
    requires LaterThan(t, s) && t.queue != [] && 0 <= now
    ensures LaterThan(AckTimeout(t, now).state, s)
  {
    TimeoutLowersMeasure(t, now);
    AckTimeoutKeepsInv(t, now);
  }

  lemma MeasureOfEmpty(s: State)
    requires Armed(s)
    ensures s.queue == [] ==> Remaining(s) == 0
    ensures s.queue != [] ==> Remaining(s) > 0
  {
  }

  /** Without acknowledgements k timeouts lower the measure by exactly k. */
  lemma {:induction false} Schedule(s: State, times: seq<int>)
    requires Armed(s) && |times| <= Remaining(s)
    requires forall i :: 0 <= i < |times| ==> times[i] >= 0
    ensures var r := AfterTimeouts(s, times); LaterThan(r, s) && Remaining(r) == Remaining(s) - |times|
  {
    hide AckTimeout;
    if times != [] {
      var before, now := times[..|times| - 1], times[|times| - 1];
      Schedule(s, before);
      var t := AfterTimeouts(s, before);
      MeasureOfEmpty(t);
      TimeoutLowersMeasure(t, now);
      OneLater(s, t, now);
    }
  }

  /** A head packet with fresh counters survives 35 timeouts and is dropped at the 36th; n packets are
      gone after exactly 36n, not one earlier. */
  lemma DroppedAtThe36th(s: State, times: seq<int>)
    requires Armed(s) && s.queue != [] && Used(s) == 0
    requires |times| <= 36 * |s.queue|
    requires forall i :: 0 <= i < |times| ==> times[i] >= 0
    ensures |times| < 36 ==> AfterTimeouts(s, times).queue == s.queue
    ensures |times| == 36 ==> AfterTimeouts(s, times).queue == s.queue[1..]
    ensures AfterTimeouts(s, times).queue == [] <==> |times| == 36 * |s.queue|
  {
    Schedule(s, times);
    MeasureOfEmpty(AfterTimeouts(s, times));
  }
}
