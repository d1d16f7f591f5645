/** Any number of queued packets over a link that loses nothing: the acknowledgement of each sends the next. */
module Streams {
  import opened Bytes
  import opened Packets
  import opened Frames
  import opened Framing
  import opened Wire
  import opened Exchange
  import Retry
  import Slicing
  import S = Sender
  import R = Receiver

  /** When the receiver gets a DATA frame, and what nature adds to the exchange that follows. */
  datatype Turn = Turn(later: int, e: Nature)

  ghost predicate Orderly(x: Turn) {
    0 <= x.later <= x.e.t0 && Natural(x.e)
  }

  /** The receiver gets what the sender has queued, the exchange follows, and so on with what the sender queues then. */
  ghost function Conversation(c: Crcs, s: S.State, ro: Option<R.State>, out: seq<Frame>, turns: seq<Turn>): (ends: Ends)
    requires FitsSession(ro) && forall i :: 0 <= i < |turns| ==> Orderly(turns[i])
    ensures FitsSession(ends.rcv)
    decreases |turns|
  {
    if turns == [] then Ends(s, ro, [], out)
    else
      assert Orderly(turns[0]);
      var got := Sent(c, out, turns[0].e.stale);
      if got.None? || !got.value.Data? || got.value.len > R.MAX_SAFE_LEN then Ends(s, ro, [], out)
      else
        var first := Opened(c, s, ro, got.value, turns[0].later, turns[0].e);
        var rest := Conversation(c, first.snd, first.rcv, first.out, turns[1..]);
        rest.(up := first.up + rest.up)
  }

  // ----- a longer queue behaves like its head -----

  /** `one` has only the head of s's queue, and perhaps another next number. */
  ghost predicate Alike(s: S.State, one: S.State) {
    s.queue != [] && one.queue == [s.queue[0]] && one == s.(queue := one.queue, seqNo := one.seqNo)
  }

  function Next(queue: seq<Packet>): seq<Frame> {
    if queue == [] then [] else [DataFrame(queue[0])]
  }

  /** What becomes of a sender with this queue, where x becomes of the one with only its head. */
  ghost predicate EndsAlike(queue: seq<Packet>, y: Ends, x: Ends)
    requires queue != []
  {
    && y.rcv == x.rcv && y.up == x.up
    && if x.snd.queue == [] then S.Inv(y.snd) && y.snd.queue == queue[1..] && y.out == Next(queue[1..])
       else Alike(y.snd, x.snd) && y.snd.queue == queue && y.out == []
  }

  lemma PoppedAlike(s: S.State, one: S.State, f: Frame, now: int, r: Option<R.State>, up: seq<seq<u8>>)
    requires Alike(s, one) && S.Armed(s) && 0 <= now
    ensures var a, b := S.ProcAckAll(s, f, now), S.ProcAckAll(one, f, now);
            EndsAlike(s.queue, Ends(a.state, r, up, a.out), Ends(b.state, r, up, b.out))
  {
    Retry.AckSendsNext(s, f, now);
  }

  lemma PatchedAlike(c: Crcs, s: S.State, one: S.State, r: R.State, got: Option<Frame>, e: Nature)
    requires R.Sized(r) && Alike(s, one) && S.Armed(s) && Natural(e)
    ensures EndsAlike(s.queue, Patched(c, s, r, got, e), Patched(c, one, r, got, e))
  {
    hide R.ProcPatch, R.Sized, Through, S.ProcAckAll, EndsAlike;
    SameAlike(s, one, Some(r), []);
    if got.Some? && got.value.Patch? {
      var taken := R.ProcPatch(c, r, got.value, e.t1);
      SameAlike(s, one, Some(taken.state), taken.up);
      var ack := Sent(c, taken.out, e.stale);
      if ack.Some? {
        PoppedAlike(s, one, ack.value, e.t2, Some(taken.state), taken.up);
      }
    }
  }

  lemma SameAlike(s: S.State, one: S.State, ro: Option<R.State>, up: seq<seq<u8>>)
    requires Alike(s, one)
    ensures EndsAlike(s.queue, Ends(s, ro, up, []), Ends(one, ro, up, []))
  {
  }

  lemma ServedAlike(c: Crcs, s: S.State, one: S.State, r: R.State, answer: Option<Frame>, e: Nature)
    requires R.Sized(r) && Alike(s, one) && S.Armed(s) && Natural(e)
    ensures EndsAlike(s.queue, Served(c, s, r, answer, e), Served(c, one, r, answer, e))
  {
    hide Patched, R.Sized, Through, S.ProcAckAll, S.SendPatch, EndsAlike;
    SameAlike(s, one, Some(r), []);
    if answer.Some? {
      PoppedAlike(s, one, answer.value, e.t0, Some(r), []);
      if answer.value.Ackp? {
        var a, b := S.ProcAckPart(s, answer.value, e.junk, e.t0), S.ProcAckPart(one, answer.value, e.junk, e.t0);
        assert a.out == b.out && Alike(a.state, b.state);
        PatchedAlike(c, a.state, b.state, r, Sent(c, a.out, e.stale), e);
      }
    }
  }

  lemma OpenedAlike(c: Crcs, s: S.State, one: S.State, ro: Option<R.State>, data: Frame, now: int, e: Nature)
    requires data.Data? && data.len <= R.MAX_SAFE_LEN && FitsSession(ro)
    requires Alike(s, one) && S.Armed(s) && Natural(e)
    ensures EndsAlike(s.queue, Opened(c, s, ro, data, now, e), Opened(c, one, ro, data, now, e))
  {
    hide Served, R.PatchRse, R.SendAck, Through;
    assert R.Sized(R.ProcData(c, ro, data, now).state);
    var got := R.ProcData(c, ro, data, now);
    ServedAlike(c, s, one, got.state, Sent(c, got.out, e.stale), e);
  }

  // ----- the whole queue -----

  /** Packet i is made of message i. */
  ghost predicate Made(c: Crcs, ps: seq<Packet>, ms: seq<seq<u8>>) {
    |ps| == |ms| && forall i :: 0 <= i < |ps| ==> Packed(c, ps[i], ms[i])
  }

  /** The PATCH with all slices takes exactly 1002 bytes. */
  ghost predicate Hindered(c: Crcs, p: Packet) {
    var f := Patch(p.src, p.dst, p.seqNo, p.slices);
    Buildable(f) && |Framed(Encode(c, f, 0))| == LINK_MTU + 2
  }

  /** How many packets go before the first that is hindered. */
  ghost function Smooth(c: Crcs, ps: seq<Packet>): (k: nat)
    ensures k <= |ps|
    ensures forall i :: 0 <= i < k ==> !Hindered(c, ps[i])
    ensures k < |ps| ==> Hindered(c, ps[k])
  {
    if ps == [] || Hindered(c, ps[0]) then 0 else 1 + Smooth(c, ps[1..])
  }

  /** The exchange for the head of the queue. */
  lemma HeadHandedUp(c: Crcs, s: S.State, ro: Option<R.State>, m: seq<u8>, x: Turn) returns (first: Ends)
    requires S.Inv(s) && s.queue != [] && Packed(c, s.queue[0], m) && FitsSession(ro) && Orderly(x)
    ensures DataFrame(s.queue[0]).len <= R.MAX_SAFE_LEN
    ensures Sent(c, [DataFrame(s.queue[0])], x.e.stale) == Some(DataFrame(s.queue[0]))
    ensures first == Opened(c, s, ro, DataFrame(s.queue[0]), x.later, x.e)
    ensures if Hindered(c, s.queue[0]) then first.up == [] && first.out == [] && first.snd.queue == s.queue
            else
              && first.up == [m] && S.Inv(first.snd)
              && first.snd.queue == s.queue[1..] && first.out == Next(s.queue[1..])
  {
    var p := s.queue[0];
    var one := s.(queue := [p], seqNo := (p.seqNo + 1) % 0x100);
    SmallCrosses(c, DataFrame(p), x.e.stale);
    OpenedEnds(c, one, ro, p, m, x.later, x.e);
    OpenedAlike(c, s, one, ro, DataFrame(p), x.later, x.e);
    first := Opened(c, s, ro, DataFrame(p), x.later, x.e);
  }

  /** From a sender that has announced the head of its queue, and a receiver in any state: without a single timeout the
      messages are handed up in order, each exactly once and byte for byte, and the queue empties, up to the first
      packet whose PATCH is 1002 bytes long. That one has to wait for the timer. */
  lemma {:induction false} AllHandedUp(c: Crcs, s: S.State, ro: Option<R.State>, ms: seq<seq<u8>>, turns: seq<Turn>)
    requires S.Inv(s) && Made(c, s.queue, ms) && FitsSession(ro) && |turns| >= |ms|
    requires forall i :: 0 <= i < |turns| ==> Orderly(turns[i])
    ensures var ends, k := Conversation(c, s, ro, Next(s.queue), turns), Smooth(c, s.queue);
            ends.up == ms[..k] && ends.snd.queue == s.queue[k..] && ends.out == []
    decreases |turns|
  {
    hide Opened, Packed, Hindered, S.Inv, Sent, R.Sized;
    if s.queue == [] {
      NothingToSend(c, s, ro, turns);
    } else {
      FirstMade(c, s.queue, ms);
      var first := HeadHandedUp(c, s, ro, ms[0], turns[0]);
      assert Orderly(turns[0]);
      FirstTurn(c, s, ro, turns, first);
      if Hindered(c, s.queue[0]) {
        NothingToSend(c, first.snd, first.rcv, turns[1..]);
      } else {
        AllHandedUp(c, first.snd, first.rcv, ms[1..], turns[1..]);
        var k := Smooth(c, s.queue[1..]);
        assert [ms[0]] + ms[1..][..k] == ms[..k + 1];
      }
    }
  }

  lemma FirstMade(c: Crcs, ps: seq<Packet>, ms: seq<seq<u8>>)
    requires Made(c, ps, ms) && ps != []
    ensures Packed(c, ps[0], ms[0]) && Made(c, ps[1..], ms[1..])
  {
    hide Packed;
  }

  lemma NothingToSend(c: Crcs, s: S.State, ro: Option<R.State>, turns: seq<Turn>)
    requires FitsSession(ro) && forall i :: 0 <= i < |turns| ==> Orderly(turns[i])
    ensures Conversation(c, s, ro, [], turns) == Ends(s, ro, [], [])
  {
  }

  lemma FirstTurn(c: Crcs, s: S.State, ro: Option<R.State>, turns: seq<Turn>, first: Ends)
    requires s.queue != [] && FitsSession(ro) && turns != [] && forall i :: 0 <= i < |turns| ==> Orderly(turns[i])
    requires Orderly(turns[0]) && DataFrame(s.queue[0]).len <= R.MAX_SAFE_LEN
    requires Sent(c, [DataFrame(s.queue[0])], turns[0].e.stale) == Some(DataFrame(s.queue[0]))
    requires first == Opened(c, s, ro, DataFrame(s.queue[0]), turns[0].later, turns[0].e)
    ensures var rest := Conversation(c, first.snd, first.rcv, first.out, turns[1..]);
            Conversation(c, s, ro, Next(s.queue), turns) == rest.(up := first.up + rest.up)
  {
    hide Opened, Sent, R.Sized;
  }
}
