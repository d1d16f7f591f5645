/** One message between two ends over a link that loses nothing: the exchange of DATA, ACKP, PATCH and ACKA. Every frame
    is built, escaped, queued, read and checked. */
module Exchange {
  import opened Bytes
  import opened Packets
  import opened Frames
  import opened Bitmap
  import opened Framing
  import opened SplitContent
  import opened Wire
  import opened Patches
  import opened PatchSizes
  import Slicing
  import S = Sender
  import R = Receiver

  /** What becomes of a frame that one end builds, whatever the buffer behind it held. */
  ghost function Through(c: Crcs, f: Frame, stale: seq<u8>): Option<Frame>
    requires |stale| == LINK_MTU
  {
    if Buildable(f) then Carried(c, OnLink(Encode(c, f, 0), stale)) else None
  }

  /** What arrives of the one frame a handler queues, if it queues any. */
  ghost function Sent(c: Crcs, out: seq<Frame>, stale: seq<u8>): Option<Frame>
    requires |stale| == LINK_MTU
  {
    if out == [] then None else Through(c, out[0], stale)
  }

  /** Both ends, what the receiver handed up on the way, and what the sender queued when it was acknowledged. */
  datatype Ends = Ends(snd: S.State, rcv: Option<R.State>, up: seq<seq<u8>>, out: seq<Frame>)

  /** What nature adds: the times of three handlers, the stack contents of two. */
  datatype Nature = Nature(t0: int, t1: int, t2: int, junk: nat -> Slice, stale: seq<u8>)

  ghost predicate Natural(e: Nature) {
    0 <= e.t0 <= e.t1 <= e.t2 && |e.stale| == LINK_MTU
  }

  ghost predicate FitsSession(ro: Option<R.State>) {
    ro.Some? ==> R.Sized(ro.value)
  }

  /** The sender, now in state s, has sent a PATCH, and this is what arrives of it; then ACKA, as far as it goes. */
  ghost function Patched(c: Crcs, s: S.State, r: R.State, got: Option<Frame>, e: Nature): (ends: Ends)
    requires R.Sized(r) && |e.stale| == LINK_MTU
    ensures FitsSession(ends.rcv)
  {
    if got.None? || !got.value.Patch? then Ends(s, Some(r), [], [])
    else
      var taken := R.ProcPatch(c, r, got.value, e.t1);
      var ack := Sent(c, taken.out, e.stale);
      if ack.None? || !ack.value.Acka? then Ends(s, Some(taken.state), taken.up, [])
      else
        var popped := S.ProcAckAll(s, ack.value, e.t2);
        Ends(popped.state, Some(taken.state), taken.up, popped.out)
  }

  /** The sender gets the receiver's answer: an acknowledgement, or a request; then as above. */
  ghost function Served(c: Crcs, s: S.State, r: R.State, answer: Option<Frame>, e: Nature): (ends: Ends)
    requires R.Sized(r) && |e.stale| == LINK_MTU
    ensures FitsSession(ends.rcv)
  {
    if answer.None? then Ends(s, Some(r), [], [])
    else if answer.value.Acka? then
      var popped := S.ProcAckAll(s, answer.value, e.t0);
      Ends(popped.state, Some(r), [], popped.out)
    else if answer.value.Ackp? then
      var part := S.ProcAckPart(s, answer.value, e.junk, e.t0);
      Patched(c, part.state, r, Sent(c, part.out, e.stale), e)
    else Ends(s, Some(r), [], [])
  }

  /** The receiver gets DATA; then its answer is served. */
  ghost function Opened(c: Crcs, s: S.State, ro: Option<R.State>, data: Frame, now: int, e: Nature): (ends: Ends)
    requires data.Data? && data.len <= R.MAX_SAFE_LEN && FitsSession(ro) && |e.stale| == LINK_MTU
    ensures FitsSession(ends.rcv)
  {
    var got := R.ProcData(c, ro, data, now);
    var ends := Served(c, s, got.state, Sent(c, got.out, e.stale), e);
    ends.(up := got.up + ends.up)
  }

  /** upper_send and all that follows. */
  ghost function Exchanged(c: Crcs, so: Option<S.State>, ro: Option<R.State>, a: u8, b: u8, msg: seq<u8>, now: int,
                           later: int, e: Nature): Option<Ends>
    requires msg != [] && FitsSession(ro) && |e.stale| == LINK_MTU
  {
    var send := S.UpperSend(c, so, a, b, msg, now);
    var data := Sent(c, send.out, e.stale);
    if data.None? || !data.value.Data? || data.value.len > R.MAX_SAFE_LEN then None
    else Some(Opened(c, send.state, ro, data.value, later, e))
  }

  // ----- small frames cross -----

  lemma SmallCrosses(c: Crcs, f: Frame, stale: seq<u8>)
    requires Buildable(f) && (f.Ackr? || f.Acka? || f.Ackp? || (f.Data? && f.slices == [])) && |stale| == LINK_MTU
    ensures Through(c, f, stale) == Some(f)
  {
    hide Carried, Encode;
    SmallFramesFit(c, f, 0);
    CarriedWhole(c, f, 0, [], []);
    assert [] + Framed(Encode(c, f, 0)) + [] == Framed(Encode(c, f, 0));
  }

  // ----- the receiver's side -----

  /** The packet with number k for message m, which upper_send accepted. */
  ghost predicate Packed(c: Crcs, p: Packet, m: seq<u8>) {
    && 0 < |m| <= MAX_MSG_LEN && p == MakePacket(c, p.src, p.dst, p.seqNo, m)
    && Slicing.Fits(c, p.src, p.dst, p.seqNo, m)
  }

  /** The receiver is set up for packet p, holds what it has marked, and something is missing. */
  ghost predicate Awaiting(c: Crcs, r: R.State, p: Packet, m: seq<u8>) {
    && Holds(r, m) && !r.completed && !r.nak && r.seqExp == p.seqNo && r.dCsum == c.c32(m)
    && (forall k :: k in r.bits ==> k < SliceCount(|m|))
    && Wanted(r, m) != []
  }

  /** The slices that are missing. */
  ghost function Wanted(r: R.State, m: seq<u8>): (w: seq<u8>)
    requires |m| <= R.MAX_SAFE_LEN
    ensures Increasing(w) && forall k :: k in w <==> 0 <= k < SliceCount(|m|) && k !in r.bits
    ensures Asks(w, m)
  {
    MissingExact(r.bits, 0, SliceCount(|m|));
    R.SliceNumbers(r.bits, SliceCount(|m|));
    R.AsBytes(Missing(r.bits, 0, SliceCount(|m|)))
  }

  /** A list of slices of m, each named once. */
  ghost predicate Asks(w: seq<u8>, m: seq<u8>) {
    Increasing(w) && Within(w, SliceCount(|m|))
  }

  lemma AsksFew(w: seq<u8>, m: seq<u8>)
    requires |m| <= MAX_MSG_LEN && Asks(w, m)
    ensures |w| <= SliceCount(|m|) <= MAX_SLICE_NUM
  {
    if w != [] {
      AtLeast(w, |w| - 1);
    }
  }

  function Request(p: Packet, w: seq<u8>): Frame {
    Ackp(p.dst, p.src, p.seqNo, w)
  }

  /** A receiver that waits for something asks for exactly that. */
  lemma AsksForMissing(c: Crcs, r: R.State, p: Packet, m: seq<u8>)
    requires Packed(c, p, m) && Awaiting(c, r, p, m)
    ensures R.SendAck(r, p.src, p.dst) == [Request(p, Wanted(r, m))]
  {
    R.SliceNumbers(r.bits, r.nSlices);
    assert Wanted(r, m)[0] in Wanted(r, m);
  }

  /** After a header frame everything is missing. */
  lemma DataAnswered(c: Crcs, ro: Option<R.State>, p: Packet, m: seq<u8>, now: int)
    requires Packed(c, p, m) && FitsSession(ro)
    ensures var r := R.ProcData(c, ro, DataFrame(p), now);
            && r.up == [] && Awaiting(c, r.state, p, m) && r.state.bits == {}
            && r.out == [Request(p, Wanted(r.state, m))]
  {
    var f := DataFrame(p);
    var s := R.Restarted(ro, f, now);
    assert R.PatchRse(c, s, f.slices) == s;
    assert 0 !in s.bits && 0 in Wanted(s, m);
    AsksForMissing(c, s, p, m);
  }

  // ----- the sender's side -----

  /** The PATCH with the slices in the list. */
  ghost function PatchFor(c: Crcs, w: seq<u8>, p: Packet, m: seq<u8>): Frame
    requires Packed(c, p, m) && Asks(w, m)
  {
    Patch(p.src, p.dst, p.seqNo, Picked(Slices(c, m), w))
  }

  /** It is two bytes too long for the link. */
  ghost predicate TooLong(c: Crcs, w: seq<u8>, p: Packet, m: seq<u8>)
    requires Packed(c, p, m) && Asks(w, m)
  {
    var f := PatchFor(c, w, p, m);
    Buildable(f) && |Framed(Encode(c, f, 0))| == LINK_MTU + 2
  }

  lemma PartAnswered(c: Crcs, s: S.State, p: Packet, m: seq<u8>, w: seq<u8>, e: Nature)
    requires Packed(c, p, m) && s.queue == [p] && Asks(w, m) && w != []
    ensures var part := S.ProcAckPart(s, Request(p, w), e.junk, e.t0);
            && part.state == S.Touched(s, e.t0).(ackTimeout := e.t0 + S.ACK_TIMEOUT, ackRetry := 0)
            && part.out == [PatchFor(c, w, p, m)]
  {
    AsksFew(w, m);
    S.SendPatchExact(p, w, e.junk);
  }

  /** The PATCH arrives whole, or without its last slice if it is too long, which takes a request for all slices. */
  lemma PatchArrives(c: Crcs, w: seq<u8>, p: Packet, m: seq<u8>, stale: seq<u8>)
    requires Packed(c, p, m) && Asks(w, m) && w != [] && |stale| == LINK_MTU
    ensures var f := PatchFor(c, w, p, m);
            && Buildable(f)
            && (!TooLong(c, w, p, m) ==> Through(c, f, stale) == Some(f))
            && (TooLong(c, w, p, m) ==> f.slices == Slices(c, m) && AllButLast(c, Through(c, f, stale), f))
  {
    hide Encode, Carried, Slices, Slicing.Fits, OnLink, AllButLast, Intact;
    var f := PatchFor(c, w, p, m);
    AcceptedPatchLength(c, p.src, p.dst, p.seqNo, m, w);
    PatchCrossesIff(c, f, stale);
    if TooLong(c, w, p, m) {
      PickedSpecials(Slices(c, m), w);
      AllIntact(c, m);
      AllButLastArrive(c, f, stale);
    }
  }

  lemma AllIntact(c: Crcs, m: seq<u8>)
    requires |m| <= MAX_MSG_LEN
    ensures forall sl :: sl in Slices(c, m) ==> Intact(c, sl)
    ensures forall k :: 0 <= k < SliceCount(|m|) ==> Slices(c, m)[k].seqNo as nat == k
  {
  }

  // ----- the receiver takes a PATCH -----

  /** The numbers of the intact slices of a PATCH that arrived whole. */
  lemma PickedNumbers(c: Crcs, w: seq<u8>, p: Packet, m: seq<u8>)
    requires Packed(c, p, m) && Asks(w, m)
    ensures var f := PatchFor(c, w, p, m);
            && (forall sl :: sl in f.slices ==> Genuine(c, m, sl))
            && forall k: nat :: k in Numbers(c, f.slices) <==> k in w
  {
    hide Slices, Slicing.Fits, Intact;
    AllIntact(c, m);
    var f := PatchFor(c, w, p, m);
    forall sl | sl in f.slices ensures sl in Slices(c, m) {
    }
    forall k: nat | k in w ensures k in Numbers(c, f.slices) {
      var i :| 0 <= i < |w| && w[i] == k;
      assert f.slices[i] == Slices(c, m)[k] && f.slices[i] in f.slices;
    }
    forall k | k in Numbers(c, f.slices) ensures k in w {
      var sl :| sl in f.slices && Intact(c, sl) && sl.seqNo as nat == k;
      var i :| 0 <= i < |f.slices| && f.slices[i] == sl;
      assert w[i] in w;
    }
  }

  lemma CutNumbers(c: Crcs, got: Frame, f: Frame, m: seq<u8>)
    requires 0 < |m| <= MAX_MSG_LEN && f.Patch? && f.slices == Slices(c, m) && AllButLast(c, Some(got), f)
    ensures forall sl :: sl in got.slices ==> Genuine(c, m, sl)
    ensures forall k: nat :: k in Numbers(c, got.slices) <==> k < SliceCount(|m|) - 1
  {
    hide Slices, Intact;
    AllIntact(c, m);
    var n := SliceCount(|m|);
    assert forall i :: 0 <= i < n - 1 ==> got.slices[i] == got.slices[..n - 1][i] == Slices(c, m)[i];
    forall k: nat | k < n - 1 ensures k in Numbers(c, got.slices) {
      assert Slices(c, m)[k] in got.slices;
    }
    forall sl | sl in got.slices && Intact(c, sl) ensures sl in Slices(c, m) && sl.seqNo as nat < n - 1 {
      var i :| 0 <= i < |got.slices| && got.slices[i] == sl;
    }
  }

  /** A PATCH with everything that is missing completes the message. */
  lemma Completed(c: Crcs, r: R.State, p: Packet, m: seq<u8>, f: Frame, now: int)
    requires Packed(c, p, m) && Awaiting(c, r, p, m) && f == PatchFor(c, Wanted(r, m), p, m)
    ensures var t := R.ProcPatch(c, r, f, now);
            t.up == [m] && t.out == [Acka(p.dst, p.src, p.seqNo)] && t.state.completed
  {
    hide Slices, Slicing.Fits, Numbers, Genuine, Wanted, PatchFor;
    PatchForIs(c, Wanted(r, m), p, m);
    PickedNumbers(c, Wanted(r, m), p, m);
    WantedIs(r, m);
    var t := r.(idleTimeout := now + IDLE_TIMEOUT);
    PatchKeeps(c, t, m, f.slices);
    var u := R.PatchRse(c, t, f.slices);
    FullIsMessage(u, m);
    assert AllSet(u.bits, u.nSlices);
  }

  lemma PatchForIs(c: Crcs, w: seq<u8>, p: Packet, m: seq<u8>)
    requires Packed(c, p, m) && Asks(w, m)
    ensures var f := PatchFor(c, w, p, m); f.Patch? && f.src == p.src && f.dst == p.dst && f.seqNo == p.seqNo
  {
  }

  lemma WantedIs(r: R.State, m: seq<u8>)
    requires |m| <= R.MAX_SAFE_LEN
    ensures forall k :: k in Wanted(r, m) <==> 0 <= k < SliceCount(|m|) && k !in r.bits
  {
  }

  /** A PATCH that lost its last slice leaves exactly that slice missing. */
  lemma AlmostCompleted(c: Crcs, r: R.State, p: Packet, m: seq<u8>, f: Frame, got: Frame, now: int)
    requires Packed(c, p, m) && Awaiting(c, r, p, m) && r.bits == {}
    requires f.Patch? && f.slices == Slices(c, m) && AllButLast(c, Some(got), f)
    requires got.Patch? && got.seqNo == p.seqNo
    ensures var t := R.ProcPatch(c, r, got, now);
            && t.up == [] && t.out == [] && Awaiting(c, t.state, p, m)
            && Wanted(t.state, m) == [SliceCount(|m|) - 1]
  {
    hide Slices, Slicing.Fits, Numbers, Genuine, AllButLast, Wanted;
    CutNumbers(c, got, f, m);
    var t := r.(idleTimeout := now + IDLE_TIMEOUT);
    PatchKeeps(c, t, m, got.slices);
    var u := R.PatchRse(c, t, got.slices);
    assert forall k: nat :: k in u.bits <==> k < SliceCount(|m|) - 1;
    OnlyLast(u, m);
    assert SliceCount(|m|) - 1 !in u.bits;
  }

  lemma OnlyLast(u: R.State, m: seq<u8>)
    requires 0 < |m| <= R.MAX_SAFE_LEN && forall k: nat :: k in u.bits <==> k < SliceCount(|m|) - 1
    ensures Wanted(u, m) == [SliceCount(|m|) - 1]
  {
    var w, n := Wanted(u, m), SliceCount(|m|);
    assert n - 1 in w && (|w| == 1 || w[0] < w[1]);
    forall i | 0 <= i < |w| ensures w[i] == n - 1 {
      assert w[i] in w;
    }
  }

  // ----- the exchange -----

  /** How an exchange can end: the message handed up once and off the queue, or, if its PATCH was too long, nothing
      handed up and only the last slice still missing. */
  ghost predicate Delivered(ends: Ends, m: seq<u8>) {
    && ends.up == [m] && ends.out == [] && ends.snd.queue == [] && !ends.snd.waiting
    && ends.rcv.Some? && ends.rcv.value.completed
  }

  ghost predicate OnlyLastMissing(c: Crcs, ends: Ends, p: Packet, m: seq<u8>) {
    && ends.up == [] && ends.out == [] && Waiting(ends.snd, p) && ends.snd.ackRetry == 0
    && ends.rcv.Some? && Awaiting(c, ends.rcv.value, p, m) && Wanted(ends.rcv.value, m) == [SliceCount(|m|) - 1]
  }

  /** The sender's one packet is p, its newest, and it waits for the acknowledgement. */
  ghost predicate Waiting(s: S.State, p: Packet) {
    S.Inv(s) && s.queue == [p] && s.seqNo == (p.seqNo + 1) % 0x100
  }

  /** A request for what is missing ends the exchange in one of these ways. */
  lemma ServedEnds(c: Crcs, s: S.State, r: R.State, p: Packet, m: seq<u8>, e: Nature)
    requires R.Sized(r) && Packed(c, p, m) && Awaiting(c, r, p, m) && Waiting(s, p) && Natural(e)
    ensures var w := Wanted(r, m);
            var ends := Served(c, s, r, Some(Request(p, w)), e);
            if TooLong(c, w, p, m) then OnlyLastMissing(c, ends, p, m) else Delivered(ends, m)
  {
    AwaitingMeans(c, r, p, m);
    var w := Wanted(r, m);
    hide Awaiting, Packed, PatchFor, Patched, R.Sized, TooLong, OnlyLastMissing, Delivered, Waiting, Through;
    hide S.ProcAckPart, Wanted, Asks;
    var t := S.ProcAckPart(s, Request(p, w), e.junk, e.t0).state;
    WaitingOn(c, s, p, m, w, e);
    if TooLong(c, w, p, m) {
      PatchedShort(c, t, r, p, m, w, e);
    } else {
      QueueOf(t, p);
      PatchedWhole(c, t, r, p, m, w, e);
    }
  }

  lemma WaitingOn(c: Crcs, s: S.State, p: Packet, m: seq<u8>, w: seq<u8>, e: Nature)
    requires Packed(c, p, m) && Waiting(s, p) && Asks(w, m) && w != [] && 0 <= e.t0
    ensures var part := S.ProcAckPart(s, Request(p, w), e.junk, e.t0);
            Waiting(part.state, p) && part.state.ackRetry == 0 && part.out == [PatchFor(c, w, p, m)]
  {
    hide Packed, PatchFor, Asks, S.SendPatch;
    PartAnswered(c, s, p, m, w, e);
  }

  lemma PatchedShort(c: Crcs, s: S.State, r: R.State, p: Packet, m: seq<u8>, w: seq<u8>, e: Nature)
    requires Packed(c, p, m) && Awaiting(c, r, p, m) && w == Wanted(r, m) && w != [] && TooLong(c, w, p, m)
    requires R.Sized(r) && Waiting(s, p) && s.ackRetry == 0 && Natural(e)
    ensures OnlyLastMissing(c, Patched(c, s, r, Through(c, PatchFor(c, w, p, m), e.stale), e), p, m)
  {
    AwaitingMeans(c, r, p, m);
    hide Awaiting, Packed, Through, PatchFor, AllButLast, R.ProcPatch, R.Sized, TooLong, Waiting;
    PatchForIs(c, w, p, m);
    PatchArrives(c, w, p, m, e.stale);
    var f := PatchFor(c, w, p, m);
    TooLongMeansAll(c, w, p, m);
    NothingSet(r, m);
    HeaderOf(c, Through(c, f, e.stale), f);
    AlmostCompleted(c, r, p, m, f, Through(c, f, e.stale).value, e.t1);
  }

  lemma PatchedWhole(c: Crcs, s: S.State, r: R.State, p: Packet, m: seq<u8>, w: seq<u8>, e: Nature)
    requires Packed(c, p, m) && Awaiting(c, r, p, m) && w == Wanted(r, m) && w != [] && !TooLong(c, w, p, m)
    requires R.Sized(r) && s.queue == [p] && Natural(e)
    ensures Delivered(Patched(c, s, r, Through(c, PatchFor(c, w, p, m), e.stale), e), m)
  {
    hide Awaiting, Packed, Through, PatchFor, AllButLast, R.ProcPatch, R.Sized, TooLong, Asks, Wanted, Buildable;
    PatchForIs(c, w, p, m);
    PatchArrives(c, w, p, m, e.stale);
    Completed(c, r, p, m, PatchFor(c, w, p, m), e.t1);
    AckaCrosses(c, p, e.stale);
  }

  lemma AckaCrosses(c: Crcs, p: Packet, stale: seq<u8>)
    requires |stale| == LINK_MTU
    ensures Through(c, Acka(p.dst, p.src, p.seqNo), stale) == Some(Acka(p.dst, p.src, p.seqNo))
  {
    hide Through;
    SmallCrosses(c, Acka(p.dst, p.src, p.seqNo), stale);
  }

  lemma QueueOf(s: S.State, p: Packet)
    requires Waiting(s, p)
    ensures s.queue == [p]
  {
  }

  lemma AwaitingMeans(c: Crcs, r: R.State, p: Packet, m: seq<u8>)
    requires Awaiting(c, r, p, m)
    ensures |m| <= R.MAX_SAFE_LEN && R.Sized(r) && Wanted(r, m) != []
    ensures forall k :: k in r.bits ==> k < SliceCount(|m|)
  {
  }

  lemma HeaderOf(c: Crcs, got: Option<Frame>, f: Frame)
    requires f.Patch? && f.slices != [] && AllButLast(c, got, f)
    ensures got.Some? && got.value.Patch? && got.value.seqNo == f.seqNo
  {
  }

  /** Only the request for all slices can be too long to serve. */
  lemma TooLongMeansAll(c: Crcs, w: seq<u8>, p: Packet, m: seq<u8>)
    requires Packed(c, p, m) && Asks(w, m) && w != [] && TooLong(c, w, p, m)
    ensures forall k: u8 :: k in w <==> k < SliceCount(|m|)
    ensures |w| == SliceCount(|m|) > 1
  {
    hide Slices, Slicing.Fits, Encode, Intact;
    AllIntact(c, m);
    var slices := Slices(c, m);
    AcceptedPatchLength(c, p.src, p.dst, p.seqNo, m, w);
    PickedSpecials(slices, w);
    MoreThanOne(c, PatchFor(c, w, p, m));
    forall k: u8 | k < SliceCount(|m|) ensures k in w {
      assert slices[k] == Picked(slices, w)[k] == slices[w[k]];
      assert w[k] == k;
    }
  }

  lemma MoreThanOne(c: Crcs, f: Frame)
    requires Buildable(f) && f.Patch? && |Framed(Encode(c, f, 0))| == LINK_MTU + 2
    ensures |f.slices| > 1
  {
    hide Encode;
    EncodedLength(c, f, 0);
    FrameLength(Encode(c, f, 0));
  }

  lemma NothingSet(r: R.State, m: seq<u8>)
    requires |m| <= R.MAX_SAFE_LEN && (forall k :: k in r.bits ==> k < SliceCount(|m|))
    requires forall k: u8 :: k < SliceCount(|m|) ==> k in Wanted(r, m)
    ensures r.bits == {}
  {
    forall k: nat ensures k !in r.bits {
      if k < SliceCount(|m|) {
        var b: u8 := k;
        assert b in Wanted(r, m);
      }
    }
  }

  /** From a sender with nothing queued and a receiver in any state, for every message, any checksums and whatever lies
      in the buffers: the accepted part of the message is handed up exactly once and the sender's queue ends empty,
      except when the PATCH is 1002 bytes long; then everything but the last slice has arrived. */
  lemma FaultFree(c: Crcs, so: Option<S.State>, ro: Option<R.State>, a: u8, b: u8, msg: seq<u8>, now: int, later: int,
                  e: Nature)
    requires so.Some? ==> S.Inv(so.value) && so.value.queue == []
    requires FitsSession(ro)
    requires msg != [] && 0 <= now <= later <= e.t0 && Natural(e)
    ensures var k := if so.Some? then so.value.seqNo else 0;
            var n := Slicing.Accepted(c, a, b, k, msg);
            && 0 < n <= |msg| && n <= MAX_MSG_LEN
            && var p := MakePacket(c, a, b, k, msg[..n]);
               && Packed(c, p, msg[..n])
               && var f := Patch(a, b, k, p.slices);
                  && Buildable(f)
                  && var ends := Exchanged(c, so, ro, a, b, msg, now, later, e);
                     && ends.Some?
                     && if |Framed(Encode(c, f, 0))| == LINK_MTU + 2 then OnlyLastMissing(c, ends.value, p, msg[..n])
                        else Delivered(ends.value, msg[..n])
  {
    hide Awaiting, Slices, Slicing.Fits, Slicing.Accepted, Through, Encode, R.ProcData, Served;
    hide OnlyLastMissing, Delivered;
    var k := if so.Some? then so.value.seqNo else 0;
    Slicing.AcceptedBounds(c, a, b, k, msg);
    var m := msg[..Slicing.Accepted(c, a, b, k, msg)];
    var p := MakePacket(c, a, b, k, m);
    var send := S.UpperSend(c, so, a, b, msg, now);
    S.UpperSendKeepsInv(c, so, a, b, msg, now);
    assert send.state.queue == [p] && send.out == [DataFrame(p)] && send.state.waiting;
    SmallCrosses(c, DataFrame(p), e.stale);
    OpenedEnds(c, send.state, ro, p, m, later, e);
  }

  lemma OpenedEnds(c: Crcs, s: S.State, ro: Option<R.State>, p: Packet, m: seq<u8>, now: int, e: Nature)
    requires Packed(c, p, m) && Waiting(s, p) && FitsSession(ro) && Natural(e)
    ensures var f := Patch(p.src, p.dst, p.seqNo, p.slices);
            && Buildable(f)
            && var ends := Opened(c, s, ro, DataFrame(p), now, e);
               if |Framed(Encode(c, f, 0))| == LINK_MTU + 2 then OnlyLastMissing(c, ends, p, m) else Delivered(ends, m)
  {
    hide Awaiting, Slices, Slicing.Fits, Through, Encode, R.ProcData, Served, OnlyLastMissing, TooLong, Request;
    DataAnswered(c, ro, p, m, now);
    var r := R.ProcData(c, ro, DataFrame(p), now).state;
    AwaitingMeans(c, r, p, m);
    var w := Wanted(r, m);
    AsksFew(w, m);
    RequestCrosses(c, p, w, e.stale);
    ServedEnds(c, s, r, p, m, e);
    WholePatch(c, r, p, m);
    var ends := Served(c, s, r, Some(Request(p, w)), e);
    assert [] + ends.up == ends.up;
  }

  lemma RequestCrosses(c: Crcs, p: Packet, w: seq<u8>, stale: seq<u8>)
    requires 0 < |w| < 0x100 && |stale| == LINK_MTU
    ensures Through(c, Request(p, w), stale) == Some(Request(p, w))
  {
    hide Through;
    SmallCrosses(c, Request(p, w), stale);
  }

  /** When everything is missing, the PATCH has all slices. */
  lemma WholePatch(c: Crcs, r: R.State, p: Packet, m: seq<u8>)
    requires Packed(c, p, m) && r.bits == {}
    ensures var w := Wanted(r, m);
            && PatchFor(c, w, p, m) == Patch(p.src, p.dst, p.seqNo, p.slices)
            && Buildable(PatchFor(c, w, p, m))
            && (TooLong(c, w, p, m) <==> |Framed(Encode(c, PatchFor(c, w, p, m), 0))| == LINK_MTU + 2)
  {
    hide Slicing.Fits, Encode;
    AllMissing(SliceCount(|m|), 0);
    var w := Wanted(r, m);
    assert forall i :: 0 <= i < |w| ==> w[i] == i;
  }

  /** The request that follows a DATA frame names every slice. */
  lemma {:induction false} AllMissing(n: nat, k: nat)
    requires k <= n
    ensures |Missing({}, k, n)| == n - k && forall i :: 0 <= i < n - k ==> Missing({}, k, n)[i] == k + i
    decreases n - k
  {
    if k < n {
      AllMissing(n, k + 1);
    }
  }
}
