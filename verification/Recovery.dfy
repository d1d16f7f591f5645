/** What the sender's timer achieves once the link has stopped losing frames, whatever was lost before: round by round,
    for a sender with one packet and a receiver in any state. */
module Recovery {
  import opened Bytes
  import opened Packets
  import opened Frames
  import opened Bitmap
  import opened SplitContent
  import opened Wire
  import opened Patches
  import opened PatchSizes
  import opened Exchange
  import Slicing
  import S = Sender
  import R = Receiver

  /** When the timer runs, when the receiver gets what the sender then sends, and what nature adds to the rest. */
  datatype Round = Round(now: int, later: int, e: Nature)

  ghost predicate Orderly(x: Round) {
    0 <= x.now <= x.later <= x.e.t0 && Natural(x.e)
  }

  /** The receiver gets ACKR; then its answer is served. */
  ghost function Asked(c: Crcs, s: S.State, ro: Option<R.State>, ask: Frame, now: int, e: Nature): (ends: Ends)
    requires FitsSession(ro) && |e.stale| == LINK_MTU
    ensures FitsSession(ends.rcv)
  {
    if ro.None? then Ends(s, None, [], [])
    else
      var got := R.ProcAckReq(ro.value, ask, now);
      Served(c, s, got.state, Sent(c, got.out, e.stale), e)
  }

  /** The sender's timer runs. It asks for an acknowledgement, sends DATA again, or drops the packet; then as above. */
  ghost function Recovered(c: Crcs, s: S.State, ro: Option<R.State>, x: Round): (ends: Ends)
    requires s.queue != [] && FitsSession(ro) && Orderly(x)
    ensures FitsSession(ends.rcv)
  {
    var turn := S.Timer(s, x.now);
    if turn.0.None? then Ends(s, ro, [], [])
    else
      var t, f := turn.0.value, Sent(c, turn.1, x.e.stale);
      if f.None? then Ends(t, ro, [], [])
      else if f.value.Ackr? then Asked(c, t, ro, f.value, x.later, x.e)
      else if f.value.Data? && f.value.len <= R.MAX_SAFE_LEN then Opened(c, t, ro, f.value, x.later, x.e)
      else Ends(t, ro, [], [])
  }

  /** Round after round, as long as something is queued. */
  ghost function AfterRounds(c: Crcs, s: S.State, ro: Option<R.State>, rounds: seq<Round>): (ends: Ends)
    requires FitsSession(ro) && forall i :: 0 <= i < |rounds| ==> Orderly(rounds[i])
    ensures FitsSession(ends.rcv)
    decreases |rounds|
  {
    if rounds == [] || s.queue == [] then Ends(s, ro, [], [])
    else
      var first := Recovered(c, s, ro, rounds[0]);
      var rest := AfterRounds(c, first.snd, first.rcv, rounds[1..]);
      rest.(up := first.up + rest.up)
  }

  /** Every round begins with a timer that has run out. */
  ghost predicate Timely(c: Crcs, s: S.State, ro: Option<R.State>, rounds: seq<Round>)
    requires FitsSession(ro)
    decreases |rounds|
  {
    && (forall i :: 0 <= i < |rounds| ==> Orderly(rounds[i]))
    && (rounds != [] && s.queue != [] ==>
          && S.AckTimerDue(s, rounds[0].now)
          && var first := Recovered(c, s, ro, rounds[0]); Timely(c, first.snd, first.rcv, rounds[1..]))
  }

  // ----- what the receiver can be up to -----

  ghost predicate Kept(ro: Option<R.State>) {
    ro.Some? ==> R.Inv(ro.value)
  }

  /** The numbers a session still waits for. */
  ghost function Open(r: R.State): (w: seq<u8>)
    ensures Increasing(w) && |w| < 0x100
    ensures r.nSlices < 0x100 ==> forall k :: k in w <==> 0 <= k < r.nSlices && k !in r.bits
  {
    if r.nSlices >= 0x100 then []
    else
      MissingExact(r.bits, 0, r.nSlices);
      R.SliceNumbers(r.bits, r.nSlices);
      R.AsBytes(Missing(r.bits, 0, r.nSlices))
  }

  /** Without a session, on another number, refusing, or silenced by the stray bit. */
  ghost predicate Mute(ro: Option<R.State>, p: Packet) {
    || ro.None? || ro.value.seqExp != p.seqNo
    || ro.value.nak || (Open(ro.value) == [] && !AllSet(ro.value.bits, ro.value.nSlices))
  }

  /** It has handed up a message with this number. */
  ghost predicate Acking(ro: Option<R.State>, p: Packet) {
    ro.Some? && ro.value.seqExp == p.seqNo && ro.value.completed && !ro.value.nak
  }

  /** It waits for slices of a message with this number, be it that of p or another one. */
  ghost predicate Asking(ro: Option<R.State>, p: Packet) {
    ro.Some? && ro.value.seqExp == p.seqNo && !ro.value.completed && !ro.value.nak && Open(ro.value) != []
  }

  /** It waits for a slice that p does not have, which takes another message. */
  ghost predicate Stuck(ro: Option<R.State>, p: Packet) {
    Asking(ro, p) && exists k :: |p.slices| <= k < ro.value.nSlices && k !in ro.value.bits
  }

  /** One of the three, never two. */
  lemma Trichotomy(ro: Option<R.State>, p: Packet)
    requires Kept(ro)
    ensures (Mute(ro, p) || Acking(ro, p) || Asking(ro, p)) && !(Acking(ro, p) && Asking(ro, p))
    ensures Mute(ro, p) ==> !Acking(ro, p) && !Asking(ro, p)
  {
    if ro.Some? {
      HasSome(Open(ro.value));
    }
  }

  /** A mute receiver is one that leaves a request about p unanswered. */
  lemma MuteIff(r: R.State, p: Packet, now: int)
    requires R.Inv(r)
    ensures Mute(Some(r), p) <==> R.ProcAckReq(r, Ackr(p.src, p.dst, p.seqNo), now).out == []
  {
    R.SliceNumbers(r.bits, r.nSlices);
  }

  lemma HasSome(w: seq<nat>)
    ensures w == [] || exists k :: k in w
  {
    assert w != [] ==> w[0] in w;
  }

  lemma AwaitingAsks(c: Crcs, r: R.State, p: Packet, m: seq<u8>)
    requires Packed(c, p, m) && Awaiting(c, r, p, m)
    ensures R.Inv(r) && Asking(Some(r), p) && !Stuck(Some(r), p) && Open(r) == Wanted(r, m)
  {
    assert Wanted(r, m)[0] in Wanted(r, m);
  }

  // ----- the sender's turn -----

  /** Short of the sixth timeout it asks, with the sixth it sends DATA again, and with the 36th it drops the packet. */
  lemma TimerTurn(c: Crcs, s: S.State, p: Packet, now: int)
    requires Waiting(s, p) && S.AckTimerDue(s, now) && 0 <= now
    ensures var (t, out) := S.Timer(s, now);
            && t.Some?
            && (s.ackRetry < S.MAX_RETRY_TIMES ==>
                  && Waiting(t.value, p) && t.value.ackRetry == s.ackRetry + 1 && t.value.dataRetry == s.dataRetry
                  && out == [Ackr(p.src, p.dst, p.seqNo)])
            && (s.ackRetry == S.MAX_RETRY_TIMES && s.dataRetry < S.MAX_RETRY_TIMES ==>
                  Waiting(t.value, p) && out == [DataFrame(p)])
            && (s.ackRetry == S.MAX_RETRY_TIMES == s.dataRetry ==> t.value.queue == [] && out == [])
    ensures 0 <= s.ackRetry <= S.MAX_RETRY_TIMES && 0 <= s.dataRetry <= S.MAX_RETRY_TIMES
  {
    S.AckTimeoutKeepsInv(s, now);
    assert ((p.seqNo + 1) % 0x100 - 1) % 0x100 == p.seqNo;
  }

  lemma AskingTurn(c: Crcs, s: S.State, ro: Option<R.State>, p: Packet, x: Round)
    requires Waiting(s, p) && s.queue != [] && S.AckTimerDue(s, x.now) && s.ackRetry < S.MAX_RETRY_TIMES
    requires FitsSession(ro) && Orderly(x)
    ensures var t := S.Timer(s, x.now).0;
            && t.Some? && Waiting(t.value, p)
            && t.value.ackRetry == s.ackRetry + 1 && t.value.dataRetry == s.dataRetry
            && Recovered(c, s, ro, x) == Asked(c, t.value, ro, Ackr(p.src, p.dst, p.seqNo), x.later, x.e)
  {
    hide Waiting, S.Timer, Through, Asked, Opened;
    TimerTurn(c, s, p, x.now);
    SmallCrosses(c, Ackr(p.src, p.dst, p.seqNo), x.e.stale);
  }

  /** The sixth timeout starts the exchange again, whatever the receiver is up to. */
  lemma DataRound(c: Crcs, s: S.State, ro: Option<R.State>, p: Packet, m: seq<u8>, x: Round)
    requires Packed(c, p, m) && Waiting(s, p) && s.queue != [] && S.AckTimerDue(s, x.now)
    requires s.dataRetry < S.MAX_RETRY_TIMES == s.ackRetry && FitsSession(ro) && Orderly(x)
    ensures var ends := Recovered(c, s, ro, x); Delivered(ends, m) || OnlyLastMissing(c, ends, p, m)
  {
    HeaderSmall(c, p, m);
    hide Packed, Waiting, S.Timer, Through, Asked, Opened, OnlyLastMissing, Delivered;
    TimerTurn(c, s, p, x.now);
    SmallCrosses(c, DataFrame(p), x.e.stale);
    OpenedEnds(c, S.Timer(s, x.now).0.value, ro, p, m, x.later, x.e);
  }

  lemma HeaderSmall(c: Crcs, p: Packet, m: seq<u8>)
    requires Packed(c, p, m)
    ensures Buildable(DataFrame(p)) && p.len <= R.MAX_SAFE_LEN
  {
  }

  lemma DropRound(c: Crcs, s: S.State, ro: Option<R.State>, p: Packet, x: Round)
    requires Waiting(s, p) && s.queue != [] && S.AckTimerDue(s, x.now)
    requires s.dataRetry == S.MAX_RETRY_TIMES == s.ackRetry && FitsSession(ro) && Orderly(x)
    ensures var ends := Recovered(c, s, ro, x); ends.snd.queue == [] && ends.rcv == ro && ends.up == []
  {
    hide Waiting, S.Timer, Through;
    TimerTurn(c, s, p, x.now);
  }

  // ----- ACKR to a receiver that does not answer, or acknowledges -----

  lemma MuteRound(c: Crcs, s: S.State, ro: Option<R.State>, p: Packet, x: Round)
    requires Waiting(s, p) && s.queue != [] && S.AckTimerDue(s, x.now) && s.ackRetry < S.MAX_RETRY_TIMES
    requires Kept(ro) && FitsSession(ro) && Mute(ro, p) && Orderly(x)
    ensures var ends := Recovered(c, s, ro, x);
            && ends.up == [] && Waiting(ends.snd, p)
            && ends.snd.ackRetry == s.ackRetry + 1 && ends.snd.dataRetry == s.dataRetry
            && Kept(ends.rcv) && Mute(ends.rcv, p)
  {
    hide Waiting, Recovered;
    AskingTurn(c, s, ro, p, x);
  }

  lemma AckingRound(c: Crcs, s: S.State, ro: Option<R.State>, p: Packet, x: Round)
    requires Waiting(s, p) && s.queue != [] && S.AckTimerDue(s, x.now) && s.ackRetry < S.MAX_RETRY_TIMES
    requires Kept(ro) && FitsSession(ro) && Acking(ro, p) && Orderly(x)
    ensures var ends := Recovered(c, s, ro, x); ends.snd.queue == [] && ends.up == [] && Kept(ends.rcv)
  {
    hide Recovered, S.Timer, Through;
    AskingTurn(c, s, ro, p, x);
    AckaCrosses(c, p, x.e.stale);
  }

  // ----- ACKR to a receiver that waits for slices -----

  /** Those of a list that a packet with n slices has. */
  function Part(w: seq<u8>, n: nat): seq<u8> {
    if w == [] || w[|w| - 1] < n then w else Part(w[..|w| - 1], n)
  }

  lemma {:induction false} PartIs(w: seq<u8>, n: nat)
    requires Increasing(w)
    ensures Part(w, n) <= w && Increasing(Part(w, n)) && Within(Part(w, n), n)
    ensures forall k :: k in Part(w, n) <==> k in w && k < n
  {
    if w != [] {
      if w[|w| - 1] >= n {
        var rest := w[..|w| - 1];
        PartIs(rest, n);
        assert w == rest + [w[|w| - 1]];
        assert forall k :: k in w <==> k in rest || k == w[|w| - 1];
      } else {
        assert forall i :: 0 <= i < |w| ==> w[i] < n;
      }
    }
  }

  lemma {:induction false} PartRange(p: Packet, w: seq<u8>, junk: nat -> Slice)
    requires Increasing(w) && Within(Part(w, |p.slices|), |p.slices|)
    ensures S.InRange(p, w) == |Part(w, |p.slices|)| <= |w|
    ensures S.Areas(p, w, junk)[..S.InRange(p, w)] == Picked(p.slices, Part(w, |p.slices|))
  {
    if w != [] {
      var n, rest := |p.slices|, w[..|w| - 1];
      if w[|w| - 1] < n {
        assert forall i :: 0 <= i < |w| ==> w[i] < n;
        S.InRangeAll(p, w);
      } else {
        PartRange(p, rest, junk);
        assert S.Areas(p, w, junk)[..|rest|] == S.Areas(p, rest, junk);
      }
    }
  }

  /** A frame has room for all that a packet can have. */
  lemma {:induction false} PartCut(w: seq<u8>, n: nat)
    requires Increasing(w) && n <= MAX_SLICE_NUM
    ensures |w| > MAX_SLICE_NUM ==> Part(w[..MAX_SLICE_NUM], n) == Part(w, n)
  {
    if |w| > MAX_SLICE_NUM {
      AtLeast(w, |w| - 1);
      PartCut(w[..|w| - 1], n);
      assert w[..|w| - 1][..MAX_SLICE_NUM] == w[..MAX_SLICE_NUM];
    }
  }

  /** Any request that a receiver can make is answered with those of the slices that there are, if any. */
  lemma SendPatchPart(p: Packet, w: seq<u8>, junk: nat -> Slice)
    requires Increasing(w) && |p.slices| <= MAX_SLICE_NUM
    ensures var part := Part(w, |p.slices|);
            && Within(part, |p.slices|)
            && S.SendPatch(p, w, junk)
            == if part == [] then [] else [Patch(p.src, p.dst, p.seqNo, Picked(p.slices, part))]
  {
    var wanted := if |w| <= MAX_SLICE_NUM then w else w[..MAX_SLICE_NUM];
    PartCut(w, |p.slices|);
    PartIs(wanted, |p.slices|);
    PartRange(p, wanted, junk);
  }

  /** What it has once it has taken the slices with these numbers. */
  ghost function After(r: R.State, brought: set<nat>): set<nat> {
    r.bits + set k | k in brought && k <= r.nSlices
  }

  /** The receiver's side of it. */
  lemma PatchProcessed(c: Crcs, r: R.State, p: Packet, got: Frame, now: int)
    requires R.Inv(r) && Asking(Some(r), p)
    requires got.Patch? && got.src == p.src && got.dst == p.dst && got.seqNo == p.seqNo
    ensures var t := R.ProcPatch(c, r, got, now);
            var bits := After(r, Numbers(c, got.slices));
            && R.Inv(t.state)
            && if exists k :: 0 <= k < r.nSlices && k !in bits then
                 && t.out == [] && t.up == [] && Asking(Some(t.state), p)
                 && t.state.bits == bits && t.state.nSlices == r.nSlices
               else t.out == [Acka(p.dst, p.src, p.seqNo)] || (t.out == [] && Mute(Some(t.state), p))
  {
    hide Numbers;
    R.ProcPatchKeepsInv(c, r, got, now);
    hide R.PatchRse;
    var t := r.(idleTimeout := now + IDLE_TIMEOUT);
    PatchBits(c, t, got.slices);
    var u := R.PatchRse(c, t, got.slices);
    R.SliceNumbers(u.bits, u.nSlices);
    if k :| 0 <= k < r.nSlices && k !in u.bits {
      assert k in Open(u);
    } else {
      FullTaken(c, u, got);
    }
  }

  lemma FullTaken(c: Crcs, u: R.State, f: Frame)
    requires R.Sized(u) && !u.nak && !u.completed && forall k :: 0 <= k < u.nSlices ==> k in u.bits
    ensures AllSet(u.bits, u.nSlices) ==>
              var t := R.Finish(c, u, f); t.out == [Acka(f.dst, f.src, u.seqExp)] || (t.out == [] && t.state.nak)
    ensures Open(u) == []
  {
    HasSome(Open(u));
  }

  ghost predicate TakenAs(s: S.State, r: R.State, p: Packet, brought: set<nat>, ends: Ends)
  {
    var bits := After(r, brought);
    if exists k :: 0 <= k < r.nSlices && k !in bits then
      && ends.snd == s && ends.up == [] && Asking(ends.rcv, p)
      && ends.rcv.value.bits == bits && ends.rcv.value.nSlices == r.nSlices
    else ends.snd.queue == [] || (ends.snd == s && Mute(ends.rcv, p))
  }

  /** What a PATCH does to a receiver that waits for slices: it has the ones it brings; if that is all, the message is
      acknowledged or refused, or the stray bit silences the receiver. */
  lemma PatchTaken(c: Crcs, s: S.State, r: R.State, p: Packet, got: Frame, e: Nature)
    requires R.Inv(r) && Asking(Some(r), p) && s.queue == [p] && Natural(e)
    requires got.Patch? && got.src == p.src && got.dst == p.dst && got.seqNo == p.seqNo
    ensures var ends := Patched(c, s, r, Some(got), e);
            Kept(ends.rcv) && TakenAs(s, r, p, Numbers(c, got.slices), ends)
  {
    hide Numbers, Through, R.ProcPatch, Mute, Asking;
    PatchProcessed(c, r, p, got, e.t1);
    AckaCrosses(c, p, e.stale);
  }

  /** What arrives of the PATCH: all of it, or all slices but the last. */
  lemma PatchBrings(c: Crcs, w: seq<u8>, p: Packet, m: seq<u8>, stale: seq<u8>)
    requires Packed(c, p, m) && Asks(w, m) && w != [] && |stale| == LINK_MTU
    ensures var got := Through(c, PatchFor(c, w, p, m), stale);
            && got.Some? && got.value.Patch?
            && got.value.src == p.src && got.value.dst == p.dst && got.value.seqNo == p.seqNo
            && (forall k: nat :: k in Numbers(c, got.value.slices) ==> k < |p.slices|)
            && (forall k: nat :: k in w && k !in Numbers(c, got.value.slices) ==>
                  |w| > 1 && k == |p.slices| - 1)
  {
    PacketSlices(c, p, m);
    PatchArrives(c, w, p, m, stale);
    PatchForIs(c, w, p, m);
    AskedExist(w, m);
    hide Through, Packed, Asks, Numbers, Slices, PatchFor, TooLong, AllButLast;
    var f := PatchFor(c, w, p, m);
    var got := Through(c, f, stale);
    if TooLong(c, w, p, m) {
      TooLongMeansAll(c, w, p, m);
      SameHead(c, got, f);
      CutNumbers(c, got.value, f, m);
    } else {
      PickedNumbers(c, w, p, m);
    }
  }

  lemma PacketSlices(c: Crcs, p: Packet, m: seq<u8>)
    requires Packed(c, p, m)
    ensures p.slices == Slices(c, m) && |p.slices| == SliceCount(|m|) <= MAX_SLICE_NUM && 0 < |m| <= MAX_MSG_LEN
  {
  }

  lemma AskedExist(w: seq<u8>, m: seq<u8>)
    requires Asks(w, m)
    ensures forall k :: k in w ==> k < SliceCount(|m|)
  {
  }

  lemma SameHead(c: Crcs, got: Option<Frame>, f: Frame)
    requires f.Patch? && f.slices != [] && AllButLast(c, got, f)
    ensures got.Some? && got.value.Patch? && got.value.src == f.src && got.value.dst == f.dst
    ensures got.value.seqNo == f.seqNo
  {
  }

  /** The sender still waits for the acknowledgement of p, and has heard from the receiver. */
  ghost predicate StillWaits(s: S.State, t: S.State, p: Packet) {
    Waiting(t, p) && t.ackRetry == 0 && t.dataRetry == s.dataRetry
  }

  lemma PartTurn(s: S.State, p: Packet, w: seq<u8>, junk: nat -> Slice, now: int)
    requires Waiting(s, p) && 0 <= now
    ensures var part := S.ProcAckPart(s, Request(p, w), junk, now);
            StillWaits(s, part.state, p) && part.out == S.SendPatch(p, w, junk)
  {
    hide S.SendPatch;
  }

  /** The sender serves a receiver that waits for slices. If it is stuck it stays so. Otherwise it gets an answer,
      falls silent, or has a single slice left to ask for. */
  ghost predicate ServedWell(s: S.State, r: R.State, ends: Ends, p: Packet)
  {
    if Stuck(Some(r), p) then ends.up == [] && StillWaits(s, ends.snd, p) && Stuck(ends.rcv, p)
    else
      || ends.snd.queue == []
      || (StillWaits(s, ends.snd, p)
          && (Mute(ends.rcv, p)
              || (|Open(r)| > 1 && Asking(ends.rcv, p) && !Stuck(ends.rcv, p) && |Open(ends.rcv.value)| == 1)))
  }

  lemma AskingServed(c: Crcs, s: S.State, r: R.State, p: Packet, m: seq<u8>, e: Nature)
    requires Packed(c, p, m) && Waiting(s, p) && Natural(e) && R.Inv(r) && Asking(Some(r), p)
    ensures var ends := Served(c, s, r, Some(Request(p, Open(r))), e);
            Kept(ends.rcv) && ServedWell(s, r, ends, p)
  {
    PacketSlices(c, p, m);
    var w, n := Open(r), |p.slices|;
    var v := Part(w, n);
    PartIs(w, n);
    SendPatchPart(p, w, e.junk);
    PartTurn(s, p, w, e.junk, e.t0);
    var t := S.ProcAckPart(s, Request(p, w), e.junk, e.t0).state;
    hide Packed, Slices, Waiting, S.ProcAckPart, Part, Through, Patched, Open, R.Inv, Mute, Numbers, Picked, Asking;
    hide Stuck, ServedWell, S.SendPatch;
    if v == [] {
      NoneHere(s, t, r, p);
    } else {
      PatchServed(c, s, t, r, p, m, e);
    }
  }

  lemma PatchServed(c: Crcs, s: S.State, t: S.State, r: R.State, p: Packet, m: seq<u8>, e: Nature)
    requires Packed(c, p, m) && StillWaits(s, t, p) && Natural(e) && R.Inv(r) && Asking(Some(r), p)
    requires var v := Part(Open(r), |p.slices|); v != [] && Asks(v, m)
    ensures var f := PatchFor(c, Part(Open(r), |p.slices|), p, m);
            var ends := Patched(c, t, r, Through(c, f, e.stale), e);
            Kept(ends.rcv) && ServedWell(s, r, ends, p)
  {
    QueueOf(t, p);
    var v := Part(Open(r), |p.slices|);
    hide Packed, Slices, Waiting, Part, Through, Patched, Open, R.Inv, Mute, Numbers, PatchFor, Asks, Asking, Stuck;
    hide TakenAs, ServedWell, StillWaits;
    PatchBrings(c, v, p, m, e.stale);
    var got := Through(c, PatchFor(c, v, p, m), e.stale).value;
    PatchTaken(c, t, r, p, got, e);
    TakenWell(s, t, r, Patched(c, t, r, Some(got), e), p, Numbers(c, got.slices));
  }

  lemma TakenWell(s: S.State, t: S.State, r: R.State, ends: Ends, p: Packet, brought: set<nat>)
    requires R.Sized(r) && FitsSession(ends.rcv) && Asking(Some(r), p) && StillWaits(s, t, p)
    requires TakenAs(t, r, p, brought, ends)
    requires forall k :: k in brought ==> k < |p.slices|
    requires forall k: nat :: k in Part(Open(r), |p.slices|) && k !in brought ==>
               |Part(Open(r), |p.slices|)| > 1 && k == |p.slices| - 1
    ensures ServedWell(s, r, ends, p)
  {
    hide Waiting, Part, Mute;
    PartIs(Open(r), |p.slices|);
    if Stuck(Some(r), p) {
      var k :| |p.slices| <= k < r.nSlices && k !in r.bits;
      assert k !in After(r, brought);
    } else if exists k :: 0 <= k < r.nSlices && k !in After(r, brought) {
      OpenAfter(r, ends.rcv.value, p, brought);
    }
  }

  lemma NoneHere(s: S.State, t: S.State, r: R.State, p: Packet)
    requires R.Sized(r) && Asking(Some(r), p) && Part(Open(r), |p.slices|) == [] && StillWaits(s, t, p)
    ensures ServedWell(s, r, Ends(t, Some(r), [], []), p)
  {
    PartIs(Open(r), |p.slices|);
    assert Open(r)[0] in Open(r);
  }

  /** What is open after a PATCH that brought all slices of p that were asked for, or all but the last. */
  lemma OpenAfter(r: R.State, q: R.State, p: Packet, brought: set<nat>)
    requires R.Sized(r) && R.Sized(q) && q.nSlices == r.nSlices && Asking(Some(r), p) && Asking(Some(q), p)
    requires q.bits == After(r, brought)
    requires forall k :: k in brought ==> k < |p.slices|
    requires forall k: nat :: k in Part(Open(r), |p.slices|) && k !in brought ==>
               |Part(Open(r), |p.slices|)| > 1 && k == |p.slices| - 1
    ensures Stuck(Some(r), p) <==> Stuck(Some(q), p)
    ensures !Stuck(Some(r), p) ==> |Open(r)| > 1 && |Open(q)| == 1
  {
    var w, v, n := Open(r), Part(Open(r), |p.slices|), |p.slices|;
    PartIs(w, n);
    if Stuck(Some(q), p) {
      var k :| n <= k < q.nSlices && k !in q.bits;
      assert k !in r.bits;
    }
    if Stuck(Some(r), p) {
      var k :| n <= k < r.nSlices && k !in r.bits;
      assert k !in After(r, brought);
    } else {
      forall k | k in Open(q) ensures k == n - 1 && |w| > 1 {
        assert k in w && k in v && k !in brought;
      }
      OneElement(Open(q), n - 1);
    }
  }

  lemma OneElement(w: seq<u8>, x: int)
    requires Increasing(w) && w != [] && forall k :: k in w ==> k == x
    ensures |w| == 1 && w[0] in w
  {
    forall i | 0 <= i < |w| ensures w[i] == x {
      assert w[i] in w;
    }
    assert w[0] == x == w[|w| - 1];
  }

  lemma AskedAsking(c: Crcs, s: S.State, r: R.State, p: Packet, m: seq<u8>, now: int, e: Nature)
    requires Packed(c, p, m) && Waiting(s, p) && R.Inv(r) && Asking(Some(r), p) && Natural(e)
    ensures var ends := Asked(c, s, Some(r), Ackr(p.src, p.dst, p.seqNo), now, e);
            Kept(ends.rcv) && ServedWell(s, r, ends, p)
  {
    hide Packed, Waiting, Served, Open, Asked, Asking, Stuck, R.Inv;
    AskedRequest(c, s, r, p, now, e);
    AskingServed(c, s, r.(idleTimeout := now + IDLE_TIMEOUT), p, m, e);
  }

  /** A receiver that waits for slices asks for them. */
  lemma AskedRequest(c: Crcs, s: S.State, r: R.State, p: Packet, now: int, e: Nature)
    requires R.Inv(r) && Asking(Some(r), p) && Natural(e)
    ensures var t := r.(idleTimeout := now + IDLE_TIMEOUT);
            && R.Inv(t) && Asking(Some(t), p) && Open(t) == Open(r) && (Stuck(Some(t), p) <==> Stuck(Some(r), p))
            && Asked(c, s, Some(r), Ackr(p.src, p.dst, p.seqNo), now, e)
            == Served(c, s, t, Some(Request(p, Open(t))), e)
  {
    var t := r.(idleTimeout := now + IDLE_TIMEOUT);
    RequestFor(r, p, now);
    hide Through, Served, Open, R.SendAck, R.Inv, Asking;
    RequestCrosses(c, p, Open(t), e.stale);
  }

  lemma RequestFor(r: R.State, p: Packet, now: int)
    requires R.Inv(r) && Asking(Some(r), p)
    ensures var got := R.ProcAckReq(r, Ackr(p.src, p.dst, p.seqNo), now);
            && got.state == r.(idleTimeout := now + IDLE_TIMEOUT) && got.out == [Request(p, Open(got.state))]
            && R.Inv(got.state) && Asking(Some(got.state), p) && Open(got.state) == Open(r) != []
            && (Stuck(Some(got.state), p) <==> Stuck(Some(r), p))
  {
    R.SliceNumbers(r.bits, r.nSlices);
    assert Open(r)[0] in Open(r);
  }

  // ----- the packet that the receiver waits for -----

  lemma AskedAwaiting(c: Crcs, s: S.State, r: R.State, p: Packet, m: seq<u8>, now: int, e: Nature)
    requires R.Sized(r) && Packed(c, p, m) && Waiting(s, p) && Awaiting(c, r, p, m) && Natural(e)
    ensures var ends := Asked(c, s, Some(r), Ackr(p.src, p.dst, p.seqNo), now, e);
            if TooLong(c, Wanted(r, m), p, m) then OnlyLastMissing(c, ends, p, m) else Delivered(ends, m)
  {
    AwaitingAsks(c, r, p, m);
    AwaitingMeans(c, r, p, m);
    var t := r.(idleTimeout := now + IDLE_TIMEOUT);
    SameSession(c, r, t, p, m);
    AwaitingAsks(c, t, p, m);
    hide Packed, Waiting, Awaiting, Asked, Served, Open, Wanted, Asking, TooLong, Stuck, OnlyLastMissing, Delivered;
    hide R.Sized, R.Inv;
    AskedRequest(c, s, r, p, now, e);
    ServedEnds(c, s, t, p, m, e);
  }

  lemma SameSession(c: Crcs, r: R.State, t: R.State, p: Packet, m: seq<u8>)
    requires Awaiting(c, r, p, m) && t == r.(idleTimeout := t.idleTimeout)
    ensures R.Sized(t) && |m| <= R.MAX_SAFE_LEN && Awaiting(c, t, p, m) && Wanted(t, m) == Wanted(r, m)
  {
    forall k | k in t.bits && k < t.nSlices ensures HoldsSlice(t, m, k) {
      assert HoldsSlice(r, m, k);
    }
  }

  // ----- one round -----

  /** What a round comes to. With the sixth timeout the exchange starts again, or the packet is dropped. Before that, a
      mute receiver stays mute, one that has handed up the packet acknowledges it, and one that waits for slices gets
      those that there are. If they are slices of this packet, that delivers it, or only the last one is missing. */
  ghost predicate RoundOk(c: Crcs, s: S.State, ro: Option<R.State>, p: Packet, m: seq<u8>, ends: Ends) {
    if s.ackRetry == S.MAX_RETRY_TIMES then
      if s.dataRetry == S.MAX_RETRY_TIMES then ends.snd.queue == [] && ends.rcv == ro && ends.up == []
      else Delivered(ends, m) || OnlyLastMissing(c, ends, p, m)
    else if Mute(ro, p) then
      && ends.up == [] && Waiting(ends.snd, p) && Mute(ends.rcv, p) && Kept(ends.rcv)
      && ends.snd.ackRetry == s.ackRetry + 1 && ends.snd.dataRetry == s.dataRetry
    else if Acking(ro, p) then ends.snd.queue == [] && ends.up == []
    else
      && Asking(ro, p) && Kept(ends.rcv) && ServedWell(s, ro.value, ends, p)
      && (Awaiting(c, ro.value, p, m) ==>
            Delivered(ends, m) || (|Open(ro.value)| > 1 && OnlyLastMissing(c, ends, p, m)))
  }

  lemma OneRound(c: Crcs, s: S.State, ro: Option<R.State>, p: Packet, m: seq<u8>, x: Round)
    requires Packed(c, p, m) && Waiting(s, p) && s.queue != [] && S.AckTimerDue(s, x.now)
    requires Kept(ro) && FitsSession(ro) && Orderly(x)
    ensures RoundOk(c, s, ro, p, m, Recovered(c, s, ro, x))
  {
    TimerTurn(c, s, p, x.now);
    Trichotomy(ro, p);
    hide Packed, Waiting, S.Timer, Recovered, Asked, Asking, Mute, Acking, Delivered, OnlyLastMissing, ServedWell;
    hide R.Inv, R.Sized, Open, Awaiting;
    if s.ackRetry == S.MAX_RETRY_TIMES {
      if s.dataRetry == S.MAX_RETRY_TIMES {
        DropRound(c, s, ro, p, x);
      } else {
        DataRound(c, s, ro, p, m, x);
      }
    } else if Mute(ro, p) {
      MuteRound(c, s, ro, p, x);
    } else if Acking(ro, p) {
      AckingRound(c, s, ro, p, x);
    } else {
      AskingTurn(c, s, ro, p, x);
      AskingRound(c, s, S.Timer(s, x.now).0.value, ro, p, m, x.later, x.e);
    }
  }

  lemma AskingRound(c: Crcs, s: S.State, t: S.State, ro: Option<R.State>, p: Packet, m: seq<u8>, now: int, e: Nature)
    requires Packed(c, p, m) && Waiting(t, p) && t.dataRetry == s.dataRetry
    requires Kept(ro) && FitsSession(ro) && Asking(ro, p) && Natural(e)
    ensures var ends := Asked(c, t, ro, Ackr(p.src, p.dst, p.seqNo), now, e);
            && Kept(ends.rcv) && ServedWell(s, ro.value, ends, p)
            && (Awaiting(c, ro.value, p, m) ==>
                  Delivered(ends, m) || (|Open(ro.value)| > 1 && OnlyLastMissing(c, ends, p, m)))
  {
    assert ro == Some(ro.value);
    hide Packed, Waiting, Asked, Asking, Mute, Delivered, OnlyLastMissing, R.Inv, R.Sized, Open, Awaiting, TooLong;
    var r := ro.value;
    AskedAsking(c, t, r, p, m, now, e);
    if Awaiting(c, r, p, m) {
      AwaitingAsks(c, r, p, m);
      AskedAwaiting(c, t, r, p, m, now, e);
      if TooLong(c, Wanted(r, m), p, m) {
        TooLongMeansAll(c, Wanted(r, m), p, m);
      }
    }
  }

  // ----- any number of rounds -----

  /** The first of several rounds. */
  lemma FirstRound(c: Crcs, s: S.State, ro: Option<R.State>, p: Packet, m: seq<u8>, rounds: seq<Round>)
      returns (first: Ends)
    requires Packed(c, p, m) && Waiting(s, p) && Kept(ro) && FitsSession(ro)
    requires rounds != [] && Timely(c, s, ro, rounds)
    ensures RoundOk(c, s, ro, p, m, first) && FitsSession(first.rcv) && Timely(c, first.snd, first.rcv, rounds[1..])
    ensures var rest := AfterRounds(c, first.snd, first.rcv, rounds[1..]);
            AfterRounds(c, s, ro, rounds) == rest.(up := first.up + rest.up)
  {
    QueueOf(s, p);
    hide Packed, Waiting, RoundOk, Recovered, Kept, R.Sized;
    first := Recovered(c, s, ro, rounds[0]);
    OneRound(c, s, ro, p, m, rounds[0]);
  }

  lemma NothingQueued(c: Crcs, s: S.State, ro: Option<R.State>, rounds: seq<Round>)
    requires s.queue == [] && FitsSession(ro) && Timely(c, s, ro, rounds)
    ensures AfterRounds(c, s, ro, rounds) == Ends(s, ro, [], [])
  {
  }

  /** How a receiver gets there: it has just been set up for a message with the same number, say of an earlier send
      session, and that message has more slices. */
  lemma StuckOnIff(c: Crcs, ro: Option<R.State>, data: Frame, p: Packet, now: int)
    requires data.Data? && data.len <= R.MAX_SAFE_LEN && data.slices == [] && data.seqNo == p.seqNo && FitsSession(ro)
    ensures Stuck(Some(R.ProcData(c, ro, data, now).state), p)
       <==> |p.slices| < SliceCount(data.len)
  {
    var s := R.Restarted(ro, data, now);
    assert R.PatchRse(c, s, data.slices) == s;
    if |p.slices| < s.nSlices {
      assert |p.slices| !in s.bits;
      assert |p.slices| in Open(s);
    }
  }

  /** A sender whose receiver is stuck goes on asking for ever: every request it serves sets its counter back, so it
      never sends DATA again and never drops the packet. */
  lemma {:induction false} StuckForever(c: Crcs, s: S.State, ro: Option<R.State>, p: Packet, m: seq<u8>,
                                        rounds: seq<Round>)
    requires Packed(c, p, m) && Waiting(s, p) && s.ackRetry < S.MAX_RETRY_TIMES
    requires Kept(ro) && FitsSession(ro) && Stuck(ro, p) && Timely(c, s, ro, rounds)
    ensures var ends := AfterRounds(c, s, ro, rounds); ends.up == [] && Waiting(ends.snd, p) && Stuck(ends.rcv, p)
    decreases |rounds|
  {
    if rounds != [] {
      StuckAsks(ro, p);
      hide Packed, Waiting, Stuck, Recovered, Kept, AfterRounds, Timely, R.Sized, Acking, Mute, Asking, Open;
      var first := FirstRound(c, s, ro, p, m, rounds);
      StuckForever(c, first.snd, first.rcv, p, m, rounds[1..]);
    }
  }

  lemma StuckAsks(ro: Option<R.State>, p: Packet)
    requires Kept(ro) && Stuck(ro, p)
    ensures Asking(ro, p) && !Mute(ro, p) && !Acking(ro, p)
  {
    Trichotomy(ro, p);
  }

  /** Once only the last slice is missing, the next timeout delivers. */
  lemma LastSlice(c: Crcs, ends: Ends, p: Packet, m: seq<u8>, rounds: seq<Round>)
    requires Packed(c, p, m) && OnlyLastMissing(c, ends, p, m) && FitsSession(ends.rcv)
    requires rounds != [] && Timely(c, ends.snd, ends.rcv, rounds)
    ensures var last := AfterRounds(c, ends.snd, ends.rcv, rounds); last.snd.queue == [] && last.up == [m]
  {
    LastAsked(c, ends, p, m);
    hide Packed, OnlyLastMissing, Recovered, Kept, AfterRounds, Timely, R.Sized, Acking, Mute, Asking, Open, Awaiting;
    var first := FirstRound(c, ends.snd, ends.rcv, p, m, rounds);
    NothingQueued(c, first.snd, first.rcv, rounds[1..]);
  }

  lemma LastAsked(c: Crcs, ends: Ends, p: Packet, m: seq<u8>)
    requires Packed(c, p, m) && OnlyLastMissing(c, ends, p, m)
    ensures Waiting(ends.snd, p) && ends.snd.ackRetry == 0 && Kept(ends.rcv) && ends.rcv.Some?
    ensures Awaiting(c, ends.rcv.value, p, m) && |Open(ends.rcv.value)| == 1
    ensures Asking(ends.rcv, p) && !Mute(ends.rcv, p) && !Acking(ends.rcv, p)
  {
    AwaitingAsks(c, ends.rcv.value, p, m);
    Trichotomy(ends.rcv, p);
  }

  /** How many rounds it takes at most to empty the queue. */
  ghost function Enough(s: S.State, ro: Option<R.State>, p: Packet): nat
    requires Waiting(s, p)
  {
    if s.ackRetry == S.MAX_RETRY_TIMES || Mute(ro, p) then 7 - s.ackRetry
    else if Acking(ro, p) then 1
    else if |Open(ro.value)| == 1 then 8
    else 9
  }

  lemma {:induction false} Settles(c: Crcs, s: S.State, ro: Option<R.State>, p: Packet, m: seq<u8>,
                                   rounds: seq<Round>)
    requires Packed(c, p, m) && Waiting(s, p) && Kept(ro) && FitsSession(ro) && Timely(c, s, ro, rounds)
    requires s.ackRetry < S.MAX_RETRY_TIMES ==> !Stuck(ro, p)
    requires |rounds| >= Enough(s, ro, p)
    ensures AfterRounds(c, s, ro, rounds).snd.queue == []
    decreases |rounds|
  {
    RetryBounds(s, p);
    Trichotomy(ro, p);
    hide Packed, OnlyLastMissing, Recovered, Kept, AfterRounds, Timely, R.Sized, Acking, Mute, Asking, Open, Awaiting;
    hide Waiting, Stuck;
    var first := FirstRound(c, s, ro, p, m, rounds);
    var rest := rounds[1..];
    if first.snd.queue == [] {
      NothingQueued(c, first.snd, first.rcv, rest);
    } else if s.ackRetry == S.MAX_RETRY_TIMES {
      LastSlice(c, first, p, m, rest);
    } else {
      RetryBounds(first.snd, p);
      if Mute(first.rcv, p) {
        MuteIsNotStuck(first.rcv, p);
      }
      Settles(c, first.snd, first.rcv, p, m, rest);
    }
  }

  lemma MuteIsNotStuck(ro: Option<R.State>, p: Packet)
    requires Kept(ro) && Mute(ro, p)
    ensures !Stuck(ro, p)
  {
    Trichotomy(ro, p);
  }

  lemma RetryBounds(s: S.State, p: Packet)
    requires Waiting(s, p)
    ensures s.queue == [p] && 0 <= s.ackRetry <= S.MAX_RETRY_TIMES && 0 <= s.dataRetry <= S.MAX_RETRY_TIMES
  {
  }

  /** What a sender that can still send DATA recovers from: the DATA lost, or the acknowledgement, or some of the
      slices, or the message refused. The receiver may be mute, may have handed the packet up, or may wait for slices,
      provided that they are those of this packet. At most 6 timeouts, less the requests already made, lead to the end
      or leave only the last slice missing, which takes one more. The message has then been handed up once, or not at
      all if the receiver had done so before and was asked in time. */
  lemma {:induction false} Recovers(c: Crcs, s: S.State, ro: Option<R.State>, p: Packet, m: seq<u8>,
                                    rounds: seq<Round>)
    requires Packed(c, p, m) && Waiting(s, p) && Kept(ro) && FitsSession(ro) && Timely(c, s, ro, rounds)
    requires s.dataRetry < S.MAX_RETRY_TIMES
    requires Asking(ro, p) && s.ackRetry < S.MAX_RETRY_TIMES ==> Awaiting(c, ro.value, p, m)
    ensures var ends := AfterRounds(c, s, ro, rounds);
            var up := if Acking(ro, p) && s.ackRetry < S.MAX_RETRY_TIMES then [] else [m];
            && (|rounds| >= 6 - s.ackRetry ==>
                  (ends.snd.queue == [] && ends.up == up) || OnlyLastMissing(c, ends, p, m))
            && (|rounds| >= 7 - s.ackRetry ==> ends.snd.queue == [] && ends.up == up)
    decreases |rounds|
  {
    RetryBounds(s, p);
    Trichotomy(ro, p);
    if rounds != [] {
      hide Packed, OnlyLastMissing, Recovered, Kept, AfterRounds, Timely, R.Sized, Acking, Mute, Asking, Open, Awaiting;
      hide Waiting;
      var first := FirstRound(c, s, ro, p, m, rounds);
      var rest := rounds[1..];
      if first.snd.queue == [] {
        NothingQueued(c, first.snd, first.rcv, rest);
      } else if s.ackRetry < S.MAX_RETRY_TIMES && Mute(ro, p) {
        Trichotomy(first.rcv, p);
        Recovers(c, first.snd, first.rcv, p, m, rest);
      } else {
        OnlyLastLeft(c, first, p, m, rest);
      }
    }
  }

  lemma OnlyLastLeft(c: Crcs, ends: Ends, p: Packet, m: seq<u8>, rounds: seq<Round>)
    requires Packed(c, p, m) && OnlyLastMissing(c, ends, p, m) && FitsSession(ends.rcv)
    requires Timely(c, ends.snd, ends.rcv, rounds)
    ensures var rest := AfterRounds(c, ends.snd, ends.rcv, rounds);
            var last := rest.(up := ends.up + rest.up);
            if rounds == [] then OnlyLastMissing(c, last, p, m) else last.snd.queue == [] && last.up == [m]
  {
    if rounds == [] {
      assert Ends(ends.snd, ends.rcv, ends.up + [], []) == ends;
    } else {
      LastSlice(c, ends, p, m, rounds);
      assert [] + [m] == [m];
    }
  }

  /** Any nine timeouts empty the queue exactly if the receiver is not stuck when the sender asks it. */
  lemma SettlesIff(c: Crcs, s: S.State, ro: Option<R.State>, p: Packet, m: seq<u8>, rounds: seq<Round>)
    requires Packed(c, p, m) && Waiting(s, p) && Kept(ro) && FitsSession(ro) && Timely(c, s, ro, rounds)
    requires |rounds| >= 9
    ensures AfterRounds(c, s, ro, rounds).snd.queue == [] <==> !(s.ackRetry < S.MAX_RETRY_TIMES && Stuck(ro, p))
  {
    RetryBounds(s, p);
    hide Packed, Kept, AfterRounds, Timely, R.Sized, Stuck, Waiting;
    if s.ackRetry < S.MAX_RETRY_TIMES && Stuck(ro, p) {
      StuckForever(c, s, ro, p, m, rounds);
      RetryBounds(AfterRounds(c, s, ro, rounds).snd, p);
    } else {
      Settles(c, s, ro, p, m, rounds);
    }
  }
}
