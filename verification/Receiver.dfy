/** The receive session of split.c: first as functions on its state, then as the object that is updated in place. */
module Receiver {
  import opened Bytes
  import opened Packets
  import opened Frames
  import opened Queues
  import opened Bitmap
  import opened Sequences

  const BITMAP32_SIZE := 1

  /** The longest announced message for which no accepted slice leaves the buffer or the bitmap. */
  const MAX_SAFE_LEN := 960

  datatype State = State(
    bits: set<nat>, seqExp: u8, nSlices: nat, msglen: nat, dCsum: u32, data: seq<u8>,
    completed: bool, nak: bool, idleTimeout: int)

  /** A session after a step, the frames it queued for the link and the messages it handed up. */
  datatype Step = Step(state: State, out: seq<Frame>, up: seq<seq<u8>>)

  /** The sizes that keep every access to the buffer and the bitmap in bounds. */
  ghost predicate Sized(s: State) {
    && |s.data| == LINK_MTU
    && s.msglen <= MAX_SAFE_LEN && s.nSlices == SliceCount(s.msglen) <= 30
    && forall i :: i in s.bits ==> i <= s.nSlices
  }

  // ----- cp_slice_to_rse, patch_rse -----

  /** How many bytes slice k contributes: the last one may be short. */
  function PartLen(s: State, k: nat): (n: nat)
    ensures n <= SLICE_DATA_LEN
  {
    if k == s.nSlices - 1 && s.msglen % SLICE_DATA_LEN != 0 then s.msglen % SLICE_DATA_LEN else SLICE_DATA_LEN
  }

  /** cp_slice_to_rse stores every slice up to number n_slices at its place and sets its bit. All of that stays within
      the session, and so does the message, exactly if the announced length is at most 960. */
  lemma InBoundsIff(s: State)
    requires s.msglen < 0x1_0000 && s.nSlices == SliceCount(s.msglen) % 0x100
    ensures s.msglen <= MAX_SAFE_LEN <==>
            && s.msglen <= LINK_MTU
            && forall k: nat :: k <= s.nSlices ==>
                 k < WORD * BITMAP32_SIZE && SLICE_DATA_LEN * k + PartLen(s, k) <= LINK_MTU
  {
    if MAX_SAFE_LEN < s.msglen <= LINK_MTU {
      assert s.nSlices >= 31;
      assert SLICE_DATA_LEN * s.nSlices + PartLen(s, s.nSlices) > LINK_MTU;
    }
  }

  ghost function CpSlice(c: Crcs, s: State, sl: Slice): (r: State)
    requires Sized(s)
    ensures Sized(r)
  {
    if !Intact(c, sl) || sl.seqNo > s.nSlices then s
    else
      s.(data := Overwritten(s.data, SLICE_DATA_LEN * sl.seqNo, sl.data[..PartLen(s, sl.seqNo)]),
         bits := s.bits + {sl.seqNo})
  }

  ghost function PatchRse(c: Crcs, s: State, slices: seq<Slice>): (r: State)
    requires Sized(s)
    ensures Sized(r) && r == s.(bits := r.bits, data := r.data)
  {
    if slices == [] then s else CpSlice(c, PatchRse(c, s, slices[..|slices| - 1]), slices[|slices| - 1])
  }

  // ----- send_ack -----

  lemma SliceNumbers(bits: set<nat>, n: nat)
    requires n < 0x100
    ensures forall i :: 0 <= i < |Missing(bits, 0, n)| ==> Missing(bits, 0, n)[i] < n
  {
    MissingExact(bits, 0, n);
    var m := Missing(bits, 0, n);
    assert forall i :: 0 <= i < |m| ==> m[i] in m;
  }

  ghost function SendAck(s: State, dst: u8, src: u8): (r: seq<Frame>)
    requires Sized(s)
    ensures |r| <= 1
  {
    SliceNumbers(s.bits, s.nSlices);
    if s.nak then []
    else if AllSet(s.bits, s.nSlices) then [Acka(src, dst, s.seqExp)]
    else if Missing(s.bits, 0, s.nSlices) == [] then []
    else [Ackp(src, dst, s.seqExp, AsBytes(Missing(s.bits, 0, s.nSlices)))]
  }

  /** A receiver that is not refusing falls silent exactly if it has every slice and the stray bit behind them, which
      cp_slice_to_rse lets in. */
  lemma SilentIff(s: State, dst: u8, src: u8)
    requires Sized(s) && !s.nak
    ensures SendAck(s, dst, src) == []
       <==> s.nSlices > 0 && s.nSlices in s.bits && forall i :: 0 <= i < s.nSlices ==> i in s.bits
  {
    SliceNumbers(s.bits, s.nSlices);
    StrayBitIff(s.bits, s.nSlices);
  }

  /** Slice numbers fit in a byte. */
  function AsBytes(s: seq<nat>): (r: seq<u8>)
    requires forall i :: 0 <= i < |s| ==> s[i] < 0x100
    ensures r == s
  {
    s
  }

  // ----- the handlers -----

  function Reset(now: int): State {
    State({}, 0xff, 0, 0, 0xffff_ffff, seq(LINK_MTU, _ => 0), false, false, now + IDLE_TIMEOUT)
  }

  /** proc_data sets the session up for a new reception, whatever it held before. */
  function Restarted(so: Option<State>, f: Frame, now: int): State
    requires f.Data?
  {
    var s := if so.Some? then so.value else Reset(now);
    State({}, f.seqNo, SliceCount(f.len), f.len, f.dCsum, s.data, false, false, now + IDLE_TIMEOUT)
  }

  /** What proc_data and proc_patch do once every slice is there. */
  ghost function Finish(c: Crcs, s: State, f: Frame): (r: Step)
    requires Sized(s)
    ensures |r.out| <= 1 && |r.up| <= 1
  {
    if s.dCsum != c.c32(s.data[..s.msglen]) then Step(s.(nak := true), [], [])
    else Step(s.(completed := true), SendAck(s, f.src, f.dst), [s.data[..s.msglen]])
  }

  ghost function ProcData(c: Crcs, so: Option<State>, f: Frame, now: int): (r: Step)
    requires f.Data? && f.len <= MAX_SAFE_LEN && (so.Some? ==> Sized(so.value))
    ensures |r.out| <= 1 && |r.up| <= 1
  {
    var s := PatchRse(c, Restarted(so, f, now), f.slices);
    if AllSet(s.bits, s.nSlices) then Finish(c, s, f) else Step(s, SendAck(s, f.src, f.dst), [])
  }

  ghost function ProcPatch(c: Crcs, s: State, f: Frame, now: int): (r: Step)
    requires f.Patch? && Sized(s)
    ensures |r.out| <= 1 && |r.up| <= 1
  {
    var t := s.(idleTimeout := now + IDLE_TIMEOUT);
    if t.seqExp != f.seqNo || t.completed then Step(t, [], [])
    else
      var u := PatchRse(c, t, f.slices);
      if AllSet(u.bits, u.nSlices) then Finish(c, u, f) else Step(u, [], [])
  }

  ghost function ProcAckReq(s: State, f: Frame, now: int): (r: Step)
    requires Sized(s)
    ensures |r.out| <= 1 && |r.up| <= 1
  {
    var t := s.(idleTimeout := now + IDLE_TIMEOUT);
    Step(t, if t.seqExp == f.seqNo then SendAck(t, f.src, f.dst) else [], [])
  }

  /** One session's turn in proc_timer; no session is left when nothing has come for too long. */
  function Timer(s: State, now: int): Option<State> {
    if now >= s.idleTimeout then None else Some(s)
  }

  /** A session that has taken a frame, whether it was of use or not, lives exactly the idle time from then on. */
  lemma FrameKeepsAlive(c: Crcs, so: Option<State>, f: Frame, now: int, later: int)
    requires so.Some? ==> Sized(so.value)
    ensures f.Data? && f.len <= MAX_SAFE_LEN ==>
              (Timer(ProcData(c, so, f, now).state, later).Some? <==> later < now + IDLE_TIMEOUT)
    ensures f.Patch? && so.Some? ==>
              (Timer(ProcPatch(c, so.value, f, now).state, later).Some? <==> later < now + IDLE_TIMEOUT)
    ensures f.Ackr? && so.Some? ==>
              (Timer(ProcAckReq(so.value, f, now).state, later).Some? <==> later < now + IDLE_TIMEOUT)
  {
  }

  // ----- what every session keeps -----

  /** A full bitmap means delivered or refused, and only a full bitmap was ever delivered. */
  ghost predicate Inv(s: State) {
    && Sized(s)
    && (AllSet(s.bits, s.nSlices) ==> s.completed || s.nak)
    && (s.completed ==> AllSet(s.bits, s.nSlices))
  }

  lemma ProcDataKeepsInv(c: Crcs, so: Option<State>, f: Frame, now: int)
    requires f.Data? && f.len <= MAX_SAFE_LEN && (so.Some? ==> Sized(so.value))
    ensures Inv(ProcData(c, so, f, now).state)
  {
  }

  lemma ProcPatchKeepsInv(c: Crcs, s: State, f: Frame, now: int)
    requires f.Patch? && Inv(s)
    ensures Inv(ProcPatch(c, s, f, now).state)
  {
  }

  /** The slices of a PATCH that leads there: numbered one further than the message goes, each with its checksum. */
  function StraySlices(c: Crcs, n: nat): (r: seq<Slice>)
    requires n <= MAX_SLICE_NUM
  {
    seq(n + 1, k requires 0 <= k <= n => MakeSlice(c, k, []))
  }

  ghost predicate Numbered(c: Crcs, slices: seq<Slice>) {
    forall i :: 0 <= i < |slices| ==> Intact(c, slices[i]) && slices[i].seqNo as nat == i
  }

  lemma {:induction false} NumberedBits(c: Crcs, s: State, slices: seq<Slice>)
    requires Sized(s) && Numbered(c, slices) && |slices| <= s.nSlices + 1
    ensures forall k: nat :: k in PatchRse(c, s, slices).bits <==> k in s.bits || k < |slices|
  {
    if slices != [] {
      NumberedBits(c, s, slices[..|slices| - 1]);
    }
  }

  /** A receiver that has just been set up for a message and takes such a PATCH neither delivers nor answers, not even
      when it is asked. */
  lemma StraySliceSilences(c: Crcs, so: Option<State>, data: Frame, patch: Frame, ask: Frame, now: int)
    requires data.Data? && 0 < data.len <= MAX_MSG_LEN && data.slices == [] && (so.Some? ==> Sized(so.value))
    requires patch.Patch? && patch.seqNo == data.seqNo && patch.slices == StraySlices(c, SliceCount(data.len))
    requires ask.Ackr? && ask.seqNo == data.seqNo
    ensures var s := ProcData(c, so, data, now).state;
            var r := ProcPatch(c, s, patch, now);
            && s.nSlices in r.state.bits && r.out == [] && r.up == [] && !r.state.completed && !r.state.nak
            && ProcAckReq(r.state, ask, now).out == []
  {
    var s := ProcData(c, so, data, now).state;
    assert PatchRse(c, Restarted(so, data, now), []) == Restarted(so, data, now);
    assert 0 !in Restarted(so, data, now).bits;
    var t := s.(idleTimeout := now + IDLE_TIMEOUT);
    assert Numbered(c, patch.slices);
    NumberedBits(c, t, patch.slices);
    var u := PatchRse(c, t, patch.slices);
    assert forall k: nat :: k in u.bits <==> k <= u.nSlices;
    SilentIff(u, ask.src, ask.dst);
    StrayBitIff(u.bits, u.nSlices);
  }

  // ----- the session object -----

  class Rse {
    const bitmap: array<bv32>
    const data: array<u8>
    var seqExp: u8
    var nSlices: nat
    var msglen: nat
    var dCsum: u32
    var completed: bool
    var nak: bool
    var idleTimeout: int

    ghost function Current(): State
      reads this, bitmap, data
    {
      State(Bits(bitmap[..]), seqExp, nSlices, msglen, dCsum, data[..], completed, nak, idleTimeout)
    }

    ghost predicate Valid()
      reads this, bitmap, data
    {
      bitmap.Length == BITMAP32_SIZE && Sized(Current())
    }

    /** create_rse and reset_rse */
    constructor (now: int)
      ensures Valid() && Current() == Reset(now) && fresh(bitmap) && fresh(data)
    {
      bitmap := new bv32[BITMAP32_SIZE](_ => 0);
      data := new u8[LINK_MTU](_ => 0);
      idleTimeout := now + IDLE_TIMEOUT;
      seqExp := 0xff;
      nSlices := 0;
      msglen := 0;
      dCsum := 0xffff_ffff;
      completed := false;
      nak := false;
      new;
      ClrAllBits(bitmap);
      assert data[..] == seq(LINK_MTU, _ => 0);
    }

    method CopySlice(c: Crcs, sl: Slice)
      requires Valid()
      modifies bitmap, data
      ensures Valid() && Current() == CpSlice(c, old(Current()), sl)
    {
      if sl.csum != Sealed(c, sl).csum {
        return;
      }
      if sl.seqNo > nSlices {
        return;
      }
      var len := SLICE_DATA_LEN;
      if sl.seqNo == nSlices - 1 {
        if msglen % SLICE_DATA_LEN != 0 {
          len := msglen % SLICE_DATA_LEN;
        }
      }
      ghost var was, bits := data[..], Bits(bitmap[..]);
      forall i | 0 <= i < len {
        data[SLICE_DATA_LEN * sl.seqNo + i] := sl.data[i];
      }
      assert data[..] == Overwritten(was, SLICE_DATA_LEN * sl.seqNo, sl.data[..len]);
      assert Bits(bitmap[..]) == bits;
      SetBit(bitmap, sl.seqNo);
      assert Bits(bitmap[..]) == bits + {sl.seqNo as nat};
    }

    method Patch(c: Crcs, slices: seq<Slice>)
      requires Valid()
      modifies bitmap, data
      ensures Valid() && Current() == PatchRse(c, old(Current()), slices)
    {
      for i := 0 to |slices|
        invariant Valid() && Current() == PatchRse(c, old(Current()), slices[..i])
      {
        assert slices[..i + 1][..i] == slices[..i];
        CopySlice(c, slices[i]);
      }
      assert slices[..|slices|] == slices;
    }

    method PutAck(dst: u8, src: u8, lower: Fifo<Frame>)
      requires Valid()
      modifies lower
      ensures lower.items == old(lower.items) + SendAck(Current(), dst, src)
    {
      if nak {
        return;
      }
      SliceNumbers(Bits(bitmap[..]), nSlices);
      var all := TestAllBitsSet(bitmap, nSlices);
      if all {
        lower.Push(Acka(src, dst, seqExp));
      } else {
        var list := CollectMissing(bitmap, nSlices);
        if list == [] {
          return;
        }
        lower.Push(Ackp(src, dst, seqExp, AsBytes(list)));
      }
    }

    /** The end of proc_data and of proc_patch, once every slice of a message not yet handed up is there. */
    method Conclude(c: Crcs, f: Frame, lower: Fifo<Frame>, upper: DataList)
      requires Valid() && !completed
      modifies this, lower, upper.list
      ensures Valid()
      ensures var r := Finish(c, old(Current()), f);
              && Current() == r.state
              && lower.items == old(lower.items) + r.out && upper.list.items == old(upper.list.items) + r.up
    {
      hide SendAck, AllSet, Bits;
      if dCsum != c.c32(data[..msglen]) {
        nak := true;
      } else if !completed {
        PutAck(f.src, f.dst, lower);
        upper.Put(data[..msglen]);
        completed := true;
      }
    }

    /** proc_data, for a session that exists or has just been created. */
    method OnData(c: Crcs, f: Frame, lower: Fifo<Frame>, upper: DataList, now: int)
      requires f.Data? && f.len <= MAX_SAFE_LEN && Valid()
      modifies this, bitmap, data, lower, upper.list
      ensures Valid()
      ensures var r := ProcData(c, Some(old(Current())), f, now);
              && Current() == r.state
              && lower.items == old(lower.items) + r.out && upper.list.items == old(upper.list.items) + r.up
    {
      idleTimeout := now + IDLE_TIMEOUT;
      ClrAllBits(bitmap);
      seqExp := f.seqNo;
      msglen := f.len;
      dCsum := f.dCsum;
      nSlices := (f.len + SLICE_DATA_LEN - 1) / SLICE_DATA_LEN;
      completed := false;
      nak := false;
      assert Current() == Restarted(Some(old(Current())), f, now);
      Patch(c, f.slices);
      var all := TestAllBitsSet(bitmap, nSlices);
      if all {
        Conclude(c, f, lower, upper);
      } else {
        PutAck(f.src, f.dst, lower);
      }
    }

    /** proc_patch, for a session that exists. */
    method OnPatch(c: Crcs, f: Frame, lower: Fifo<Frame>, upper: DataList, now: int)
      requires f.Patch? && Valid()
      modifies this, bitmap, data, lower, upper.list
      ensures Valid()
      ensures var r := ProcPatch(c, old(Current()), f, now);
              && Current() == r.state
              && lower.items == old(lower.items) + r.out && upper.list.items == old(upper.list.items) + r.up
    {
      idleTimeout := now + IDLE_TIMEOUT;
      if seqExp != f.seqNo {
        return;
      }
      if !completed {
        Patch(c, f.slices);
        var all := TestAllBitsSet(bitmap, nSlices);
        if all {
          Conclude(c, f, lower, upper);
        }
      }
    }

    /** This session's turn in proc_timer; the result says whether the session is kept. */
    method ProcTimer(now: int) returns (keep: bool)
      ensures keep <==> Timer(Current(), now).Some?
    {
      keep := now < idleTimeout;
    }

    /** proc_ack_req, for a session that exists. */
    method OnAckReq(f: Frame, lower: Fifo<Frame>, now: int)
      requires Valid()
      modifies this, lower
      ensures Valid()
      ensures var r := ProcAckReq(old(Current()), f, now);
              Current() == r.state && lower.items == old(lower.items) + r.out
    {
      idleTimeout := now + IDLE_TIMEOUT;
      if seqExp == f.seqNo {
        PutAck(f.src, f.dst, lower);
      }
    }
  }
}
