/** What the receive buffer holds: every set bit stands for one slice of the message being received. */
module SplitContent {
  import opened Bytes
  import opened Packets
  import opened Frames
  import opened Bitmap
  import opened Receiver
  import opened Sequences

  /** The session is set up for `msg`, and each slice it has marked is that slice of `msg`. */
  ghost predicate Holds(s: State, msg: seq<u8>) {
    && Sized(s) && s.msglen == |msg|
    && forall k :: k in s.bits && k < s.nSlices ==> HoldsSlice(s, msg, k)
  }

  ghost predicate HoldsSlice(s: State, msg: seq<u8>, k: nat)
    requires Sized(s) && s.msglen == |msg| && k < s.nSlices
  {
    s.data[SLICE_DATA_LEN * k..SLICE_DATA_LEN * k + |Chunk(msg, k)|] == Chunk(msg, k)
  }

  /** What may reach cp_slice_to_rse when corruption is always noticed: slices of the message, or broken ones. */
  ghost predicate Genuine(c: Crcs, msg: seq<u8>, sl: Slice)
    requires |msg| <= MAX_MSG_LEN
  {
    Intact(c, sl) ==> sl in Slices(c, msg)
  }

  lemma ChunkLength(s: State, msg: seq<u8>, k: nat)
    requires Sized(s) && s.msglen == |msg| && k < s.nSlices
    ensures |Chunk(msg, k)| == PartLen(s, k)
    ensures SLICE_DATA_LEN * k + |Chunk(msg, k)| <= if k == s.nSlices - 1 then |msg| else SLICE_DATA_LEN * (k + 1)
    ensures k == s.nSlices - 1 ==> SLICE_DATA_LEN * k + |Chunk(msg, k)| == |msg|
  {
  }

  lemma WrittenElsewhere(data: seq<u8>, at: nat, bytes: seq<u8>, lo: nat, hi: nat)
    requires at + |bytes| <= |data| && lo <= hi <= |data| && (hi <= at || at + |bytes| <= lo)
    ensures Overwritten(data, at, bytes)[lo..hi] == data[lo..hi]
  {
  }

  lemma WrittenHere(data: seq<u8>, at: nat, bytes: seq<u8>)
    requires at + |bytes| <= |data|
    ensures Overwritten(data, at, bytes)[at..at + |bytes|] == bytes
  {
  }

  /** A slice of a message carries its own number and chunk, and passes its own checksum. */
  lemma SliceOf(c: Crcs, msg: seq<u8>, sl: Slice)
    requires |msg| <= MAX_MSG_LEN && sl in Slices(c, msg)
    ensures sl.seqNo < SliceCount(|msg|) && sl.data[..|Chunk(msg, sl.seqNo)|] == Chunk(msg, sl.seqNo) && Intact(c, sl)
  {
  }

  lemma CopyKeeps(c: Crcs, s: State, msg: seq<u8>, sl: Slice)
    requires Holds(s, msg) && |msg| <= MAX_MSG_LEN && Genuine(c, msg, sl)
    ensures Holds(CpSlice(c, s, sl), msg)
    ensures Intact(c, sl) ==> CpSlice(c, s, sl).bits == s.bits + {sl.seqNo as nat}
    ensures !Intact(c, sl) ==> CpSlice(c, s, sl) == s
  {
    if Intact(c, sl) {
      SliceOf(c, msg, sl);
      var r := CpSlice(c, s, sl);
      var n: nat := sl.seqNo;
      ChunkLength(s, msg, n);
      var bytes := sl.data[..PartLen(s, n)];
      forall k | k in r.bits && k < r.nSlices ensures HoldsSlice(r, msg, k) {
        ChunkLength(s, msg, k);
        if k == n {
          WrittenHere(s.data, SLICE_DATA_LEN * n, bytes);
        } else {
          assert HoldsSlice(s, msg, k);
          WrittenElsewhere(s.data, SLICE_DATA_LEN * n, bytes, SLICE_DATA_LEN * k, SLICE_DATA_LEN * k + |Chunk(msg, k)|);
        }
      }
    }
  }

  /** A patch adds exactly the intact slices it brings. */
  ghost function Numbers(c: Crcs, slices: seq<Slice>): set<nat> {
    set sl | sl in slices && Intact(c, sl) :: sl.seqNo as nat
  }

  lemma {:induction false} PatchKeeps(c: Crcs, s: State, msg: seq<u8>, slices: seq<Slice>)
    requires Holds(s, msg) && |msg| <= MAX_MSG_LEN
    requires forall sl :: sl in slices ==> Genuine(c, msg, sl)
    ensures Holds(PatchRse(c, s, slices), msg)
    ensures PatchRse(c, s, slices).bits == s.bits + Numbers(c, slices)
  {
    if slices != [] {
      var before, last := slices[..|slices| - 1], slices[|slices| - 1];
      assert slices == before + [last];
      PatchKeeps(c, s, msg, before);
      CopyKeeps(c, PatchRse(c, s, before), msg, last);
      assert forall sl :: sl in slices <==> sl in before || sl == last;
      assert Numbers(c, slices) == Numbers(c, before) + if Intact(c, last) then {last.seqNo as nat} else {};
    }
  }

  /** Whatever the session holds, a patch sets exactly the bits of the intact slices within its range. */
  lemma {:induction false} PatchBits(c: Crcs, s: State, slices: seq<Slice>)
    requires Sized(s)
    ensures PatchRse(c, s, slices).bits == s.bits + set k | k in Numbers(c, slices) && k <= s.nSlices
  {
    if slices != [] {
      var before, last := slices[..|slices| - 1], slices[|slices| - 1];
      assert slices == before + [last];
      PatchBits(c, s, before);
      assert forall sl :: sl in slices <==> sl in before || sl == last;
      assert Numbers(c, slices) == Numbers(c, before) + if Intact(c, last) then {last.seqNo as nat} else {};
    }
  }

  /** Once every bit is set the buffer is the message. */
  lemma FullIsMessage(s: State, msg: seq<u8>)
    requires Holds(s, msg) && forall k :: 0 <= k < s.nSlices ==> k in s.bits
    ensures s.data[..s.msglen] == msg
  {
    forall i | 0 <= i < |msg| ensures s.data[i] == msg[i] {
      var k := i / SLICE_DATA_LEN;
      assert HoldsSlice(s, msg, k);
      ChunkLength(s, msg, k);
      assert SLICE_DATA_LEN * k <= i < SLICE_DATA_LEN * k + |Chunk(msg, k)|;
      var lo := SLICE_DATA_LEN * k;
      assert s.data[i] == s.data[lo..lo + |Chunk(msg, k)|][i - lo] == Chunk(msg, k)[i - lo] == msg[i];
    }
  }

  // ----- a message that was refused -----

  /** Where a patch is stored does not depend on what is marked. */
  lemma {:induction false} DataAlone(c: Crcs, s: State, bits: set<nat>, slices: seq<Slice>)
    requires Sized(s) && Sized(s.(bits := bits))
    ensures PatchRse(c, s.(bits := bits), slices).data == PatchRse(c, s, slices).data
  {
    if slices != [] {
      DataAlone(c, s, bits, slices[..|slices| - 1]);
    }
  }

  /** A receiver that has refused a complete message because of its CRC still takes a PATCH. If that brings every slice
      that was wrong, the message is handed up, but not acknowledged: the refusal stays until the next DATA. */
  lemma RefusedIsRepaired(c: Crcs, s: State, msg: seq<u8>, f: Frame, now: int)
    requires Sized(s) && s.msglen == |msg| <= MAX_MSG_LEN && s.dCsum == c.c32(msg)
    requires AllSet(s.bits, s.nSlices) && s.nak && !s.completed
    requires f.Patch? && f.seqNo == s.seqExp && forall sl :: sl in f.slices ==> Genuine(c, msg, sl)
    requires forall k :: 0 <= k < s.nSlices ==> k in Numbers(c, f.slices) || HoldsSlice(s, msg, k)
    ensures var r := ProcPatch(c, s, f, now); r.up == [msg] && r.out == [] && r.state.completed && r.state.nak
  {
    hide Slices, Genuine, Numbers, PatchRse;
    var t := s.(idleTimeout := now + IDLE_TIMEOUT);
    var right := set k | 0 <= k < s.nSlices && HoldsSlice(s, msg, k);
    var v := t.(bits := right);
    forall k | k in right ensures HoldsSlice(v, msg, k) {
      assert HoldsSlice(s, msg, k);
    }
    PatchKeeps(c, v, msg, f.slices);
    PatchKeepsBits(c, t, f.slices, msg);
    DataAlone(c, t, right, f.slices);
    FullIsMessage(PatchRse(c, v, f.slices), msg);
  }

  lemma PatchKeepsBits(c: Crcs, s: State, slices: seq<Slice>, msg: seq<u8>)
    requires Sized(s) && s.msglen == |msg| <= MAX_MSG_LEN && AllSet(s.bits, s.nSlices)
    requires forall sl :: sl in slices ==> Genuine(c, msg, sl)
    ensures AllSet(PatchRse(c, s, slices).bits, s.nSlices)
  {
    hide PatchRse, Slices;
    PatchBits(c, s, slices);
    forall k | k in Numbers(c, slices) ensures k < s.nSlices {
      var sl :| sl in slices && Intact(c, sl) && sl.seqNo as nat == k;
      SliceOf(c, msg, sl);
    }
  }
}
