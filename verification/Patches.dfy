/** When a PATCH fits the link, and what arrives of one that does not. */
module Patches {
  import opened Bytes
  import opened Packets
  import opened Frames
  import opened Framing
  import opened Wire
  import Slicing

  /** What send_patch queues for the link. The length of a frame that does not fit is -1, stored in a u16; the
      queue then takes the first 1000 bytes of the buffer: the escaped prefix and what lay behind it. */
  function OnLink(e: seq<u8>, stale: seq<u8>): seq<u8>
    requires |stale| == LINK_MTU
  {
    if |Framed(e)| <= LINK_MTU then Framed(e)
    else
      Slicing.FitCountFits(e, LINK_MTU - 1);
      var w := [BREAK] + Escape(e[..Slicing.FitCount(e, LINK_MTU - 1)]);
      w + stale[|w|..]
  }

  // ----- what arrives of an oversized PATCH -----

  /** At most one byte of the buffer is left unwritten, and if one is, the data goes on with a byte to escape. */
  lemma StaleTail(e: seq<u8>, m: nat)
    requires |Framed(e)| > LINK_MTU && m == Slicing.FitCount(e, LINK_MTU - 1)
    ensures m <= |e| && LINK_MTU - 1 <= 1 + |Escape(e[..m])| <= LINK_MTU
    ensures 1 + |Escape(e[..m])| == LINK_MTU - 1 ==> m < |e| && Special(e[m])
  {
    Slicing.FitCountFits(e, LINK_MTU - 1);
    if m < |e| {
      EscapeSnoc(e, m);
    } else {
      assert e[..m] == e;
    }
  }

  /** The data that de_frame gets out of an oversized frame: what fitted and at most one stray byte, which is none that
      would have had to be escaped. */
  lemma OversizedData(e: seq<u8>, stale: seq<u8>) returns (m: nat, last: seq<u8>)
    requires |Framed(e)| > LINK_MTU && |stale| == LINK_MTU
    ensures m == Slicing.FitCount(e, LINK_MTU - 1) <= |e| && m >= 499
    ensures DeFramed(OnLink(e, stale), LINK_MTU).data == e[..m] + last
    ensures last == [] || (|last| == 1 && m < |e| && Special(e[m]) && !Special(last[0]))
  {
    hide Escape, Unescape, DeFramed, OnLink, Slicing.FitCount, Special;
    Slicing.FailureStillFits499(e);
    m := Slicing.FitCount(e, LINK_MTU - 1);
    StaleTail(e, m);
    var rest := Behind(e, stale, m);
    UnescapeEscape(e[..m], rest, LINK_MTU);
    Shorter(e, m);
    last := Unescape(rest, LINK_MTU - m).data;
    OneByte(rest, LINK_MTU - m);
  }

  lemma Behind(e: seq<u8>, stale: seq<u8>, m: nat) returns (rest: seq<u8>)
    requires |Framed(e)| > LINK_MTU && |stale| == LINK_MTU
    requires m == Slicing.FitCount(e, LINK_MTU - 1) && m <= |e| && 1 + |Escape(e[..m])| <= LINK_MTU
    ensures |rest| == LINK_MTU - 1 - |Escape(e[..m])|
    ensures DeFramed(OnLink(e, stale), LINK_MTU) == Unescape(Escape(e[..m]) + rest, LINK_MTU)
  {
    hide Escape, Unescape, Slicing.FitCount;
    var w := [BREAK] + Escape(e[..m]);
    rest := stale[|w|..];
    assert OnLink(e, stale)[1..] == Escape(e[..m]) + rest;
  }

  lemma Shorter(e: seq<u8>, m: nat)
    requires m <= |e| && 1 + |Escape(e[..m])| <= LINK_MTU
    ensures m < LINK_MTU
  {
    FrameLength(e[..m]);
  }

  lemma OneByte(s: seq<u8>, room: nat)
    requires |s| <= 1 && room > 0
    ensures Unescape(s, room).data == if s == [] || Special(s[0]) then [] else s
  {
    if s != [] {
      assert s[1..] == [];
    }
  }

  /** Of a PATCH whose first m bytes are right, every slice within them arrives, and at most one more. */
  ghost predicate ArrivesUpTo(got: Option<Frame>, f: Frame, m: nat)
    requires f.Patch?
  {
    && got.Some? && got.value.Patch? && SameHeader(got.value, f)
    && m < FrameLen(|got.value.slices| + 1) && |got.value.slices| <= |f.slices|
    && forall k :: 0 <= k < |got.value.slices| && FrameLen(k + 1) <= m ==> got.value.slices[k] == f.slices[k]
  }

  /** An oversized PATCH is as good as a truncated one: the receiver gets every slice in front of the cut, which leaves
      at least 499 of its bytes, that is 13 slices. */
  lemma OversizedPatchStillHelps(c: Crcs, f: Frame, stale: seq<u8>)
    requires Buildable(f) && f.Patch? && |stale| == LINK_MTU && |Framed(Encode(c, f, 0))| > LINK_MTU
    ensures var m := Slicing.FitCount(Encode(c, f, 0), LINK_MTU - 1);
            499 <= m <= |Encode(c, f, 0)| && ArrivesUpTo(Carried(c, OnLink(Encode(c, f, 0), stale)), f, m)
  {
    hide Encode, Buildable, Decode, OnLink, ArrivesUpTo;
    EncodedLength(c, f, 0);
    var e := Encode(c, f, 0);
    var m, last := OversizedData(e, stale);
    DeFramedRoom(OnLink(e, stale), LINK_MTU);
    OversizedRead(c, f, e[..m] + last, m);
  }

  lemma OversizedRead(c: Crcs, f: Frame, d: seq<u8>, m: nat)
    requires Buildable(f) && f.Patch? && 499 <= m <= |Encode(c, f, 0)| && m <= |d| <= m + 1 && |d| <= LINK_MTU
    requires d[..m] == Encode(c, f, 0)[..m]
    ensures ArrivesUpTo(Decode(c, d), f, m)
  {
    hide Encode, Decode;
    EncodedLength(c, f, 0);
    PatchHead(c, f, d, m);
  }

  // ----- when a PATCH arrives as it was built -----

  lemma LastByte(c: Crcs, f: Frame)
    requires Buildable(f) && f.Patch?
    ensures var e := Encode(c, f, 0); |e| == FrameLen(|f.slices|) && e[|e| - 1] == f.slices[|f.slices| - 1].csum / 0x100
  {
    EncodedLength(c, f, 0);
    var n := |f.slices|;
    SliceAt(f.slices, n - 1);
    var body, last := SlicesBytes(f.slices), SliceBytes(f.slices[n - 1]);
    assert body[SLICE_LEN * n - 1] == body[SLICE_LEN * (n - 1)..SLICE_LEN * (n - 1) + SLICE_LEN][35] == last[35];
    assert Encode(c, f, 0)[FRM_MSG_HDR_LEN..] == body;
  }

  lemma LastByteRead(c: Crcs, f: Frame, d: seq<u8>)
    requires Buildable(f) && f.Patch? && |d| == FrameLen(|f.slices|) <= LINK_MTU && Decode(c, d) == Some(f)
    ensures d[|d| - 1] == f.slices[|f.slices| - 1].csum / 0x100
  {
    hide FrameCsumOk, MsgCsumOk;
    var n := |f.slices|;
    assert ParseSlices(d, FRM_MSG_HDR_LEN, n)[n - 1] == ParseSlice(d, FrameLen(n - 1));
  }

  /** A PATCH arrives as it was built exactly if its escaped data fits behind the opening BREAK: that the closing one is
      cut off does no harm. If it does not fit, no bytes that lie behind it can make up for it. */
  lemma PatchCrossesIff(c: Crcs, f: Frame, stale: seq<u8>)
    requires Buildable(f) && f.Patch? && |stale| == LINK_MTU
    ensures Carried(c, OnLink(Encode(c, f, 0), stale)) == Some(f) <==> |Escape(Encode(c, f, 0))| <= LINK_MTU - 1
  {
    hide Encode, Buildable, Decode, Carried;
    var e := Encode(c, f, 0);
    if |Framed(e)| <= LINK_MTU {
      CarriedWhole(c, f, 0, [], []);
      assert [] + Framed(e) + [] == Framed(e);
    } else {
      OversizedCrossesIff(c, f, stale);
    }
  }

  lemma OversizedCrossesIff(c: Crcs, f: Frame, stale: seq<u8>)
    requires Buildable(f) && f.Patch? && |stale| == LINK_MTU && |Framed(Encode(c, f, 0))| > LINK_MTU
    ensures Carried(c, OnLink(Encode(c, f, 0), stale)) == Some(f) <==> |Escape(Encode(c, f, 0))| <= LINK_MTU - 1
  {
    hide Encode, Buildable, Decode, OnLink;
    var e := Encode(c, f, 0);
    EncodedLength(c, f, 0);
    var m, last := OversizedData(e, stale);
    var d := e[..m] + last;
    DeFramedRoom(OnLink(e, stale), LINK_MTU);
    WholeIff(e, m);
    if m == |e| {
      assert d == e;
      DecodeEncode(c, f, 0);
    } else if Decode(c, d) == Some(f) {
      ReadLength(c, f, d);
      LastByte(c, f);
      LastByteRead(c, f, d);
      assert false;
    }
  }

  lemma WholeIff(e: seq<u8>, m: nat)
    requires m == Slicing.FitCount(e, LINK_MTU - 1)
    ensures m <= |e| && (m == |e| <==> |Escape(e)| <= LINK_MTU - 1)
  {
    Slicing.FitCountFits(e, LINK_MTU - 1);
    assert e[..|e|] == e;
    if m < |e| {
      EscapeMonotone(e, m + 1, |e|);
    }
  }

  lemma ReadLength(c: Crcs, f: Frame, d: seq<u8>)
    requires Buildable(f) && f.Patch? && |d| <= |Encode(c, f, 0)| && |d| <= LINK_MTU && Decode(c, d) == Some(f)
    ensures |d| == FrameLen(|f.slices|) == |Encode(c, f, 0)|
  {
    hide Encode, FrameCsumOk, MsgCsumOk, ParseSlice;
    EncodedLength(c, f, 0);
    assert |f.slices| <= (|d| - FRM_MSG_HDR_LEN) / SLICE_LEN;
  }

  /** Of a PATCH that is two bytes too long exactly one byte is cut off, the last one of the last slice: all other
      slices arrive, and the last one does not or does not match its checksum. */
  lemma AllButLastArrive(c: Crcs, f: Frame, stale: seq<u8>)
    requires Buildable(f) && f.Patch? && |stale| == LINK_MTU && |Framed(Encode(c, f, 0))| == LINK_MTU + 2
    requires forall sl :: sl in f.slices ==> Intact(c, sl)
    ensures AllButLast(c, Carried(c, OnLink(Encode(c, f, 0), stale)), f)
  {
    hide Encode, Buildable, Decode, OnLink, Intact;
    var e, n := Encode(c, f, 0), |f.slices|;
    EncodedLength(c, f, 0);
    var m, last := OversizedData(e, stale);
    DeFramedRoom(OnLink(e, stale), LINK_MTU);
    OneByteCut(e, m);
    AllButLastRead(c, f, e[..m] + last, m);
  }

  ghost predicate AllButLast(c: Crcs, got: Option<Frame>, f: Frame)
    requires f.Patch? && f.slices != []
  {
    var n := |f.slices|;
    && got.Some? && got.value.Patch? && SameHeader(got.value, f)
    && n - 1 <= |got.value.slices| <= n && got.value.slices[..n - 1] == f.slices[..n - 1]
    && (|got.value.slices| == n ==> !Intact(c, got.value.slices[n - 1]))
  }

  lemma OneByteCut(e: seq<u8>, m: nat)
    requires |Framed(e)| == LINK_MTU + 2 && m == Slicing.FitCount(e, LINK_MTU - 1)
    ensures |e| == m + 1
  {
    WholeIff(e, m);
    Slicing.FitCountFits(e, LINK_MTU - 1);
    EscapeMonotone(e, m + 1, |e|);
    assert e[..|e|] == e;
  }

  lemma AllButLastRead(c: Crcs, f: Frame, d: seq<u8>, m: nat)
    requires Buildable(f) && f.Patch? && 499 <= m == |Encode(c, f, 0)| - 1 && m <= |d| <= m + 1 && |d| <= LINK_MTU
    requires d[..m] == Encode(c, f, 0)[..m] && (|d| == m + 1 ==> d[m] != Encode(c, f, 0)[m])
    requires forall sl :: sl in f.slices ==> Intact(c, sl)
    ensures AllButLast(c, Decode(c, d), f)
  {
    hide Encode, Intact, Decode;
    var n := |f.slices|;
    EncodedLength(c, f, 0);
    PatchHead(c, f, d, m);
    var got := Decode(c, d).value;
    forall k | 0 <= k < n - 1 ensures got.slices[k] == f.slices[k] {
      assert FrameLen(k + 1) <= m;
    }
    if |got.slices| == n {
      LastIsBroken(c, f, d);
      assert f.slices[n - 1] in f.slices;
      OneChecksum(c, f.slices[n - 1], got.slices[n - 1]);
    }
  }

  lemma LastIsBroken(c: Crcs, f: Frame, d: seq<u8>)
    requires Buildable(f) && f.Patch? && |d| == |Encode(c, f, 0)| <= LINK_MTU
    requires Decode(c, d).Some? && Decode(c, d).value.Patch? && |Decode(c, d).value.slices| == |f.slices|
    requires d[..|d| - 1] == Encode(c, f, 0)[..|d| - 1] && d[|d| - 1] != Encode(c, f, 0)[|d| - 1]
    ensures var x, y := Decode(c, d).value.slices[|f.slices| - 1], f.slices[|f.slices| - 1];
            x.csum != y.csum && x == y.(csum := x.csum)
  {
    hide Encode, FrameCsumOk, MsgCsumOk;
    var e, n := Encode(c, f, 0), |f.slices|;
    var at := FrameLen(n - 1);
    EncodedLength(c, f, 0);
    DecodeEncode(c, f, 0);
    var x, y := ParseSlice(d, at), ParseSlice(e, at);
    assert ParseSlices(d, FRM_MSG_HDR_LEN, n)[n - 1] == x && ParseSlices(e, FRM_MSG_HDR_LEN, n)[n - 1] == y;
    assert forall i :: 0 <= i < |d| - 1 ==> d[i] == d[..|d| - 1][i] == e[i];
    assert x.data == y.data;
  }

  /** Two slices that differ in nothing but their checksum are not both intact. */
  lemma OneChecksum(c: Crcs, y: Slice, x: Slice)
    requires Intact(c, y) && x.csum != y.csum && x == y.(csum := x.csum)
    ensures !Intact(c, x)
  {
  }
}
