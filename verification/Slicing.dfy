/** How upper_send cuts a message into slices and shrinks it until its escaped frame fits the link. */
module Slicing {
  import opened Bytes
  import opened Packets
  import opened Framing

  /** fill_slices: as many slices as the message needs and `size` bytes hold. */
  method FillSlices(c: Crcs, size: int, msg: seq<u8>) returns (slices: seq<Slice>, msglen: nat)
    requires size <= LINK_DATA_MAX
    ensures msglen <= |msg| && msglen <= MAX_MSG_LEN
    ensures slices == Slices(c, msg[..msglen])
    ensures msglen == |msg| || (msglen == SLICE_DATA_LEN * |slices| && SLICE_LEN * |slices| > size - SLICE_DATA_LEN)
    ensures slices == [] || SLICE_LEN * (|slices| - 1) <= size - SLICE_DATA_LEN
  {
    slices := [];
    var remain := |msg|;
    var at := 0;
    while remain > 0 && SLICE_LEN * |slices| <= size - SLICE_DATA_LEN
      invariant remain == |msg| - at
      invariant |slices| <= MAX_SLICE_NUM
      invariant at == if SLICE_DATA_LEN * |slices| <= |msg| then SLICE_DATA_LEN * |slices| else |msg|
      invariant |slices| == SliceCount(at)
      invariant slices == Slices(c, msg[..at])
      invariant slices == [] || SLICE_LEN * (|slices| - 1) <= size - SLICE_DATA_LEN
    {
      var len := if remain > SLICE_DATA_LEN then SLICE_DATA_LEN else remain;
      var k := |slices|;
      slices := slices + [MakeSlice(c, k, msg[at..at + len])];
      MoreSlices(c, msg, at, len);
      at := at + len;
      remain := remain - len;
    }
    msglen := |msg| - remain;
  }

  lemma MoreSlices(c: Crcs, msg: seq<u8>, at: nat, len: nat)
    requires at % SLICE_DATA_LEN == 0 && 0 < len <= SLICE_DATA_LEN && at + len <= |msg| && at + len <= MAX_MSG_LEN
    ensures SliceCount(at + len) == SliceCount(at) + 1
    ensures Slices(c, msg[..at + len]) == Slices(c, msg[..at]) + [MakeSlice(c, SliceCount(at), msg[at..at + len])]
  {
    var a, b := msg[..at], msg[..at + len];
    var n := SliceCount(at);
    assert SLICE_DATA_LEN * n == at;
    forall k | 0 <= k < n ensures Chunk(a, k) == Chunk(b, k) {
      assert SLICE_DATA_LEN * k + SLICE_DATA_LEN <= at;
      assert a[SLICE_DATA_LEN * k..SLICE_DATA_LEN * k + SLICE_DATA_LEN]
          == b[SLICE_DATA_LEN * k..SLICE_DATA_LEN * k + SLICE_DATA_LEN];
    }
    assert Chunk(b, n) == msg[at..at + len];
  }

  // ----- the DATA frame upper_send builds -----

  function DataBytes(c: Crcs, src: u8, dst: u8, seqNo: u8, msg: seq<u8>): (r: seq<u8>)
    requires |msg| <= MAX_MSG_LEN
    ensures |r| == FRM_MSG_HDR_LEN + SLICE_LEN * SliceCount(|msg|)
  {
    FrmHdr(c, src, dst, FRAME_TYPE_DATA, 0, SLICE_LEN * SliceCount(|msg|) + FRM_MSG_HDR_LEN)
    + MsgHdr(c, c.c32(msg), |msg|, seqNo, []) + SlicesBytes(Slices(c, msg))
  }

  /** The first frame on the link carries only the headers. */
  function HeaderBytes(c: Crcs, src: u8, dst: u8, seqNo: u8, msg: seq<u8>): (r: seq<u8>)
    requires |msg| <= MAX_MSG_LEN
    ensures |r| == FRM_MSG_HDR_LEN
  {
    DataBytes(c, src, dst, seqNo, msg)[..FRM_MSG_HDR_LEN]
  }

  /** How many bytes of `d` can be escaped into `room` bytes. */
  function FitCount(d: seq<u8>, room: nat): (n: nat)
    ensures n <= |d|
  {
    if d == [] || |EscapeByte(d[0])| > room then 0 else 1 + FitCount(d[1..], room - |EscapeByte(d[0])|)
  }

  lemma {:induction false} FitCountFits(d: seq<u8>, room: nat)
    ensures var n := FitCount(d, room);
            |Escape(d[..n])| <= room && (n < |d| ==> room < |Escape(d[..n + 1])|)
  {
    var n := FitCount(d, room);
    if n > 0 {
      FitCountFits(d[1..], room - |EscapeByte(d[0])|);
      assert d[1..][..n - 1] == d[..n][1..];
    }
    if n < |d| {
      if n == 0 {
        assert d[..1] == [d[0]];
      } else {
        assert d[1..][..n] == d[..n + 1][1..];
      }
    }
  }

  /** The count en_frame reports on failure. */
  lemma LongestFitIsFitCount(d: seq<u8>, size: nat, n: nat)
    requires size > 0 && LongestFit(d, size, n)
    ensures n == FitCount(d, size - 1)
  {
    var m := FitCount(d, size - 1);
    FitCountFits(d, size - 1);
    if m < n {
      EscapeMonotone(d, m + 1, n);
    }
  }

  function CutSlices(d: seq<u8>): nat {
    (|d| - FitCount(d, LINK_MTU - 1) + SLICE_DATA_LEN) / SLICE_DATA_LEN
  }

  predicate Fits(c: Crcs, src: u8, dst: u8, seqNo: u8, msg: seq<u8>)
    requires |msg| <= MAX_MSG_LEN
  {
    |Framed(DataBytes(c, src, dst, seqNo, msg))| <= LINK_MTU
  }

  /** The message length the shrinking loop ends with; 0 when no slice would be left. */
  function Shrunk(c: Crcs, src: u8, dst: u8, seqNo: u8, msg: seq<u8>): (len: nat)
    requires |msg| <= MAX_MSG_LEN
    decreases SliceCount(|msg|)
  {
    if Fits(c, src, dst, seqNo, msg) then |msg|
    else
      var n := SliceCount(|msg|) - CutSlices(DataBytes(c, src, dst, seqNo, msg));
      if n <= 0 then 0
      else
        assert n < SliceCount(|msg|);
        Shrunk(c, src, dst, seqNo, msg[..SLICE_DATA_LEN * n])
  }

  /** A frame that does not fit still has at least 499 of its bytes placed. */
  lemma FailureStillFits499(d: seq<u8>)
    requires |Framed(d)| > LINK_MTU
    ensures FitCount(d, LINK_MTU - 1) >= 499
  {
    var n := FitCount(d, LINK_MTU - 1);
    FitCountFits(d, LINK_MTU - 1);
    FrameLength(d);
    if n < |d| {
      FrameLength(d[..n + 1]);
    }
  }

  /** Hence a cut always leaves at least 11 slices. */
  lemma CutBounds(d: seq<u8>, n: nat)
    requires |Framed(d)| > LINK_MTU && |d| == FRM_MSG_HDR_LEN + SLICE_LEN * n && n <= MAX_SLICE_NUM
    ensures 11 <= n - CutSlices(d) < n
  {
    FailureStillFits499(d);
    assert CutSlices(d) <= (FRM_MSG_HDR_LEN + SLICE_LEN * n - 499 + SLICE_DATA_LEN) / SLICE_DATA_LEN;
  }

  /** A frame that is e bytes too long has at most e data bytes that are not placed, and at least about half as many. */
  lemma Unplaced(d: seq<u8>)
    requires |Framed(d)| > LINK_MTU
    ensures var e, left := |Framed(d)| - LINK_MTU, |d| - FitCount(d, LINK_MTU - 1);
            left <= e <= 2 * left + 1
  {
    var n := FitCount(d, LINK_MTU - 1);
    FitCountFits(d, LINK_MTU - 1);
    assert d[..|d|] == d && d == d[..n] + d[n..];
    EscapeMonotone(d, n, |d|);
    EscapeAppend(d[..n], d[n..]);
    FrameLength(d[n..]);
    if n < |d| {
      EscapeSnoc(d, n);
    }
  }

  /** How many slices one failed attempt cuts: a slice for every 32 data bytes that were not placed, and one more. In
      terms of the overflow that is at most one for every 32 bytes, and one more. */
  lemma CutExactly(d: seq<u8>, placed: nat)
    requires |Framed(d)| > LINK_MTU && LongestFit(d, LINK_MTU, placed)
    ensures SLICE_DATA_LEN * (CutSlices(d) - 1) <= |d| - placed < SLICE_DATA_LEN * CutSlices(d)
    ensures CutSlices(d) <= (|Framed(d)| - LINK_MTU) / SLICE_DATA_LEN + 1
  {
    LongestFitIsFitCount(d, LINK_MTU, placed);
    Unplaced(d);
  }

  lemma LongestFitExists(d: seq<u8>)
    requires |Framed(d)| > LINK_MTU
    ensures LongestFit(d, LINK_MTU, FitCount(d, LINK_MTU - 1))
  {
    var n := FitCount(d, LINK_MTU - 1);
    FitCountFits(d, LINK_MTU - 1);
    forall k | n < k <= |d| ensures LINK_MTU < 1 + |Escape(d[..k])| {
      EscapeMonotone(d, n + 1, k);
    }
  }

  /** One failed attempt: the loop goes on with a shorter message, cut at a slice boundary. */
  lemma CutOnce(c: Crcs, src: u8, dst: u8, seqNo: u8, msg: seq<u8>) returns (n: nat)
    requires |msg| <= MAX_MSG_LEN && !Fits(c, src, dst, seqNo, msg)
    ensures n == SliceCount(|msg|) - CutSlices(DataBytes(c, src, dst, seqNo, msg))
    ensures 11 <= n < SliceCount(|msg|) && SLICE_DATA_LEN * n < |msg|
    ensures SliceCount(SLICE_DATA_LEN * n) == n
    ensures var d, lost := DataBytes(c, src, dst, seqNo, msg), SliceCount(|msg|) - n;
            && lost <= Overflow(d) / SLICE_DATA_LEN + 1
            && forall placed :: LongestFit(d, LINK_MTU, placed) ==>
                 SLICE_DATA_LEN * (lost - 1) <= |d| - placed < SLICE_DATA_LEN * lost
    ensures Shrunk(c, src, dst, seqNo, msg) == Shrunk(c, src, dst, seqNo, msg[..SLICE_DATA_LEN * n])
  {
    var d := DataBytes(c, src, dst, seqNo, msg);
    CutBounds(d, SliceCount(|msg|));
    n := SliceCount(|msg|) - CutSlices(d);
    LongestFitExists(d);
    CutExactly(d, FitCount(d, LINK_MTU - 1));
    forall placed | LongestFit(d, LINK_MTU, placed) ensures
      SLICE_DATA_LEN * (CutSlices(d) - 1) <= |d| - placed < SLICE_DATA_LEN * CutSlices(d)
    {
      CutExactly(d, placed);
    }
  }

  // ----- how often the loop runs -----

  /** What the escaped headers add to the slices. */
  lemma FrameOfSlices(c: Crcs, src: u8, dst: u8, seqNo: u8, msg: seq<u8>)
    requires |msg| <= MAX_MSG_LEN
    ensures var d, body := DataBytes(c, src, dst, seqNo, msg), SlicesBytes(Slices(c, msg));
            && d[FRM_MSG_HDR_LEN..] == body
            && 20 + |Escape(body)| <= |Framed(d)| <= 38 + |Escape(body)|
  {
    var d, body := DataBytes(c, src, dst, seqNo, msg), SlicesBytes(Slices(c, msg));
    var h := d[..FRM_MSG_HDR_LEN];
    assert d == h + body;
    EscapeAppend(h, body);
    FrameLength(h);
  }

  lemma {:induction false} SlicesBytesAppend(a: seq<Slice>, b: seq<Slice>)
    ensures SlicesBytes(a + b) == SlicesBytes(a) + SlicesBytes(b)
  {
    hide SliceBytes;
    if a == [] {
      assert a + b == b;
    } else {
      var head := SliceBytes(a[0]);
      assert (a + b)[1..] == a[1..] + b;
      SlicesBytesAppend(a[1..], b);
      assert head + (SlicesBytes(a[1..]) + SlicesBytes(b)) == head + SlicesBytes(a[1..]) + SlicesBytes(b);
    }
  }

  /** The slices that are left after a cut take at most 976 bytes. */
  lemma LeftFits(c: Crcs, src: u8, dst: u8, seqNo: u8, msg: seq<u8>, n: nat)
    requires |msg| <= MAX_MSG_LEN && !Fits(c, src, dst, seqNo, msg)
    requires n == SliceCount(|msg|) - CutSlices(DataBytes(c, src, dst, seqNo, msg))
    ensures n < SliceCount(|msg|) && |Escape(SlicesBytes(Slices(c, msg)[..n]))| <= 976
  {
    var d, slices := DataBytes(c, src, dst, seqNo, msg), Slices(c, msg);
    var h, kept := d[..FRM_MSG_HDR_LEN], SlicesBytes(slices[..n]);
    CutBounds(d, |slices|);
    var placed := FitCount(d, LINK_MTU - 1);
    LongestFitExists(d);
    CutExactly(d, placed);
    SlicesBytesAppend(slices[..n], slices[n..]);
    assert slices == slices[..n] + slices[n..];
    var m := FRM_MSG_HDR_LEN + SLICE_LEN * n;
    assert m + 5 <= placed;
    assert d[..m] == h + kept;
    EscapeMonotone(d, m, placed);
    EscapeAppend(h, kept);
    FrameLength(h);
  }

  /** By how much a frame exceeds the link. */
  function Overflow(d: seq<u8>): nat {
    if |Framed(d)| <= LINK_MTU then 0 else |Framed(d)| - LINK_MTU
  }

  lemma CutFrame(c: Crcs, src: u8, dst: u8, seqNo: u8, msg: seq<u8>, n: nat)
    requires |msg| <= MAX_MSG_LEN && n <= SliceCount(|msg|) && SLICE_DATA_LEN * n <= |msg|
    ensures |Framed(DataBytes(c, src, dst, seqNo, msg[..SLICE_DATA_LEN * n]))|
         <= 38 + |Escape(SlicesBytes(Slices(c, msg)[..n]))|
  {
    hide DataBytes, Slices, Escape, SlicesBytes;
    SlicesOfPrefix(c, msg, n);
    FrameOfSlices(c, src, dst, seqNo, msg[..SLICE_DATA_LEN * n]);
  }

  /** Each slice takes at least its own length. */
  lemma OneSliceLess(slices: seq<Slice>)
    requires slices != []
    ensures |Escape(SlicesBytes(slices[..|slices| - 1]))| + SLICE_LEN <= |Escape(SlicesBytes(slices))|
  {
    var n := |slices| - 1;
    assert slices == slices[..n] + [slices[n]];
    SlicesBytesAppend(slices[..n], [slices[n]]);
    EscapeAppend(SlicesBytes(slices[..n]), SlicesBytes([slices[n]]));
    FrameLength(SlicesBytes([slices[n]]));
  }

  /** The second attempt can only fail because the new headers have more to escape than the old ones, and then it cuts a
      single slice. There is no third failure. */
  lemma SecondAttempt(c: Crcs, src: u8, dst: u8, seqNo: u8, msg: seq<u8>, n: nat)
    requires |msg| <= MAX_MSG_LEN && !Fits(c, src, dst, seqNo, msg)
    requires n == SliceCount(|msg|) - CutSlices(DataBytes(c, src, dst, seqNo, msg)) && SLICE_DATA_LEN * n < |msg|
    ensures Shrunk(c, src, dst, seqNo, msg[..SLICE_DATA_LEN * n])
         == SLICE_DATA_LEN * if Fits(c, src, dst, seqNo, msg[..SLICE_DATA_LEN * n]) then n else n - 1
  {
    hide DataBytes, Slices, Escape, SlicesBytes, CutSlices, Framed;
    var cut := msg[..SLICE_DATA_LEN * n];
    LeftFits(c, src, dst, seqNo, msg, n);
    CutFrame(c, src, dst, seqNo, msg, n);
    if !Fits(c, src, dst, seqNo, cut) {
      var k := CutOnce(c, src, dst, seqNo, cut);
      assert k == n - 1;
      OneSliceLess(Slices(c, msg)[..n]);
      assert Slices(c, msg)[..n][..k] == Slices(c, msg)[..k];
      CutFrame(c, src, dst, seqNo, msg, k);
      assert cut[..SLICE_DATA_LEN * k] == msg[..SLICE_DATA_LEN * k];
      NothingToCut(c, src, dst, seqNo, msg[..SLICE_DATA_LEN * k]);
    } else {
      NothingToCut(c, src, dst, seqNo, cut);
    }
  }

  /** What upper_send accepts of a message of at most 864 bytes: all of it if its complete frame fits the link. If that
      is e bytes too long, e / 32 + 1 slices are cut at most, or one more if the headers of the shorter frame have more
      to escape. At least 11 slices are left, and their complete frame fits. */
  lemma ShrunkAccepts(c: Crcs, src: u8, dst: u8, seqNo: u8, msg: seq<u8>)
    requires 0 < |msg| <= MAX_MSG_LEN
    ensures var r, e := Shrunk(c, src, dst, seqNo, msg), Overflow(DataBytes(c, src, dst, seqNo, msg));
            && 0 < r <= |msg| && Fits(c, src, dst, seqNo, msg[..r])
            && (r < |msg| ==> r >= 352 && r % SLICE_DATA_LEN == 0)
            && (r == |msg| <==> e == 0)
            && r >= SLICE_DATA_LEN * (SliceCount(|msg|) - e / SLICE_DATA_LEN - 2)
  {
    hide Fits, DataBytes, CutSlices;
    assert msg[..|msg|] == msg;
    FitsIff(c, src, dst, seqNo, msg);
    if Fits(c, src, dst, seqNo, msg) {
      NothingToCut(c, src, dst, seqNo, msg);
    } else {
      var n := CutOnce(c, src, dst, seqNo, msg);
      SecondAttempt(c, src, dst, seqNo, msg, n);
      ShrunkFits(c, src, dst, seqNo, msg);
    }
  }

  lemma FitsIff(c: Crcs, src: u8, dst: u8, seqNo: u8, msg: seq<u8>)
    requires |msg| <= MAX_MSG_LEN
    ensures Fits(c, src, dst, seqNo, msg) <==> Overflow(DataBytes(c, src, dst, seqNo, msg)) == 0
  {
  }

  lemma {:induction false} ShrunkFits(c: Crcs, src: u8, dst: u8, seqNo: u8, msg: seq<u8>)
    requires 0 < |msg| <= MAX_MSG_LEN
    ensures var r := Shrunk(c, src, dst, seqNo, msg);
            && 0 < r <= |msg| && Fits(c, src, dst, seqNo, msg[..r])
            && (r < |msg| ==> r >= 352 && r % SLICE_DATA_LEN == 0)
            && (r == |msg| <==> Fits(c, src, dst, seqNo, msg))
    decreases |msg|
  {
    hide Fits, DataBytes, CutSlices;
    assert msg[..|msg|] == msg;
    if !Fits(c, src, dst, seqNo, msg) {
      var n := CutOnce(c, src, dst, seqNo, msg);
      var cut := msg[..SLICE_DATA_LEN * n];
      ShrunkFits(c, src, dst, seqNo, cut);
      assert cut[..Shrunk(c, src, dst, seqNo, cut)] == msg[..Shrunk(c, src, dst, seqNo, cut)];
    }
  }

  /** The whole of what upper_send keeps of a message. */
  function Accepted(c: Crcs, src: u8, dst: u8, seqNo: u8, msg: seq<u8>): nat {
    Shrunk(c, src, dst, seqNo, if |msg| <= MAX_MSG_LEN then msg else msg[..MAX_MSG_LEN])
  }

  lemma AcceptedBounds(c: Crcs, src: u8, dst: u8, seqNo: u8, msg: seq<u8>)
    requires msg != []
    ensures var r := Accepted(c, src, dst, seqNo, msg);
            && 0 < r <= |msg| && r <= MAX_MSG_LEN && Fits(c, src, dst, seqNo, msg[..r])
            && (r < |msg| ==> r >= 352 && r % SLICE_DATA_LEN == 0)
            && (r == |msg| <==> |msg| <= MAX_MSG_LEN && Fits(c, src, dst, seqNo, msg))
    ensures var m := if |msg| <= MAX_MSG_LEN then msg else msg[..MAX_MSG_LEN];
            var e := Overflow(DataBytes(c, src, dst, seqNo, m));
            Accepted(c, src, dst, seqNo, msg) >= SLICE_DATA_LEN * (SliceCount(|m|) - e / SLICE_DATA_LEN - 2)
  {
    hide Fits, Shrunk, DataBytes, Overflow;
    var m := if |msg| <= MAX_MSG_LEN then msg else msg[..MAX_MSG_LEN];
    FitsIff(c, src, dst, seqNo, m);
    ShrunkAccepts(c, src, dst, seqNo, m);
    var r := Shrunk(c, src, dst, seqNo, m);
    assert m[..r] == msg[..r] && msg[..|msg|] == msg;
  }

  method Fill(buf: array<u8>, bytes: seq<u8>)
    requires |bytes| <= buf.Length
    modifies buf
    ensures buf[..|bytes|] == bytes
  {
    forall i | 0 <= i < |bytes| {
      buf[i] := bytes[i];
    }
  }

  /** The same step, seen from the message upper_send was called with. */
  lemma CutPrefix(c: Crcs, src: u8, dst: u8, seqNo: u8, msg: seq<u8>, msglen: nat) returns (n: nat)
    requires msglen <= |msg| && msglen <= MAX_MSG_LEN && !Fits(c, src, dst, seqNo, msg[..msglen])
    ensures n == SliceCount(msglen) - CutSlices(DataBytes(c, src, dst, seqNo, msg[..msglen]))
    ensures 11 <= n < SliceCount(msglen) && SLICE_DATA_LEN * n < msglen && SliceCount(SLICE_DATA_LEN * n) == n
    ensures Slices(c, msg[..msglen])[..n] == Slices(c, msg[..SLICE_DATA_LEN * n])
    ensures Shrunk(c, src, dst, seqNo, msg[..msglen]) == Shrunk(c, src, dst, seqNo, msg[..SLICE_DATA_LEN * n])
  {
    var m := msg[..msglen];
    n := CutOnce(c, src, dst, seqNo, m);
    SlicesOfPrefix(c, m, n);
    assert m[..SLICE_DATA_LEN * n] == msg[..SLICE_DATA_LEN * n];
  }

  lemma NothingToCut(c: Crcs, src: u8, dst: u8, seqNo: u8, msg: seq<u8>)
    requires |msg| <= MAX_MSG_LEN && Fits(c, src, dst, seqNo, msg)
    ensures Shrunk(c, src, dst, seqNo, msg) == |msg|
  {
  }

  /** fill_slices leaves room for 27 slices, so the loop starts from the whole message or its first 864 bytes. */
  lemma FirstAttempt(c: Crcs, src: u8, dst: u8, seqNo: u8, msg: seq<u8>, msglen: nat)
    requires msglen == if |msg| <= MAX_MSG_LEN then |msg| else MAX_MSG_LEN
    ensures Accepted(c, src, dst, seqNo, msg) == Shrunk(c, src, dst, seqNo, msg[..msglen])
  {
    assert msg[..|msg|] == msg;
  }

  /** Escapes `bytes` for the link; fails if the frame exceeds the MTU and then says how much fitted. */
  method Escaped(bytes: seq<u8>, len: nat) returns (result: int, consumed: nat, escaped: seq<u8>)
    requires len <= |bytes| <= LINK_MTU
    ensures |Framed(bytes[..len])| <= LINK_MTU ==> result == |Framed(bytes[..len])| && escaped == Framed(bytes[..len])
    ensures |Framed(bytes[..len])| > LINK_MTU ==> result == -1 && consumed == FitCount(bytes[..len], LINK_MTU - 1)
  {
    var frm, esc := new u8[LINK_MTU], new u8[LINK_MTU];
    Fill(frm, bytes);
    assert frm[..len] == bytes[..len];
    result, consumed := EnFrame(frm, len, esc, LINK_MTU);
    escaped := [];
    if result >= 0 {
      escaped := esc[..result];
    } else {
      LongestFitIsFitCount(bytes[..len], LINK_MTU, consumed);
    }
  }

  /** The body of upper_send between allocating the sequence number and queueing the packet. It returns the
      slices kept, the accepted length and the escaped header frame that is sent first. */
  method BuildPacket(c: Crcs, src: u8, dst: u8, seqNo: u8, msg: seq<u8>)
    returns (ok: bool, slices: seq<Slice>, msglen: nat, escaped: seq<u8>)
    requires msg != []
    ensures ok && msglen == Accepted(c, src, dst, seqNo, msg) && msglen <= |msg| && msglen <= MAX_MSG_LEN
    ensures slices == Slices(c, msg[..msglen])
    ensures escaped == Framed(HeaderBytes(c, src, dst, seqNo, msg[..msglen]))
  {
    hide Slices, Shrunk, Accepted, Escape, SlicesBytes, FrmHdr, MsgHdr;
    slices, msglen := FillSlices(c, LINK_DATA_MAX, msg);
    FirstAttempt(c, src, dst, seqNo, msg, msglen);
    var n := |slices|;
    var escLen := 0;
    while escLen <= 0
      invariant escLen == 0 && n == |slices| == SliceCount(msglen)
      invariant 0 < msglen <= |msg| && msglen <= MAX_MSG_LEN
      invariant slices == Slices(c, msg[..msglen])
      invariant Shrunk(c, src, dst, seqNo, msg[..msglen]) == Accepted(c, src, dst, seqNo, msg)
      decreases n
    {
      var bytes := FrmHdr(c, src, dst, FRAME_TYPE_DATA, 0, SLICE_LEN * n + FRM_MSG_HDR_LEN)
      + MsgHdr(c, c.c32(msg[..msglen]), msglen, seqNo, []) + SlicesBytes(slices);
      assert bytes == DataBytes(c, src, dst, seqNo, msg[..msglen]);
      assert bytes[..|bytes|] == bytes;
      var result, len;
      result, len, escaped := Escaped(bytes, |bytes|);
      if result > 0 {
        HeaderFits(bytes);
        NothingToCut(c, src, dst, seqNo, msg[..msglen]);
        result, len, escaped := Escaped(bytes, FRM_MSG_HDR_LEN);
        return true, slices, msglen, escaped;
      }
      ghost var n' := CutPrefix(c, src, dst, seqNo, msg, msglen);
      var cut := (|bytes| - len + SLICE_DATA_LEN) / SLICE_DATA_LEN;
      n := n - cut;
      if n <= 0 {
        return false, slices, msglen, [];
      }
      msglen := SLICE_DATA_LEN * n;
      slices := slices[..n];
    }
    assert false;
  }

  lemma HeaderFits(bytes: seq<u8>)
    requires |bytes| >= FRM_MSG_HDR_LEN
    ensures 0 < |Framed(bytes[..FRM_MSG_HDR_LEN])| <= LINK_MTU
  {
    FrameLength(bytes[..FRM_MSG_HDR_LEN]);
  }
}
