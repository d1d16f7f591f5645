/** Frames as bytes: what the send functions put on the link and what lower_put makes of what arrives. */
module Wire {
  import opened Bytes
  import opened Packets
  import opened Frames
  import opened Framing
  import Slicing

  const NO_CSUM: u32 := 0xffff_ffff

  /** The frames the protocol builds: slices and requests that fit a frame. */
  ghost predicate Buildable(f: Frame) {
    match f
    case Data(_, _, _, len, _, slices) => len <= MAX_MSG_LEN && |slices| <= MAX_SLICE_NUM
    case Patch(_, _, _, slices) => 0 < |slices| <= MAX_SLICE_NUM
    case Ackr(_, _, _) => true
    case Acka(_, _, _) => true
    case Ackp(_, _, _, missing) => 0 < |missing| < 0x100
  }

  /** Both headers of a frame. `reserved` is set by every sender but send_ack_req. */
  function Headers(c: Crcs, f: Frame, typ: u8, reserved: u8, frmLen: u16, dCsum: u32, len: u16, tail: seq<u8>)
    : (r: seq<u8>)
    ensures |r| == FRM_MSG_HDR_LEN
  {
    FrmHdr(c, f.src, f.dst, typ, reserved, frmLen) + MsgHdr(c, dCsum, len, f.seqNo, tail)
  }

  function Encode(c: Crcs, f: Frame, reserved: u8): seq<u8>
    requires Buildable(f)
  {
    match f
    case Data(_, _, _, len, dCsum, slices) =>
      Headers(c, f, FRAME_TYPE_DATA, 0, FrameLen(SliceCount(len)), dCsum, len, []) + SlicesBytes(slices)
    case Patch(_, _, _, slices) =>
      Headers(c, f, FRAME_TYPE_PATCH, 0, FrameLen(|slices|), NO_CSUM, |slices|, []) + SlicesBytes(slices)
    case Ackr(_, _, _) => Headers(c, f, FRAME_TYPE_ACKR, reserved, FRM_MSG_HDR_LEN, NO_CSUM, 0, [])
    case Acka(_, _, _) => Headers(c, f, FRAME_TYPE_ACKA, 0, FRM_MSG_HDR_LEN, NO_CSUM, 0, [])
    case Ackp(_, _, _, missing) =>
      Headers(c, f, FRAME_TYPE_ACKP, 0, FRM_MSG_HDR_LEN + |missing|, NO_CSUM, |missing|, missing) + missing
  }

  // ----- lower_put and the checks at the head of each handler -----

  function ParseSlice(b: seq<u8>, at: nat): Slice
    requires at + SLICE_LEN <= |b|
  {
    Slice(b[at], b[at + 1], b[at + 2..at + 34], FromLe16(b, at + 34))
  }

  function ParseSlices(b: seq<u8>, at: nat, n: nat): (r: seq<Slice>)
    requires at + SLICE_LEN * n <= |b|
    ensures |r| == n
  {
    seq(n, k requires 0 <= k < n => ParseSlice(b, at + SLICE_LEN * k))
  }

  /** The frame header's own checksum; only the low byte of its field is looked at. */
  predicate FrameCsumOk(c: Crcs, b: seq<u8>)
    requires |b| >= 8
  {
    b[6] == c.c8(b[..6] + [0xff, 0])
  }

  /** The message header's checksum, taken over the header and `tail` bytes behind it. */
  predicate MsgCsumOk(c: Crcs, b: seq<u8>, tail: nat)
    requires |b| >= FRM_MSG_HDR_LEN + tail
  {
    b[17] == c.c8(b[8..17] + [0xff] + b[FRM_MSG_HDR_LEN..FRM_MSG_HDR_LEN + tail])
  }

  function Min(a: nat, b: nat): nat {
    if a <= b then a else b
  }

  /** What arrives at a handler, or None when the frame is dropped on the way. */
  function Decode(c: Crcs, b: seq<u8>): Option<Frame>
    requires |b| <= LINK_MTU
  {
    if |b| < FRM_MSG_HDR_LEN || !FrameCsumOk(c, b) then None
    else
      var src, dst, typ, seqNo := b[0], b[1], b[2], b[16];
      var len, room := FromLe16(b, 12), (|b| - FRM_MSG_HDR_LEN) / SLICE_LEN;
      if typ == FRAME_TYPE_DATA then
        if len != FromLe16(b, 14) || !MsgCsumOk(c, b, 0) then None
        else Some(Data(src, dst, seqNo, len, FromLe32(b, 8), ParseSlices(b, FRM_MSG_HDR_LEN, room)))
      else if typ == FRAME_TYPE_ACKR then
        if !MsgCsumOk(c, b, 0) then None else Some(Ackr(src, dst, seqNo))
      else if typ == FRAME_TYPE_PATCH then
        if |b| < FrameLen(1) || !MsgCsumOk(c, b, 0) then None
        else Some(Patch(src, dst, seqNo, ParseSlices(b, FRM_MSG_HDR_LEN, Min(room, len))))
      else if typ == FRAME_TYPE_ACKA then
        if !MsgCsumOk(c, b, 0) then None else Some(Acka(src, dst, seqNo))
      else if typ == FRAME_TYPE_ACKP then
        if |b| <= FRM_MSG_HDR_LEN || len != |b| - FRM_MSG_HDR_LEN || !MsgCsumOk(c, b, len) then None
        else Some(Ackp(src, dst, seqNo, b[FRM_MSG_HDR_LEN..]))
      else None
  }

  /** Everything that a handler acts on is in the bytes: the addresses, the sequence number, the type, in DATA two
      lengths that agree, in a PATCH room for one slice at least and as many slices as it announces and there are, in
      ACKP a list that is not empty and as long as announced. */
  lemma WhatArrives(c: Crcs, b: seq<u8>)
    requires |b| <= LINK_MTU && Decode(c, b).Some?
    ensures |b| >= 18
    ensures var f := Decode(c, b).value;
            && f.src == b[0] && f.dst == b[1] && f.seqNo == b[16]
            && match f
               case Data(_, _, _, len, _, slices) =>
                 b[2] == 1 && len == b[12] as int + 256 * b[13] as int && b[12] == b[14] && b[13] == b[15]
                 && |slices| == (|b| - 18) / 36
               case Acka(_, _, _) => b[2] == 2
               case Ackr(_, _, _) => b[2] == 3
               case Ackp(_, _, _, missing) =>
                 b[2] == 4 && missing == b[18..] != [] && |missing| == b[12] as int + 256 * b[13] as int
               case Patch(_, _, _, slices) =>
                 b[2] == 5 && |b| >= 54 && |slices| <= b[12] as int + 256 * b[13] as int && 18 + 36 * |slices| <= |b|
                 && (|slices| < b[12] as int + 256 * b[13] as int ==> 18 + 36 * (|slices| + 1) > |b|)
  {
    hide FrameCsumOk, MsgCsumOk, ParseSlices;
  }

  // ----- reading back what was written -----

  /** The header fields of an encoded frame, in whatever follows them. */
  lemma HeaderFields(c: Crcs, f: Frame, typ: u8, reserved: u8, frmLen: u16, dCsum: u32, len: u16, tail: seq<u8>,
                     rest: seq<u8>)
    ensures var b := Headers(c, f, typ, reserved, frmLen, dCsum, len, tail) + rest;
            && b[0] == f.src && b[1] == f.dst && b[2] == typ && b[16] == f.seqNo
            && FrameCsumOk(c, b)
            && FromLe32(b, 8) == dCsum && FromLe16(b, 12) == len == FromLe16(b, 14)
            && (tail <= rest ==> MsgCsumOk(c, b, |tail|))
  {
    var h := Headers(c, f, typ, reserved, frmLen, dCsum, len, tail);
    var b := h + rest;
    FrameHeaderPart(c, f.src, f.dst, typ, reserved, frmLen, b);
    MsgHeaderPart(c, dCsum, len, f.seqNo, tail, b, rest);
  }

  lemma FrameHeaderPart(c: Crcs, src: u8, dst: u8, typ: u8, reserved: u8, frmLen: u16, b: seq<u8>)
    requires FrmHdr(c, src, dst, typ, reserved, frmLen) <= b
    ensures b[0] == src && b[1] == dst && b[2] == typ && FrameCsumOk(c, b)
  {
    var fh := FrmHdr(c, src, dst, typ, reserved, frmLen);
    assert b[..8] == fh;
    var first := [src, dst, typ, reserved] + Le16(frmLen);
    assert fh == first + Le16(c.c8(FrmHdrRaw(src, dst, typ, reserved, frmLen, 0xff)));
    assert fh[..6] == first && b[..6] == b[..8][..6];
    assert b[6] == fh[6] == c.c8(FrmHdrRaw(src, dst, typ, reserved, frmLen, 0xff));
    assert FrmHdrRaw(src, dst, typ, reserved, frmLen, 0xff) == b[..6] + [0xff, 0];
  }

  lemma MsgHeaderPart(c: Crcs, dCsum: u32, len: u16, seqNo: u8, tail: seq<u8>, b: seq<u8>, rest: seq<u8>)
    requires |b| == FRM_MSG_HDR_LEN + |rest| && b[FRM_MSG_HDR_LEN..] == rest
    requires b[FRM_HDR_LEN..FRM_MSG_HDR_LEN] == MsgHdr(c, dCsum, len, seqNo, tail)
    ensures FromLe32(b, 8) == dCsum && FromLe16(b, 12) == len == FromLe16(b, 14) && b[16] == seqNo
    ensures tail <= rest ==> MsgCsumOk(c, b, |tail|)
  {
    var mh := MsgHdr(c, dCsum, len, seqNo, tail);
    var sum := c.c8(MsgHdrRaw(dCsum, len, len, seqNo, 0xff) + tail);
    var l4, l2 := Le32(dCsum), Le16(len);
    assert mh == l4 + l2 + l2 + [seqNo, sum];
    assert mh == [] + l4 + (l2 + l2 + [seqNo, sum]) == l4 + l2 + (l2 + [seqNo, sum]) == (l4 + l2) + l2 + [seqNo, sum];
    Part(b, 8, mh, [], l4, l2 + l2 + [seqNo, sum]);
    Part(b, 8, mh, l4, l2, l2 + [seqNo, sum]);
    Part(b, 8, mh, l4 + l2, l2, [seqNo, sum]);
    Le32At(dCsum, b, 8);
    Le16At(len, b, 12);
    Le16At(len, b, 14);
    assert b[16] == b[FRM_HDR_LEN..FRM_MSG_HDR_LEN][8] == seqNo && b[17] == b[FRM_HDR_LEN..FRM_MSG_HDR_LEN][9] == sum;
    if tail <= rest {
      var first := l4 + l2 + l2 + [seqNo];
      assert mh == [] + first + [sum];
      Part(b, 8, mh, [], first, [sum]);
      assert b[8..17] + [0xff] == MsgHdrRaw(dCsum, len, len, seqNo, 0xff);
      assert b[FRM_MSG_HDR_LEN..FRM_MSG_HDR_LEN + |tail|] == tail;
    }
  }

  /** A field `x` between `pre` and `post` in the part of `b` that starts at `at`. */
  lemma Part(b: seq<u8>, at: nat, whole: seq<u8>, pre: seq<u8>, x: seq<u8>, post: seq<u8>)
    requires whole == pre + x + post && at + |whole| <= |b| && b[at..at + |whole|] == whole
    ensures b[at + |pre|..at + |pre| + |x|] == x
  {
    var y := b[at + |pre|..at + |pre| + |x|];
    forall i | 0 <= i < |x| ensures y[i] == x[i] {
      assert y[i] == b[at..at + |whole|][|pre| + i] == whole[|pre| + i];
    }
  }

  lemma ParseOneSlice(b: seq<u8>, at: nat, sl: Slice)
    requires at + SLICE_LEN <= |b| && b[at..at + SLICE_LEN] == SliceBytes(sl)
    ensures ParseSlice(b, at) == sl
  {
    var s := SliceBytes(sl);
    assert b[at] == s[0] && b[at + 1] == s[1];
    Part(b, at, s, [sl.sep, sl.seqNo], sl.data, Le16(sl.csum));
    assert s == [sl.sep, sl.seqNo] + sl.data + Le16(sl.csum) + [];
    Part(b, at, s, [sl.sep, sl.seqNo] + sl.data, Le16(sl.csum), []);
    Le16At(sl.csum, b, at + 34);
  }

  lemma {:induction false} SliceAt(slices: seq<Slice>, k: nat)
    requires k < |slices|
    ensures SlicesBytes(slices)[SLICE_LEN * k..SLICE_LEN * k + SLICE_LEN] == SliceBytes(slices[k])
  {
    if k > 0 {
      SliceAt(slices[1..], k - 1);
      var rest := SlicesBytes(slices[1..]);
      assert SlicesBytes(slices)[SLICE_LEN * k..SLICE_LEN * k + SLICE_LEN]
          == rest[SLICE_LEN * (k - 1)..SLICE_LEN * (k - 1) + SLICE_LEN];
    }
  }

  lemma SubSub(b: seq<u8>, lo: nat, n: nat, k: nat)
    requires lo + n <= |b| && k + SLICE_LEN <= n
    ensures b[lo..lo + n][k..k + SLICE_LEN] == b[lo + k..lo + k + SLICE_LEN]
  {
    var x, y := b[lo..lo + n][k..k + SLICE_LEN], b[lo + k..lo + k + SLICE_LEN];
    assert |x| == SLICE_LEN == |y|;
    assert forall i :: 0 <= i < SLICE_LEN ==> x[i] == y[i];
  }

  /** Whole slices are read back, however the bytes behind them go on. */
  lemma ParseBack(b: seq<u8>, slices: seq<Slice>, n: nat)
    requires n <= |slices| && FrameLen(n) <= |b|
    requires b[FRM_MSG_HDR_LEN..FrameLen(n)] == SlicesBytes(slices)[..SLICE_LEN * n]
    ensures ParseSlices(b, FRM_MSG_HDR_LEN, n) == slices[..n]
  {
    hide SliceBytes, SlicesBytes, ParseSlice;
    forall k | 0 <= k < n ensures ParseSlice(b, FrameLen(k)) == slices[k] {
      ParseKth(b, slices, n, k);
    }
  }

  lemma ParseKth(b: seq<u8>, slices: seq<Slice>, n: nat, k: nat)
    requires k < n <= |slices| && FrameLen(n) <= |b|
    requires b[FRM_MSG_HDR_LEN..FrameLen(n)] == SlicesBytes(slices)[..SLICE_LEN * n]
    ensures ParseSlice(b, FrameLen(k)) == slices[k]
  {
    SliceAt(slices, k);
    SliceBytesOf(b, SlicesBytes(slices), n, k);
    hide SliceBytes, SlicesBytes, ParseSlice;
    ParseOneSlice(b, FrameLen(k), slices[k]);
  }

  /** The bytes of slice k in the frame and in the body of the frame. */
  lemma SliceBytesOf(b: seq<u8>, body: seq<u8>, n: nat, k: nat)
    requires k < n && FrameLen(n) <= |b| && SLICE_LEN * n <= |body|
    requires b[FRM_MSG_HDR_LEN..FrameLen(n)] == body[..SLICE_LEN * n]
    ensures FrameLen(k) + SLICE_LEN <= |b| && SLICE_LEN * k + SLICE_LEN <= |body|
    ensures b[FrameLen(k)..FrameLen(k) + SLICE_LEN] == body[SLICE_LEN * k..SLICE_LEN * k + SLICE_LEN]
  {
    var lo, hi := SLICE_LEN * k, SLICE_LEN * n;
    assert lo + SLICE_LEN <= hi;
    SubSub(b, FRM_MSG_HDR_LEN, hi, lo);
    SubSub(body, 0, hi, lo);
  }

  lemma EncodedLength(c: Crcs, f: Frame, reserved: u8)
    requires Buildable(f)
    ensures |Encode(c, f, reserved)|
         == if f.Data? || f.Patch? then FrameLen(|f.slices|)
            else FRM_MSG_HDR_LEN + if f.Ackp? then |f.missing| else 0
    ensures |Encode(c, f, reserved)| <= LINK_MTU
  {
  }

  lemma DecodeSlices(c: Crcs, f: Frame, reserved: u8, b: seq<u8>)
    requires Buildable(f) && (f.Data? || f.Patch?)
    requires b == Encode(c, f, reserved)
    ensures |b| <= LINK_MTU && Decode(c, b) == Some(f)
  {
    EncodedLength(c, f, reserved);
    var body := SlicesBytes(f.slices);
    if f.Data? {
      HeaderFields(c, f, FRAME_TYPE_DATA, 0, FrameLen(SliceCount(f.len)), f.dCsum, f.len, [], body);
    } else {
      HeaderFields(c, f, FRAME_TYPE_PATCH, 0, FrameLen(|f.slices|), NO_CSUM, |f.slices|, [], body);
    }
    assert b[FRM_MSG_HDR_LEN..] == body && b[FRM_MSG_HDR_LEN..FrameLen(|f.slices|)] == body[..SLICE_LEN * |f.slices|];
    ParseBack(b, f.slices, |f.slices|);
    assert (|b| - FRM_MSG_HDR_LEN) / SLICE_LEN == |f.slices| && f.slices[..|f.slices|] == f.slices;
  }

  /** Every frame a sender builds arrives at the handler it is meant for, with the fields it was built from. */
  lemma DecodeEncode(c: Crcs, f: Frame, reserved: u8)
    requires Buildable(f)
    ensures |Encode(c, f, reserved)| <= LINK_MTU && Decode(c, Encode(c, f, reserved)) == Some(f)
  {
    EncodedLength(c, f, reserved);
    match f
    case Ackr(_, _, _) => DecodeBare(c, f, FRAME_TYPE_ACKR, reserved);
    case Acka(_, _, _) => DecodeBare(c, f, FRAME_TYPE_ACKA, 0);
    case Ackp(_, _, _, missing) =>
      HeaderFields(c, f, FRAME_TYPE_ACKP, 0, FRM_MSG_HDR_LEN + |missing|, NO_CSUM, |missing|, missing, missing);
      assert Encode(c, f, reserved)[FRM_MSG_HDR_LEN..] == missing;
    case _ => DecodeSlices(c, f, reserved, Encode(c, f, reserved));
  }

  lemma DecodeBare(c: Crcs, f: Frame, typ: u8, reserved: u8)
    requires (f.Ackr? && typ == FRAME_TYPE_ACKR) || (f.Acka? && typ == FRAME_TYPE_ACKA)
    ensures Decode(c, Headers(c, f, typ, reserved, FRM_MSG_HDR_LEN, NO_CSUM, 0, [])) == Some(f)
  {
    var h := Headers(c, f, typ, reserved, FRM_MSG_HDR_LEN, NO_CSUM, 0, []);
    HeaderFields(c, f, typ, reserved, FRM_MSG_HDR_LEN, NO_CSUM, 0, [], []);
    assert h + [] == h;
  }

  /** The header frame upper_send puts on the link is the DATA frame of its packet. */
  lemma HeaderBytesAreData(c: Crcs, src: u8, dst: u8, seqNo: u8, msg: seq<u8>)
    requires |msg| <= MAX_MSG_LEN
    ensures Slicing.HeaderBytes(c, src, dst, seqNo, msg) == Encode(c, DataFrame(MakePacket(c, src, dst, seqNo, msg)), 0)
  {
    var f := DataFrame(MakePacket(c, src, dst, seqNo, msg));
    var h := Headers(c, f, FRAME_TYPE_DATA, 0, FrameLen(SliceCount(|msg|)), c.c32(msg), |msg|, []);
    assert SlicesBytes([]) == [];
    assert h + [] == h;
    assert (h + SlicesBytes(Slices(c, msg)))[..FRM_MSG_HDR_LEN] == h;
  }

  // ----- the link -----

  /** What de_frame and the header checks make of a frame that crossed the link between BREAK-free noise and
      anything at all. */
  function Carried(c: Crcs, raw: seq<u8>): Option<Frame> {
    var d := DeFramed(raw, LINK_MTU).data;
    DeFramedRoom(raw, LINK_MTU);
    Decode(c, d)
  }

  lemma {:induction false} UnescapeRoom(s: seq<u8>, room: nat)
    ensures |Unescape(s, room).data| <= room
    decreases |s|
  {
    if s != [] && s[0] != BREAK && room > 0 && !(s[0] == ESCAPE && |s| == 1) {
      UnescapeRoom(s[if s[0] == ESCAPE then 2 else 1..], room - 1);
    }
  }

  lemma {:induction false} DeFramedRoom(s: seq<u8>, room: nat)
    ensures |DeFramed(s, room).data| <= room
  {
    if s != [] {
      if s[0] == BREAK {
        UnescapeRoom(s[1..], room);
      } else {
        DeFramedRoom(s[1..], room);
      }
    }
  }

  /** A frame that crosses the link unharmed is the frame that was sent. */
  lemma CarriedWhole(c: Crcs, f: Frame, reserved: u8, pre: seq<u8>, post: seq<u8>)
    requires Buildable(f) && BREAK !in pre
    ensures Carried(c, pre + Framed(Encode(c, f, reserved)) + post) == Some(f)
  {
    EncodedLength(c, f, reserved);
    FrameReadBack(pre, Encode(c, f, reserved), post, LINK_MTU);
    DecodeEncode(c, f, reserved);
  }

  /** Acknowledgements, requests and header frames always fit the link. */
  lemma SmallFramesFit(c: Crcs, f: Frame, reserved: u8)
    requires Buildable(f) && (f.Ackr? || f.Acka? || f.Ackp? || (f.Data? && f.slices == []))
    ensures |Framed(Encode(c, f, reserved))| <= LINK_MTU
  {
    EncodedLength(c, f, reserved);
    FrameLength(Encode(c, f, reserved));
  }

  predicate SameHeader(p: Frame, f: Frame) {
    p.src == f.src && p.dst == f.dst && p.seqNo == f.seqNo
  }

  lemma PatchHead(c: Crcs, f: Frame, b: seq<u8>, n: nat)
    requires Buildable(f) && f.Patch? && FrameLen(1) <= |b| <= LINK_MTU
    requires n <= |b| && n <= |Encode(c, f, 0)| && FrameLen(1) <= n && b[..n] == Encode(c, f, 0)[..n]
    ensures Decode(c, b).Some? && Decode(c, b).value.Patch?
    ensures var p := Decode(c, b).value;
            && SameHeader(p, f)
            && |p.slices| == Min((|b| - FRM_MSG_HDR_LEN) / SLICE_LEN, |f.slices|)
            && forall k :: 0 <= k < |p.slices| && FrameLen(k + 1) <= n ==> p.slices[k] == f.slices[k]
  {
    hide Headers, SlicesBytes, ParseSlice;
    EncodedLength(c, f, 0);
    var body := SlicesBytes(f.slices);
    var h := Headers(c, f, FRAME_TYPE_PATCH, 0, FrameLen(|f.slices|), NO_CSUM, |f.slices|, []);
    var whole := (n - FRM_MSG_HDR_LEN) / SLICE_LEN;
    SameStart(b, h, body, n, FrameLen(whole));
    HeaderFields(c, f, FRAME_TYPE_PATCH, 0, FrameLen(|f.slices|), NO_CSUM, |f.slices|, [], b[FRM_MSG_HDR_LEN..]);
    ParseBack(b, f.slices, whole);
    var p := Decode(c, b).value;
    forall k | 0 <= k < |p.slices| && FrameLen(k + 1) <= n ensures p.slices[k] == f.slices[k] {
      assert ParseSlices(b, FRM_MSG_HDR_LEN, whole)[k] == ParseSlice(b, FrameLen(k));
    }
  }

  lemma SameStart(b: seq<u8>, h: seq<u8>, body: seq<u8>, n: nat, hi: nat)
    requires |h| == FRM_MSG_HDR_LEN <= hi <= n <= |b| && n <= |h + body| && b[..n] == (h + body)[..n]
    ensures b == h + b[FRM_MSG_HDR_LEN..] && b[FRM_MSG_HDR_LEN..hi] == body[..hi - FRM_MSG_HDR_LEN]
  {
    assert b[..FRM_MSG_HDR_LEN] == b[..n][..FRM_MSG_HDR_LEN] == h;
    assert b[FRM_MSG_HDR_LEN..hi] == b[..n][FRM_MSG_HDR_LEN..hi];
  }

  /** A PATCH cut short on the link still delivers the slices in front of the cut, or nothing. */
  lemma TruncatedPatch(c: Crcs, f: Frame, pre: seq<u8>, k: nat)
    requires Buildable(f) && f.Patch? && BREAK !in pre && k < |Framed(Encode(c, f, 0))|
    ensures var got := Carried(c, pre + Framed(Encode(c, f, 0))[..k]);
            got.Some? ==> got.value.Patch? && got.value.slices <= f.slices && SameHeader(got.value, f)
    ensures k >= 110 ==> Carried(c, pre + Framed(Encode(c, f, 0))[..k]).Some?
  {
    hide Encode, Decode, Buildable, SameHeader;
    EncodedLength(c, f, 0);
    var e := Encode(c, f, 0);
    TruncatedFrame(pre, e, k, LINK_MTU);
    var d := DeFramed(pre + Framed(e)[..k], LINK_MTU).data;
    DeFramedRoom(pre + Framed(e)[..k], LINK_MTU);
    ShortPatch(c, f, d);
  }

  lemma ShortPatch(c: Crcs, f: Frame, d: seq<u8>)
    requires Buildable(f) && f.Patch? && d <= Encode(c, f, 0) && |d| <= LINK_MTU
    ensures var got := Decode(c, d);
            got.Some? ==> got.value.Patch? && got.value.slices <= f.slices && SameHeader(got.value, f)
    ensures |d| >= FrameLen(1) ==> Decode(c, d).Some?
  {
    EncodedLength(c, f, 0);
    var e := Encode(c, f, 0);
    if |d| >= FrameLen(1) {
      hide Encode, Decode;
      PatchHead(c, f, d, |d|);
      var p := Decode(c, d).value;
      assert p.slices == f.slices[..|p.slices|];
    } else if |d| >= FRM_MSG_HDR_LEN {
      hide ParseSlice;
      var h := Headers(c, f, FRAME_TYPE_PATCH, 0, FrameLen(|f.slices|), NO_CSUM, |f.slices|, []);
      SameStart(d, h, SlicesBytes(f.slices), |d|, FRM_MSG_HDR_LEN);
      HeaderFields(c, f, FRAME_TYPE_PATCH, 0, FrameLen(|f.slices|), NO_CSUM, |f.slices|, [], d[FRM_MSG_HDR_LEN..]);
    }
  }

  /** Every other frame that is cut short on the link arrives as it was sent, because only its closing BREAK is missing,
      or not at all. */
  lemma TruncatedOther(c: Crcs, f: Frame, reserved: u8, pre: seq<u8>, k: nat)
    requires Buildable(f) && !f.Patch? && (f.Data? ==> f.slices == []) && BREAK !in pre
    requires k < |Framed(Encode(c, f, reserved))|
    ensures var got := Carried(c, pre + Framed(Encode(c, f, reserved))[..k]); got.None? || got == Some(f)
  {
    hide Decode, Headers;
    EncodedLength(c, f, reserved);
    var e := Encode(c, f, reserved);
    TruncatedFrame(pre, e, k, LINK_MTU);
    var d := DeFramed(pre + Framed(e)[..k], LINK_MTU).data;
    DeFramedRoom(pre + Framed(e)[..k], LINK_MTU);
    if d == e {
      DecodeEncode(c, f, reserved);
    } else {
      assert |d| < |e|;
      ShortIsNothing(c, f, reserved, d);
    }
  }

  lemma ShortIsNothing(c: Crcs, f: Frame, reserved: u8, d: seq<u8>)
    requires Buildable(f) && !f.Patch? && (f.Data? ==> f.slices == [])
    requires d <= Encode(c, f, reserved) && |d| < |Encode(c, f, reserved)| && |d| <= LINK_MTU
    ensures Decode(c, d) == None
  {
    EncodedLength(c, f, reserved);
    if |d| >= FRM_MSG_HDR_LEN {
      var h := Headers(c, f, FRAME_TYPE_ACKP, 0, FRM_MSG_HDR_LEN + |f.missing|, NO_CSUM, |f.missing|, f.missing);
      assert Encode(c, f, reserved)[..FRM_MSG_HDR_LEN] == h && d == h + d[FRM_MSG_HDR_LEN..];
      HeaderFields(c, f, FRAME_TYPE_ACKP, 0, FRM_MSG_HDR_LEN + |f.missing|, NO_CSUM, |f.missing|, f.missing,
                   d[FRM_MSG_HDR_LEN..]);
    }
  }
}
