/** How long a PATCH for an accepted message can get. */
module PatchSizes {
  import opened Bytes
  import opened Packets
  import opened Frames
  import opened Framing
  import opened Bitmap
  import opened Wire
  import Slicing

  // ----- counting the bytes to escape -----

  function One(b: u8): nat {
    if Special(b) then 1 else 0
  }

  lemma SpecialsStep(s: seq<u8>, i: nat)
    requires i < |s|
    ensures Specials(s[i..]) == One(s[i]) + Specials(s[i + 1..])
  {
    assert s[i..][1..] == s[i + 1..];
  }

  lemma {:induction false} NoSpecials(s: seq<u8>)
    requires forall i :: 0 <= i < |s| ==> !Special(s[i])
    ensures Specials(s) == 0
  {
    if s != [] {
      NoSpecials(s[1..]);
    }
  }

  /** Both headers byte by byte. */
  lemma HeaderSpecials(h: seq<u8>)
    requires |h| == FRM_MSG_HDR_LEN
    ensures Specials(h) == One(h[0]) + One(h[1]) + One(h[2]) + One(h[3]) + One(h[4]) + One(h[5]) + One(h[6]) + One(h[7])
                           + One(h[8]) + One(h[9]) + One(h[10]) + One(h[11]) + One(h[12]) + One(h[13]) + One(h[14])
                           + One(h[15]) + One(h[16]) + One(h[17])
  {
    hide Specials, One;
    assert h[0..] == h;
    SpecialsStep(h, 0);
    SpecialsStep(h, 1);
    SpecialsStep(h, 2);
    SpecialsStep(h, 3);
    SpecialsStep(h, 4);
    SpecialsStep(h, 5);
    SpecialsStep(h, 6);
    SpecialsStep(h, 7);
    SpecialsStep(h, 8);
    SpecialsStep(h, 9);
    SpecialsStep(h, 10);
    SpecialsStep(h, 11);
    SpecialsStep(h, 12);
    SpecialsStep(h, 13);
    SpecialsStep(h, 14);
    SpecialsStep(h, 15);
    SpecialsStep(h, 16);
    SpecialsStep(h, 17);
    assert h[FRM_MSG_HDR_LEN..] == [];
    NoSpecials([]);
  }

  lemma HeaderBytesAt(c: Crcs, f: Frame, typ: u8, frmLen: u16, dCsum: u32, len: u16)
    ensures var h := Headers(c, f, typ, 0, frmLen, dCsum, len, []);
            && h[0] == f.src && h[1] == f.dst && h[2] == typ && h[3] == 0 && h[16] == f.seqNo
            && h[4] == frmLen % 0x100 && h[5] == frmLen / 0x100 && h[7] == 0
            && h[8..12] == Le32(dCsum) && h[12] == h[14] == len % 0x100 && h[13] == h[15] == len / 0x100
    ensures Headers(c, f, typ, 0, frmLen, dCsum, len, [])[6]
         == c.c8(FrmHdrRaw(f.src, f.dst, typ, 0, frmLen, 0xff))
    ensures Headers(c, f, typ, 0, frmLen, dCsum, len, [])[17]
         == c.c8(MsgHdrRaw(dCsum, len, len, f.seqNo, 0xff) + [])
  {
  }

  /** Of a PATCH header nothing but the addresses, the sequence number and the two checksums can need escaping. */
  lemma PatchHeaderSpecials(c: Crcs, f: Frame, n: nat)
    requires n <= MAX_SLICE_NUM
    ensures var h := Headers(c, f, FRAME_TYPE_PATCH, 0, FrameLen(n), NO_CSUM, n, []);
            Specials(h) == One(f.src) + One(f.dst) + One(f.seqNo) + One(h[6]) + One(h[17])
  {
    var h := Headers(c, f, FRAME_TYPE_PATCH, 0, FrameLen(n), NO_CSUM, n, []);
    HeaderBytesAt(c, f, FRAME_TYPE_PATCH, FrameLen(n), NO_CSUM, n);
    hide Headers, Specials;
    HeaderSpecials(h);
    assert h[8] == h[8..12][0] && h[9] == h[8..12][1] && h[10] == h[8..12][2] && h[11] == h[8..12][3];
    PatchLengths(n);
  }

  /** The length field of a PATCH is 2 modulo 4, and neither BREAK nor ESCAPE is. */
  lemma PatchLengths(n: nat)
    requires n <= MAX_SLICE_NUM
    ensures !Special((FrameLen(n)) % 0x100) && !Special((FrameLen(n)) / 0x100) && !Special(n % 0x100)
  {
  }

  lemma DataHeaderSpecials(c: Crcs, f: Frame, frmLen: u16, dCsum: u32, len: u16)
    ensures Specials(Headers(c, f, FRAME_TYPE_DATA, 0, frmLen, dCsum, len, []))
         >= One(f.src) + One(f.dst) + One(f.seqNo)
  {
    HeaderBytesAt(c, f, FRAME_TYPE_DATA, frmLen, dCsum, len);
    var h := Headers(c, f, FRAME_TYPE_DATA, 0, frmLen, dCsum, len, []);
    hide Headers, Specials;
    HeaderSpecials(h);
  }

  // ----- the slices a receiver asks for -----

  ghost predicate Within(missing: seq<u8>, n: nat) {
    forall i :: 0 <= i < |missing| ==> missing[i] as nat < n
  }

  ghost function Picked(slices: seq<Slice>, missing: seq<u8>): (r: seq<Slice>)
    requires Within(missing, |slices|)
    ensures |r| == |missing|
  {
    seq(|missing|, i requires 0 <= i < |missing| => slices[missing[i]])
  }

  lemma SlicesBytesSnoc(a: seq<Slice>, x: Slice)
    ensures SlicesBytes(a + [x]) == SlicesBytes(a) + SliceBytes(x)
  {
    Slicing.SlicesBytesAppend(a, [x]);
    assert [x][1..] == [];
  }

  /** Each slice is asked for at most once, so those asked for have no more to escape than all. */
  lemma {:induction false} PickedSpecials(slices: seq<Slice>, missing: seq<u8>)
    requires Increasing(missing) && Within(missing, |slices|)
    ensures |missing| <= |slices| && (|missing| == |slices| ==> Picked(slices, missing) == slices)
    ensures Specials(SlicesBytes(Picked(slices, missing))) <= Specials(SlicesBytes(slices))
    decreases |slices|
  {
    hide SliceBytes, SlicesBytes, Specials;
    if slices == [] {
      assert missing == [] && Picked(slices, missing) == slices;
    } else {
      var n := |slices| - 1;
      var rest, last := slices[..n], slices[n];
      assert slices == rest + [last];
      SlicesBytesSnoc(rest, last);
      SpecialsAppend(SlicesBytes(rest), SliceBytes(last));
      if missing != [] && missing[|missing| - 1] as nat == n {
        var less := missing[..|missing| - 1];
        PickedSpecials(rest, less);
        assert Picked(slices, missing) == Picked(rest, less) + [last];
        SlicesBytesSnoc(Picked(rest, less), last);
        SpecialsAppend(SlicesBytes(Picked(rest, less)), SliceBytes(last));
      } else {
        BelowLast(missing, n);
        PickedSpecials(rest, missing);
        assert Picked(slices, missing) == Picked(rest, missing);
      }
    }
  }

  lemma BelowLast(missing: seq<u8>, n: nat)
    requires Increasing(missing) && Within(missing, n + 1) && (missing == [] || missing[|missing| - 1] as nat != n)
    ensures Within(missing, n)
  {
  }

  // ----- the bound -----

  lemma EncodedSpecials(c: Crcs, f: Frame)
    requires Buildable(f) && f.Patch?
    ensures |Framed(Encode(c, f, 0))|
         <= 4 + FrameLen(|f.slices|) + One(f.src) + One(f.dst) + One(f.seqNo) + Specials(SlicesBytes(f.slices))
  {
    hide SlicesBytes, Specials, One, Headers;
    var e, n := Encode(c, f, 0), |f.slices|;
    EncodedLength(c, f, 0);
    FrameLength(e);
    PatchHeaderSpecials(c, f, n);
    SpecialsAppend(Headers(c, f, FRAME_TYPE_PATCH, 0, FrameLen(n), NO_CSUM, n, []), SlicesBytes(f.slices));
    AtMostOne(Headers(c, f, FRAME_TYPE_PATCH, 0, FrameLen(n), NO_CSUM, n, [])[6]);
    AtMostOne(Headers(c, f, FRAME_TYPE_PATCH, 0, FrameLen(n), NO_CSUM, n, [])[17]);
  }

  lemma AtMostOne(b: u8)
    ensures One(b) <= 1
  {
  }

  lemma DataSpecials(c: Crcs, f: Frame, k: u8, m: seq<u8>)
    requires |m| <= MAX_MSG_LEN && f.seqNo == k && Slicing.Fits(c, f.src, f.dst, k, m)
    ensures 2 + FrameLen(SliceCount(|m|)) + One(f.src) + One(f.dst) + One(k) + Specials(SlicesBytes(Slices(c, m)))
         <= LINK_MTU
  {
    hide SlicesBytes, Specials, One, Headers, Slices;
    var n := SliceCount(|m|);
    var h := Headers(c, f, FRAME_TYPE_DATA, 0, FrameLen(n), c.c32(m), |m|, []);
    DataIsHeaders(c, f, m);
    FrameLength(Slicing.DataBytes(c, f.src, f.dst, k, m));
    SpecialsAppend(h, SlicesBytes(Slices(c, m)));
    DataHeaderSpecials(c, f, FrameLen(n), c.c32(m), |m|);
  }

  lemma DataIsHeaders(c: Crcs, f: Frame, m: seq<u8>)
    requires |m| <= MAX_MSG_LEN
    ensures FrameLen(SliceCount(|m|)) < 0x1000
    ensures Slicing.DataBytes(c, f.src, f.dst, f.seqNo, m)
         == Headers(c, f, FRAME_TYPE_DATA, 0, FrameLen(SliceCount(|m|)), c.c32(m), |m|, []) + SlicesBytes(Slices(c, m))
  {
  }

  /** A PATCH for a message that upper_send accepted, sent for any list a receiver can ask for, is at most two bytes too
      long for the link, and not at all unless all slices are asked for. */
  lemma AcceptedPatchLength(c: Crcs, a: u8, b: u8, k: u8, m: seq<u8>, missing: seq<u8>)
    requires |m| <= MAX_MSG_LEN && Slicing.Fits(c, a, b, k, m)
    requires missing != [] && Increasing(missing) && Within(missing, SliceCount(|m|))
    ensures var f := Patch(a, b, k, Picked(Slices(c, m), missing));
            && Buildable(f) && |Framed(Encode(c, f, 0))| <= LINK_MTU + 2
            && (|missing| < SliceCount(|m|) ==> |Framed(Encode(c, f, 0))| <= LINK_MTU)
  {
    hide SlicesBytes, Specials, One, Encode, Slices, Slicing.Fits;
    PickedSpecials(Slices(c, m), missing);
    var f := Patch(a, b, k, Picked(Slices(c, m), missing));
    EncodedSpecials(c, f);
    DataSpecials(c, f, k, m);
  }

  // ----- a PATCH that is too long -----

  /** Checksums that only the headers of a PATCH have to escape. */
  function HotCrcs(): Crcs {
    Crcs(b => if (|b| == 8 && b[2] == FRAME_TYPE_PATCH) || (|b| == 10 && b[0] == 0xff) then BREAK else 0,
         _ => 0, _ => 0)
  }

  /** 864 bytes with eight BREAKs, which is what the link can take. */
  function HotMessage(): (m: seq<u8>)
    ensures |m| == 864
  {
    seq(864, i => if i < 8 then BREAK else 0)
  }

  lemma HotChunk(k: nat)
    requires k < 27
    ensures |Chunk(HotMessage(), k)| == 32
    ensures forall i :: 0 <= i < 32 ==> Chunk(HotMessage(), k)[i] == if k == 0 && i < 8 then BREAK else 0
  {
    assert SliceCount(864) == 27;
  }

  lemma HotSliceBytes(k: nat)
    requires k < 27
    ensures var s := SliceBytes(MakeSlice(HotCrcs(), k, Chunk(HotMessage(), k)));
            forall i :: 0 <= i < SLICE_LEN ==> Special(s[i]) == (k == 0 && 2 <= i < 10)
  {
    hide Chunk, HotMessage;
    HotChunk(k);
    var chunk := Chunk(HotMessage(), k);
    var s := SliceBytes(MakeSlice(HotCrcs(), k, chunk));
    assert s == [SLICE_SEPERATOR, k] + chunk + [0, 0];
    assert forall i :: 2 <= i < 34 ==> s[i] == chunk[i - 2];
  }

  lemma HotSlice(k: nat)
    requires k < 27
    ensures Specials(SliceBytes(MakeSlice(HotCrcs(), k, Chunk(HotMessage(), k)))) == if k == 0 then 8 else 0
  {
    hide Specials, SliceBytes, MakeSlice, Chunk, HotMessage;
    HotSliceBytes(k);
    var s := SliceBytes(MakeSlice(HotCrcs(), k, Chunk(HotMessage(), k)));
    if k == 0 {
      assert s[0..] == s;
      NoSpecials(s[10..]);
      SpecialsStep(s, 0);
      SpecialsStep(s, 1);
      SpecialsStep(s, 2);
      SpecialsStep(s, 3);
      SpecialsStep(s, 4);
      SpecialsStep(s, 5);
      SpecialsStep(s, 6);
      SpecialsStep(s, 7);
      SpecialsStep(s, 8);
      SpecialsStep(s, 9);
    } else {
      NoSpecials(s);
    }
  }

  lemma {:induction false} HotSlices(n: nat)
    requires n <= 27
    ensures |Slices(HotCrcs(), HotMessage())| == 27
    ensures Specials(SlicesBytes(Slices(HotCrcs(), HotMessage())[..n])) == if n == 0 then 0 else 8
  {
    hide SlicesBytes, SliceBytes, MakeSlice, Chunk, HotCrcs, Specials;
    var slices := Slices(HotCrcs(), HotMessage());
    if n == 0 {
      NoBytes();
    } else {
      HotSlices(n - 1);
      HotSlice(n - 1);
      assert slices[..n] == slices[..n - 1] + [slices[n - 1]];
      SlicesBytesSnoc(slices[..n - 1], slices[n - 1]);
      SpecialsAppend(SlicesBytes(slices[..n - 1]), SliceBytes(slices[n - 1]));
    }
  }

  lemma NoBytes()
    ensures SlicesBytes([]) == [] && Specials([]) == 0
  {
  }

  /** The bound is reached: this message is accepted as a whole, and the PATCH that answers the request for all its
      slices is 1002 bytes long. */
  lemma OversizedPatchExists()
    ensures var c, m := HotCrcs(), HotMessage();
            && Slicing.Accepted(c, 0, 0, 0, m) == |m|
            && |Slices(c, m)| == 27 && Buildable(Patch(0, 0, 0, Slices(c, m)))
            && |Framed(Encode(c, Patch(0, 0, 0, Slices(c, m)), 0))| == LINK_MTU + 2
  {
    hide SlicesBytes, Slices, Specials, Headers, HotMessage;
    var c, m := HotCrcs(), HotMessage();
    HotSlices(27);
    var slices := Slices(c, m);
    assert slices[..27] == slices;
    var d, p := DataFrame(MakePacket(c, 0, 0, 0, m)), Patch(0, 0, 0, slices);
    // the DATA frame
    var h := Headers(c, d, FRAME_TYPE_DATA, 0, 990, 0, 864, []);
    DataIsHeaders(c, d, m);
    SpecialsAppend(h, SlicesBytes(slices));
    FrameLength(Slicing.DataBytes(c, 0, 0, 0, m));
    HotHeaders(c, d, p);
    Slicing.AcceptedBounds(c, 0, 0, 0, m);
    assert m[..|m|] == m;
    // the PATCH frame
    SpecialsAppend(Headers(c, p, FRAME_TYPE_PATCH, 0, 990, NO_CSUM, 27, []), SlicesBytes(slices));
    EncodedLength(c, p, 0);
    FrameLength(Encode(c, p, 0));
  }

  lemma HotHeaders(c: Crcs, d: Frame, p: Frame)
    requires c == HotCrcs() && d.src == d.dst == d.seqNo == p.src == p.dst == p.seqNo == 0
    ensures Specials(Headers(c, d, FRAME_TYPE_DATA, 0, 990, 0, 864, [])) == 0
    ensures Specials(Headers(c, p, FRAME_TYPE_PATCH, 0, 990, NO_CSUM, 27, [])) == 2
  {
    HeaderBytesAt(c, d, FRAME_TYPE_DATA, 990, 0, 864);
    HeaderBytesAt(c, p, FRAME_TYPE_PATCH, 990, NO_CSUM, 27);
    var h := Headers(c, d, FRAME_TYPE_DATA, 0, 990, 0, 864, []);
    var g := Headers(c, p, FRAME_TYPE_PATCH, 0, 990, NO_CSUM, 27, []);
    hide Headers, Specials;
    HeaderSpecials(h);
    PatchHeaderSpecials(c, p, 27);
    assert h[8] == h[8..12][0] && h[9] == h[8..12][1] && h[10] == h[8..12][2] && h[11] == h[8..12][3];
  }
}
