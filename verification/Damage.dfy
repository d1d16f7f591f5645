/** What the checksums are for: a frame or a slice with one damaged byte is refused. */
module Damage {
  import opened Bytes
  import opened Packets
  import opened Frames
  import opened Wire
  import opened ByteWords
  import Crc

  /** b is a with exactly one byte changed, the one at i. */
  ghost predicate ChangedAt(a: seq<u8>, b: seq<u8>, i: nat) {
    |a| == |b| && i < |a| && a[i] != b[i] && forall j :: 0 <= j < |a| && j != i ==> a[j] == b[j]
  }

  /** Checksums that notice every single changed byte. */
  ghost predicate Notices(c: Crcs) {
    forall a, b, i :: ChangedAt(a, b, i) ==> c.c8(a) != c.c8(b) && c.c16(a) != c.c16(b)
  }

  // ----- the checksums of the program -----

  /** csum8 */
  function Csum8(s: seq<u8>): u8 {
    Value(Crc.Low(Crc.Crc(Crc.Crc8, 0xff, Words(s))))
  }

  function Half(crc: bv32): u16 {
    Joined(Crc.Low(crc), Crc.Low(crc >> 8))
  }

  /** csum16 */
  function Csum16(s: seq<u8>): u16 {
    Half(Crc.Crc(Crc.Crc16, 0xffff, Words(s)))
  }

  /** csum32 */
  function Csum32(s: seq<u8>): u32 {
    var crc := !Crc.Crc(Crc.Crc32c, 0xffff_ffff, Words(s));
    Half(crc) + 0x1_0000 * Half(crc >> 16)
  }

  function ProgramCrcs(): Crcs {
    Crcs(Csum8, Csum16, Csum32)
  }

  lemma SameRegister8(c: bv32, d: bv32)
    requires Crc.Fits(Crc.Crc8, c) && Crc.Fits(Crc.Crc8, d) && Crc.Low(c) == Crc.Low(d)
    ensures c == d
  {
  }

  lemma SameRegister16(c: bv32, d: bv32)
    requires Crc.Fits(Crc.Crc16, c) && Crc.Fits(Crc.Crc16, d)
    requires Crc.Low(c) == Crc.Low(d) && Crc.Low(c >> 8) == Crc.Low(d >> 8)
    ensures c == d
  {
  }

  lemma OneWordNoticed(k: Crc.Code, crc: bv32, a: seq<u8>, b: seq<u8>, i: nat)
    requires Crc.Fits(k, crc) && ChangedAt(a, b, i)
    ensures Crc.Crc(k, crc, Words(a)) != Crc.Crc(k, crc, Words(b))
  {
    hide Word, Words, Crc.Fits, Crc.Crc;
    assert a[..i] == b[..i] && a[i + 1..] == b[i + 1..];
    WordsAround(a, i);
    WordsAround(b, i);
    WordsDiffer(a[i], b[i]);
    Crc.OneByteDetected(k, crc, Words(a[..i]), Word(a[i]), Word(b[i]), Words(a[i + 1..]));
  }

  lemma RegistersDiffer(k: Crc.Code, crc: bv32, a: seq<u8>, b: seq<u8>, i: nat)
    requires Crc.Fits(k, crc) && ChangedAt(a, b, i)
    ensures var c, d := Crc.Crc(k, crc, Words(a)), Crc.Crc(k, crc, Words(b));
            c != d && Crc.Fits(k, c) && Crc.Fits(k, d)
  {
    hide Words, Crc.Crc, Crc.Fits, ChangedAt;
    OneWordNoticed(k, crc, a, b, i);
    Crc.CrcFits(k, crc, Words(a));
    Crc.CrcFits(k, crc, Words(b));
  }

  lemma Narrow8(c: bv32, d: bv32)
    requires c != d && Crc.Fits(Crc.Crc8, c) && Crc.Fits(Crc.Crc8, d)
    ensures Value(Crc.Low(c)) != Value(Crc.Low(d))
  {
    hide Crc.Low, Crc.Fits, Value;
    if Value(Crc.Low(c)) == Value(Crc.Low(d)) {
      SameValue(Crc.Low(c), Crc.Low(d));
      SameRegister8(c, d);
    }
  }

  lemma Narrow16(c: bv32, d: bv32)
    requires c != d && Crc.Fits(Crc.Crc16, c) && Crc.Fits(Crc.Crc16, d)
    ensures Half(c) != Half(d)
  {
    hide Crc.Low, Crc.Fits, Joined;
    if Half(c) == Half(d) {
      JoinedDiffer(Crc.Low(c), Crc.Low(c >> 8), Crc.Low(d), Crc.Low(d >> 8));
      SameRegister16(c, d);
    }
  }

  lemma Noticed8(a: seq<u8>, b: seq<u8>, i: nat)
    requires ChangedAt(a, b, i)
    ensures Csum8(a) != Csum8(b)
  {
    StartFits();
    hide Words, Value, Crc.Crc, Crc.Fits, Crc.Low, ChangedAt;
    RegistersDiffer(Crc.Crc8, 0xff, a, b, i);
    Narrow8(Crc.Crc(Crc.Crc8, 0xff, Words(a)), Crc.Crc(Crc.Crc8, 0xff, Words(b)));
  }

  lemma Noticed16(a: seq<u8>, b: seq<u8>, i: nat)
    requires ChangedAt(a, b, i)
    ensures Csum16(a) != Csum16(b)
  {
    StartFits();
    hide Words, Half, Crc.Crc, Crc.Fits, Crc.Low, ChangedAt;
    RegistersDiffer(Crc.Crc16, 0xffff, a, b, i);
    Narrow16(Crc.Crc(Crc.Crc16, 0xffff, Words(a)), Crc.Crc(Crc.Crc16, 0xffff, Words(b)));
  }

  lemma StartFits()
    ensures Crc.Fits(Crc.Crc8, 0xff) && Crc.Fits(Crc.Crc16, 0xffff)
  {
  }

  /** The CRCs of the program notice every single changed byte. */
  lemma ProgramNotices()
    ensures Notices(ProgramCrcs())
  {
    hide Csum8, Csum16, Csum32, ChangedAt;
    forall a, b, i | ChangedAt(a, b, i)
      ensures Csum8(a) != Csum8(b) && Csum16(a) != Csum16(b)
    {
      Noticed8(a, b, i);
      Noticed16(a, b, i);
    }
  }

  // ----- frames -----

  lemma FrameSumNotices(c: Crcs, e: seq<u8>, d: seq<u8>, i: nat)
    requires Notices(c) && ChangedAt(e, d, i) && |e| >= FRM_MSG_HDR_LEN && i < 7 && FrameCsumOk(c, e)
    ensures !FrameCsumOk(c, d)
  {
    var x, y := e[..6] + [0xff, 0], d[..6] + [0xff, 0];
    if i < 6 {
      assert ChangedAt(x, y, i);
    } else {
      assert x == y;
    }
  }

  lemma MsgSumNotices(c: Crcs, e: seq<u8>, d: seq<u8>, i: nat, tail: nat)
    requires Notices(c) && ChangedAt(e, d, i) && FRM_HDR_LEN <= i < FRM_MSG_HDR_LEN + tail <= |e|
    requires MsgCsumOk(c, e, tail)
    ensures !MsgCsumOk(c, d, tail)
  {
    var x := e[8..17] + [0xff] + e[FRM_MSG_HDR_LEN..FRM_MSG_HDR_LEN + tail];
    var y := d[8..17] + [0xff] + d[FRM_MSG_HDR_LEN..FRM_MSG_HDR_LEN + tail];
    if i != 17 {
      assert ChangedAt(x, y, i - 8);
    } else {
      assert x == y;
    }
  }

  /** Of a frame that would be accepted, one changed byte in its two headers, or in the list of a request for slices, is
      always noticed. The one byte nobody looks at is the upper half of the frame header's checksum field. */
  lemma DamagedFrame(c: Crcs, e: seq<u8>, d: seq<u8>, i: nat)
    requires Notices(c) && |e| <= LINK_MTU && Decode(c, e).Some? && ChangedAt(e, d, i) && i != 7
    requires i < FRM_MSG_HDR_LEN || Decode(c, e).value.Ackp?
    ensures Decode(c, d) == None
  {
    hide FrameCsumOk, MsgCsumOk, ParseSlices, Notices;
    if i < 7 {
      FrameSumNotices(c, e, d, i);
    } else {
      var len := FromLe16(e, 12);
      if e[2] == FRAME_TYPE_ACKP {
        MsgSumNotices(c, e, d, i, len);
      } else {
        MsgSumNotices(c, e, d, i, 0);
      }
    }
  }

  lemma IgnoredByte(c: Crcs, e: seq<u8>, d: seq<u8>)
    requires FRM_MSG_HDR_LEN <= |e| <= LINK_MTU && ChangedAt(e, d, 7)
    ensures Decode(c, d) == Decode(c, e)
  {
    assert d[..6] == e[..6] && d[FRM_MSG_HDR_LEN..] == e[FRM_MSG_HDR_LEN..];
    forall tail: nat | FRM_MSG_HDR_LEN + tail <= |e| ensures MsgCsumOk(c, d, tail) == MsgCsumOk(c, e, tail) {
      SameTail(c, e, d, tail);
    }
    forall n: nat | FRM_MSG_HDR_LEN + SLICE_LEN * n <= |e|
      ensures ParseSlices(d, FRM_MSG_HDR_LEN, n) == ParseSlices(e, FRM_MSG_HDR_LEN, n)
    {
      SameSlices(e, d, n);
    }
    hide MsgCsumOk, ParseSlices;
  }

  lemma SameTail(c: Crcs, e: seq<u8>, d: seq<u8>, tail: nat)
    requires FRM_MSG_HDR_LEN + tail <= |e| && ChangedAt(e, d, 7)
    ensures MsgCsumOk(c, d, tail) == MsgCsumOk(c, e, tail)
  {
    assert d[8..17] == e[8..17];
    assert d[FRM_MSG_HDR_LEN..FRM_MSG_HDR_LEN + tail] == e[FRM_MSG_HDR_LEN..FRM_MSG_HDR_LEN + tail];
  }

  lemma SameSlices(e: seq<u8>, d: seq<u8>, n: nat)
    requires FRM_MSG_HDR_LEN + SLICE_LEN * n <= |e| && ChangedAt(e, d, 7)
    ensures ParseSlices(d, FRM_MSG_HDR_LEN, n) == ParseSlices(e, FRM_MSG_HDR_LEN, n)
  {
    forall k | 0 <= k < n
      ensures ParseSlice(d, FRM_MSG_HDR_LEN + SLICE_LEN * k) == ParseSlice(e, FRM_MSG_HDR_LEN + SLICE_LEN * k)
    {
      var at := FRM_MSG_HDR_LEN + SLICE_LEN * k;
      assert d[at + 2..at + 34] == e[at + 2..at + 34];
    }
  }

  // ----- slices -----

  /** A slice that differs from an intact one in a single byte is not intact. */
  lemma DamagedSlice(c: Crcs, x: Slice, y: Slice, i: nat)
    requires Notices(c) && Intact(c, x) && ChangedAt(SliceBytes(x), SliceBytes(y), i)
    ensures !Intact(c, y)
  {
    var a, b := SliceBytes(x), SliceBytes(y);
    var u, v := SliceBytes(x.(csum := 0xffff)), SliceBytes(y.(csum := 0xffff));
    assert forall j :: 0 <= j < 34 ==> u[j] == a[j] && v[j] == b[j];
    assert u[34] == v[34] == 0xff == u[35] == v[35];
    if i < 34 {
      assert ChangedAt(u, v, i);
      assert a[34] == b[34] && a[35] == b[35];
      assert x.csum == y.csum;
    } else {
      assert u == v;
    }
  }

  lemma BytesOfParsed(b: seq<u8>, at: nat)
    requires at + SLICE_LEN <= |b|
    ensures SliceBytes(ParseSlice(b, at)) == b[at..at + SLICE_LEN]
  {
    var x := FromLe16(b, at + 34);
    assert Le16(x) == b[at + 34..at + SLICE_LEN];
    assert b[at..at + SLICE_LEN] == [b[at], b[at + 1]] + b[at + 2..at + 34] + b[at + 34..at + SLICE_LEN];
  }

  /** Slice j of a frame with one changed byte. */
  lemma ChangedSlice(c: Crcs, e: seq<u8>, d: seq<u8>, i: nat, j: nat)
    requires Notices(c) && ChangedAt(e, d, i) && FrameLen(j + 1) <= |e| && Intact(c, ParseSlice(e, FrameLen(j)))
    ensures var x := ParseSlice(d, FrameLen(j));
            if FrameLen(j) <= i < FrameLen(j + 1) then !Intact(c, x) else x == ParseSlice(e, FrameLen(j))
  {
    var at := FrameLen(j);
    BytesOfParsed(e, at);
    BytesOfParsed(d, at);
    if at <= i < at + SLICE_LEN {
      assert ChangedAt(e[at..at + SLICE_LEN], d[at..at + SLICE_LEN], i - at);
      DamagedSlice(c, ParseSlice(e, at), ParseSlice(d, at), i - at);
    } else {
      assert d[at + 2..at + 34] == e[at + 2..at + 34];
    }
  }

  /** Two frames with the same headers and the same length are read alike. */
  lemma PatchRead(c: Crcs, e: seq<u8>, d: seq<u8>)
    requires FRM_MSG_HDR_LEN <= |e| == |d| <= LINK_MTU && Decode(c, e).Some? && Decode(c, e).value.Patch?
    requires forall j :: 0 <= j < FRM_MSG_HDR_LEN ==> d[j] == e[j]
    requires FrameCsumOk(c, d) == FrameCsumOk(c, e) && MsgCsumOk(c, d, 0) == MsgCsumOk(c, e, 0)
    ensures var f, got := Decode(c, e).value, Decode(c, d);
            && got.Some? && got.value.Patch? && SameHeader(got.value, f) && |got.value.slices| == |f.slices|
            && FrameLen(|f.slices|) <= |e|
            && f.slices == ParseSlices(e, FRM_MSG_HDR_LEN, |f.slices|)
            && got.value.slices == ParseSlices(d, FRM_MSG_HDR_LEN, |f.slices|)
  {
    hide FrameCsumOk, MsgCsumOk, ParseSlices;
  }

  lemma ParsedAt(b: seq<u8>, n: nat, j: nat)
    requires j < n && FrameLen(n) <= |b|
    ensures FrameLen(j + 1) <= |b| && ParseSlices(b, FRM_MSG_HDR_LEN, n)[j] == ParseSlice(b, FrameLen(j))
  {
  }

  /** What arrives of slice j: the slice itself, unless byte i of the frame is in it. */
  ghost predicate Survives(c: Crcs, got: seq<Slice>, slices: seq<Slice>, i: nat, j: nat)
    requires j < |got| && j < |slices|
  {
    if FrameLen(j) <= i < FrameLen(j + 1) then !Intact(c, got[j]) else got[j] == slices[j]
  }

  /** A PATCH with one changed byte behind its headers arrives with its other slices as they were; the one with that
      byte is refused. So nothing false gets into a message, and the checksums do for single bytes what faithful runs
      ask for in general. */
  lemma DamagedPatch(c: Crcs, f: Frame, d: seq<u8>, i: nat)
    requires Notices(c) && Buildable(f) && f.Patch? && (forall sl :: sl in f.slices ==> Intact(c, sl))
    requires ChangedAt(Encode(c, f, 0), d, i) && i >= FRM_MSG_HDR_LEN
    ensures |d| <= LINK_MTU && Decode(c, d).Some? && Decode(c, d).value.Patch?
    ensures var got := Decode(c, d).value;
            && SameHeader(got, f) && |got.slices| == |f.slices|
            && forall j :: 0 <= j < |f.slices| ==> Survives(c, got.slices, f.slices, i, j)
    ensures forall sl :: sl in Decode(c, d).value.slices && Intact(c, sl) ==> sl in f.slices
  {
    hide Encode, Intact, FrameCsumOk, MsgCsumOk, ParseSlice, ParseSlices, Notices, Decode;
    var e := Encode(c, f, 0);
    EncodedLength(c, f, 0);
    DecodeEncode(c, f, 0);
    SameHead(c, e, d, i);
    PatchRead(c, e, d);
    hide ChangedAt;
    var got := Decode(c, d).value;
    forall j | 0 <= j < |f.slices|
      ensures Survives(c, got.slices, f.slices, i, j)
    {
      assert f.slices[j] in f.slices;
      ParsedAt(e, |f.slices|, j);
      ParsedAt(d, |f.slices|, j);
      ChangedSlice(c, e, d, i, j);
    }
    OthersIntact(c, got.slices, f.slices, i);
  }

  lemma OthersIntact(c: Crcs, got: seq<Slice>, slices: seq<Slice>, i: nat)
    requires |got| == |slices|
    requires forall j :: 0 <= j < |slices| ==> Survives(c, got, slices, i, j)
    ensures forall sl :: sl in got && Intact(c, sl) ==> sl in slices
  {
    forall sl | sl in got && Intact(c, sl) ensures sl in slices {
      var j: nat :| j < |got| && got[j] == sl;
      assert Survives(c, got, slices, i, j);
    }
  }

  lemma SameHead(c: Crcs, e: seq<u8>, d: seq<u8>, i: nat)
    requires ChangedAt(e, d, i) && i >= FRM_MSG_HDR_LEN
    ensures forall j :: 0 <= j < FRM_MSG_HDR_LEN ==> d[j] == e[j]
    ensures FrameCsumOk(c, d) == FrameCsumOk(c, e) && MsgCsumOk(c, d, 0) == MsgCsumOk(c, e, 0)
  {
    assert d[..6] == e[..6] && d[8..17] == e[8..17];
    assert d[FRM_MSG_HDR_LEN..FRM_MSG_HDR_LEN + 0] == e[FRM_MSG_HDR_LEN..FRM_MSG_HDR_LEN + 0] == [];
  }

  /** With the program's checksums no frame that it builds is mistaken for another because of one changed byte. */
  lemma BuiltFrameRefused(f: Frame, reserved: u8, d: seq<u8>, i: nat)
    requires Buildable(f) && ChangedAt(Encode(ProgramCrcs(), f, reserved), d, i)
    requires i != 7 && (i < FRM_MSG_HDR_LEN || f.Ackp?)
    ensures |d| <= LINK_MTU && Decode(ProgramCrcs(), d) == None
  {
    hide Encode, Decode, Notices, ProgramCrcs;
    ProgramNotices();
    EncodedLength(ProgramCrcs(), f, reserved);
    DecodeEncode(ProgramCrcs(), f, reserved);
    DamagedFrame(ProgramCrcs(), Encode(ProgramCrcs(), f, reserved), d, i);
  }
}
