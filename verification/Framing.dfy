/** The byte-stuffed frame code of split.c: BREAK, escaped data, BREAK. */
module Framing {
  import opened Bytes

  const BREAK: u8 := 0xc0
  const ESCAPE: u8 := 0xdb
  const ESCAPE_BREAK: u8 := 0xdc
  const ESCAPE_ESCAPE: u8 := 0xdb

  predicate Special(b: u8) {
    b == BREAK || b == ESCAPE
  }

  function EscapeByte(b: u8): seq<u8> {
    if b == BREAK then [ESCAPE, ESCAPE_BREAK]
    else if b == ESCAPE then [ESCAPE, ESCAPE_ESCAPE]
    else [b]
  }

  function Escape(data: seq<u8>): seq<u8> {
    if data == [] then [] else EscapeByte(data[0]) + Escape(data[1..])
  }

  function Framed(data: seq<u8>): seq<u8> {
    [BREAK] + Escape(data) + [BREAK]
  }

  function Specials(data: seq<u8>): nat {
    if data == [] then 0 else (if Special(data[0]) then 1 else 0) + Specials(data[1..])
  }

  lemma {:induction false} EscapeAppend(a: seq<u8>, b: seq<u8>)
    ensures Escape(a + b) == Escape(a) + Escape(b)
  {
    if a == [] {
      assert a + b == b;
    } else {
      var head := EscapeByte(a[0]);
      assert (a + b)[1..] == a[1..] + b;
      EscapeAppend(a[1..], b);
      assert head + (Escape(a[1..]) + Escape(b)) == head + Escape(a[1..]) + Escape(b);
    }
  }

  lemma EscapeSnoc(a: seq<u8>, k: nat)
    requires k < |a|
    ensures Escape(a[..k + 1]) == Escape(a[..k]) + EscapeByte(a[k])
  {
    assert a[..k + 1] == a[..k] + [a[k]];
    EscapeAppend(a[..k], [a[k]]);
  }

  lemma {:induction false} SpecialsAppend(a: seq<u8>, b: seq<u8>)
    ensures Specials(a + b) == Specials(a) + Specials(b)
  {
    if a == [] {
      assert a + b == b;
    } else {
      SpecialsAppend(a[1..], b);
      assert (a + b)[1..] == a[1..] + b;
    }
  }

  /** A frame takes two bytes more than its data, plus one for each BREAK or ESCAPE in it. */
  lemma {:induction false} FrameLength(data: seq<u8>)
    ensures |Escape(data)| == |data| + Specials(data)
    ensures |Framed(data)| == 2 + |data| + Specials(data)
    ensures Specials(data) <= |data|
  {
    if data != [] {
      FrameLength(data[1..]);
    }
  }

  /** Longer data never has a shorter escaped form. */
  lemma EscapeMonotone(data: seq<u8>, j: nat, k: nat)
    requires j <= k <= |data|
    ensures |Escape(data[..j])| + (k - j) <= |Escape(data[..k])|
  {
    assert data[..k] == data[..j] + data[j..k];
    EscapeAppend(data[..j], data[j..k]);
    FrameLength(data[j..k]);
  }

  // ----- en_frame -----

  /** The number of data bytes en_frame consumes: the longest prefix that fits behind the start BREAK. */
  ghost predicate LongestFit(data: seq<u8>, size: nat, n: nat) {
    && n <= |data|
    && 1 + |Escape(data[..n])| <= size
    && forall k :: n < k <= |data| ==> size < 1 + |Escape(data[..k])|
  }

  /** `now` is `was` with its first bytes replaced by `w`. */
  ghost predicate Written(now: seq<u8>, w: seq<u8>, was: seq<u8>) {
    |now| == |was| && w <= now && now[|w|..] == was[|w|..]
  }

  /** Stores one byte behind the `p` bytes written so far. */
  method Put(buf: array<u8>, p: nat, b: u8, ghost w: seq<u8>, ghost was: seq<u8>)
    requires p == |w| < buf.Length && Written(buf[..], w, was)
    modifies buf
    ensures Written(buf[..], w + [b], was)
  {
    buf[p] := b;
  }

  /** Stores one byte of the data, escaped if it has to be. */
  method PutEscaped(buf: array<u8>, p: nat, b: u8, ghost w: seq<u8>, ghost was: seq<u8>) returns (next: nat)
    requires p == |w| && p + |EscapeByte(b)| <= buf.Length && Written(buf[..], w, was)
    modifies buf
    ensures next == p + |EscapeByte(b)| && Written(buf[..], w + EscapeByte(b), was)
  {
    if Special(b) {
      Put(buf, p, ESCAPE, w, was);
      Put(buf, p + 1, if b == BREAK then ESCAPE_BREAK else ESCAPE_ESCAPE, w + [ESCAPE], was);
      assert w + EscapeByte(b) == w + [ESCAPE] + [EscapeByte(b)[1]];
      next := p + 2;
    } else {
      Put(buf, p, b, w, was);
      next := p + 1;
    }
  }

  /** Succeeds exactly when the whole frame fits in `size` bytes. On failure it reports how much of the
      data fits; `size == 0` reports nothing. Bytes behind the written part keep their values. */
  method EnFrame(data: array<u8>, dataLen: nat, frm: array<u8>, size: nat) returns (result: int, consumed: nat)
    requires dataLen <= data.Length && size <= frm.Length && data != frm
    modifies frm
    ensures consumed <= dataLen
    ensures result == if |Framed(data[..dataLen])| <= size then |Framed(data[..dataLen])| else -1
    ensures 0 <= result ==> consumed == dataLen && Written(frm[..], Framed(data[..dataLen]), old(frm[..]))
    ensures result < 0 && size == 0 ==> consumed == 0 && frm[..] == old(frm[..])
    ensures result < 0 && size > 0 ==>
              && LongestFit(data[..dataLen], size, consumed)
              && Written(frm[..], [BREAK] + Escape(data[..dataLen][..consumed]), old(frm[..]))
  {
    ghost var d := data[..dataLen];
    assert d[..0] == [] && Escape([]) == [];
    hide Escape, EscapeByte, Special;
    ghost var was := frm[..];
    if size < 1 {
      return -1, 0;
    }
    Put(frm, 0, BREAK, [], was);
    ghost var w := [BREAK];
    var p := 1;
    var ch := 0;
    while ch < dataLen
      invariant 0 <= ch <= dataLen && p == |w| <= size
      invariant w == [BREAK] + Escape(d[..ch])
      invariant Written(frm[..], w, was)
    {
      EscapeSnoc(d, ch);
      var b := data[ch];
      if p + |EscapeByte(b)| > size {
        Stuck(d, ch, size);
        return -1, ch;
      }
      p := PutEscaped(frm, p, b, w, was);
      w := w + EscapeByte(b);
      ch := ch + 1;
    }
    assert d[..ch] == d;
    if p + 1 > size {
      return -1, ch;
    }
    Put(frm, p, BREAK, w, was);
    return p + 1, ch;
  }

  lemma Stuck(d: seq<u8>, ch: nat, size: nat)
    requires ch < |d|
    requires 1 + |Escape(d[..ch])| <= size < 1 + |Escape(d[..ch])| + |EscapeByte(d[ch])|
    ensures LongestFit(d, size, ch)
    ensures size < |Framed(d)|
  {
    EscapeSnoc(d, ch);
    forall k | ch < k <= |d| ensures size < 1 + |Escape(d[..k])| {
      EscapeMonotone(d, ch + 1, k);
    }
    assert d[..|d|] == d;
  }

  // ----- de_frame -----

  datatype Decoded = Decoded(status: int, data: seq<u8>)

  const OK := 0
  const NO_ROOM := -1       // also: no closing BREAK
  const CUT_ESCAPE := -2
  const BAD_ESCAPE := -3

  /** What de_frame reads behind the start BREAK, with room for `room` more bytes. */
  function Unescape(s: seq<u8>, room: nat): Decoded {
    if s == [] then Decoded(NO_ROOM, [])
    else if s[0] == BREAK then Decoded(OK, [])
    else if s[0] == ESCAPE && |s| == 1 then Decoded(CUT_ESCAPE, [])
    else if s[0] == ESCAPE && s[1] != ESCAPE_BREAK && s[1] != ESCAPE_ESCAPE then Decoded(BAD_ESCAPE, [])
    else if room == 0 then Decoded(NO_ROOM, [])
    else if s[0] == ESCAPE then Prepend(if s[1] == ESCAPE_BREAK then BREAK else ESCAPE, Unescape(s[2..], room - 1))
    else Prepend(s[0], Unescape(s[1..], room - 1))
  }

  function Prepend(b: u8, d: Decoded): Decoded {
    d.(data := [b] + d.data)
  }

  function DeFramed(s: seq<u8>, room: nat): Decoded {
    if s == [] then Decoded(NO_ROOM, [])
    else if s[0] == BREAK then Unescape(s[1..], room)
    else DeFramed(s[1..], room)
  }

  lemma UnescapeByte(b: u8, s: seq<u8>, room: nat)
    ensures Unescape(EscapeByte(b) + s, room)
         == if room == 0 then Decoded(NO_ROOM, []) else Prepend(b, Unescape(s, room - 1))
  {
    var e := EscapeByte(b);
    assert (e + s)[|e|..] == s;
    assert (e + s)[0] == e[0] && (Special(b) ==> (e + s)[1] == e[1]);
  }

  /** The bytes `d` followed by whatever `rest` decodes to, as far as the room goes. */
  function ReadBack(d: seq<u8>, rest: seq<u8>, room: nat): Decoded {
    if room < |d| then Decoded(NO_ROOM, d[..room])
    else
      var r := Unescape(rest, room - |d|);
      Decoded(r.status, d + r.data)
  }

  lemma ReadOn(d: seq<u8>, rest: seq<u8>, room: nat)
    requires d != [] && room > 0
    ensures ReadBack(d, rest, room) == Prepend(d[0], ReadBack(d[1..], rest, room - 1))
  {
    if room < |d| {
      assert [d[0]] + d[1..][..room - 1] == d[..room];
    } else {
      var r := Unescape(rest, room - |d|);
      assert [d[0]] + (d[1..] + r.data) == d + r.data;
    }
  }

  /** Escaped data is read back byte for byte, whatever follows it, until the room is used up. */
  lemma {:induction false} UnescapeEscape(d: seq<u8>, rest: seq<u8>, room: nat)
    ensures Unescape(Escape(d) + rest, room) == ReadBack(d, rest, room)
  {
    if d == [] {
      assert Escape(d) + rest == rest;
      assert [] + Unescape(rest, room).data == Unescape(rest, room).data;
    } else {
      var tail := Escape(d[1..]) + rest;
      assert Escape(d) + rest == EscapeByte(d[0]) + tail;
      UnescapeByte(d[0], tail, room);
      if room > 0 {
        UnescapeEscape(d[1..], rest, room - 1);
        ReadOn(d, rest, room);
      }
    }
  }

  lemma {:induction false} SkipNoise(pre: seq<u8>, s: seq<u8>, room: nat)
    requires BREAK !in pre
    ensures DeFramed(pre + s, room) == DeFramed(s, room)
  {
    if pre == [] {
      assert pre + s == s;
    } else {
      SkipNoise(pre[1..], s, room);
      assert (pre + s)[1..] == pre[1..] + s;
    }
  }

  lemma FrameReadBack(pre: seq<u8>, d: seq<u8>, post: seq<u8>, room: nat)
    requires BREAK !in pre
    ensures DeFramed(pre + Framed(d) + post, room)
         == if |d| <= room then Decoded(OK, d) else Decoded(NO_ROOM, d[..room])
  {
    var body := Framed(d) + post;
    assert pre + Framed(d) + post == pre + body;
    SkipNoise(pre, body, room);
    assert body[1..] == Escape(d) + ([BREAK] + post);
    UnescapeEscape(d, [BREAK] + post, room);
    assert d + [] == d;
  }

  /** de_frame inverts en_frame, and accepts nothing else: it succeeds with `d` exactly on
      BREAK-free noise, one frame of `d`, and any tail. */
  lemma DeFramedIff(s: seq<u8>, room: nat, d: seq<u8>)
    ensures DeFramed(s, room) == Decoded(OK, d)
       <==> |d| <= room && exists pre, post :: BREAK !in pre && s == pre + Framed(d) + post
  {
    if DeFramed(s, room) == Decoded(OK, d) {
      DeFramedSound(s, room);
      var pre, post :| BREAK !in pre && s == pre + Framed(d) + post;
    }
    if |d| <= room && exists pre, post :: BREAK !in pre && s == pre + Framed(d) + post {
      var pre, post :| BREAK !in pre && s == pre + Framed(d) + post;
      FrameReadBack(pre, d, post, room);
    }
  }

  lemma {:induction false} UnescapeSound(s: seq<u8>, room: nat)
    requires Unescape(s, room).status == OK
    ensures |Unescape(s, room).data| <= room
    ensures Escape(Unescape(s, room).data) + [BREAK] <= s
  {
    if s[0] != BREAK {
      var n := if s[0] == ESCAPE then 2 else 1;
      UnescapeSound(s[n..], room - 1);
      var t := Unescape(s[n..], room - 1).data;
      var d := Unescape(s, room).data;
      assert d[1..] == t && d[0] == if s[0] == BREAK || (s[0] == ESCAPE && s[1] == ESCAPE_BREAK) then BREAK else s[0];
      PrefixBehind(s, n, EscapeByte(d[0]), Escape(t) + [BREAK]);
      assert EscapeByte(d[0]) + (Escape(t) + [BREAK]) == Escape(d) + [BREAK];
    }
  }

  lemma PrefixBehind(s: seq<u8>, n: nat, a: seq<u8>, b: seq<u8>)
    requires n <= |s| && s[..n] == a && b <= s[n..]
    ensures a + b <= s
  {
    assert s == s[..n] + s[n..];
    assert s[..n + |b|] == s[..n] + s[n..][..|b|];
  }

  lemma AddNoise(s: seq<u8>, pre: seq<u8>, f: seq<u8>, post: seq<u8>)
    requires s != [] && s[0] != BREAK && BREAK !in pre && s[1..] == pre + f + post
    ensures var pre' := [s[0]] + pre; BREAK !in pre' && s == pre' + f + post
  {
    assert s == [s[0]] + s[1..];
  }

  lemma {:induction false} DeFramedSound(s: seq<u8>, room: nat)
    requires DeFramed(s, room).status == OK
    ensures var d := DeFramed(s, room).data;
            |d| <= room && exists pre, post :: BREAK !in pre && s == pre + Framed(d) + post
  {
    var d := DeFramed(s, room).data;
    if s[0] == BREAK {
      UnescapeSound(s[1..], room);
      PrefixBehind(s, 1, [BREAK], Escape(d) + [BREAK]);
      assert [BREAK] + (Escape(d) + [BREAK]) == Framed(d);
      assert s == [] + Framed(d) + s[|Framed(d)|..];
    } else {
      DeFramedSound(s[1..], room);
      var pre, post :| BREAK !in pre && s[1..] == pre + Framed(d) + post;
      AddNoise(s, pre, Framed(d), post);
    }
  }

  lemma {:induction false} UnescapeCut(d: seq<u8>, k: nat, room: nat)
    requires k <= |Escape(d)|
    ensures var r := Unescape(Escape(d)[..k], room); r.status < 0 && r.data <= d
    ensures |d| <= room ==> k <= 2 * |Unescape(Escape(d)[..k], room).data| + 1
  {
    if d != [] && k > 0 {
      var e := EscapeByte(d[0]);
      var s := Escape(d)[..k];
      if |e| <= k {
        var rest := Escape(d[1..])[..k - |e|];
        assert s == e + rest;
        UnescapeByte(d[0], rest, room);
        if room > 0 {
          UnescapeCut(d[1..], k - |e|, room - 1);
          OneFurther(d, Unescape(rest, room - 1));
        }
      } else {
        assert s == [ESCAPE];
      }
    }
  }

  lemma OneFurther(d: seq<u8>, r: Decoded)
    requires d != []
    ensures var t := Prepend(d[0], r);
            t.status == r.status && |t.data| == |r.data| + 1 && (r.data <= d[1..] ==> t.data <= d)
  {
  }

  /** A truncated frame is never accepted, yet what de_frame hands on is a prefix of the data, and at
      least half of what came through. */
  lemma TruncatedFrame(pre: seq<u8>, d: seq<u8>, k: nat, room: nat)
    requires BREAK !in pre && k < |Framed(d)|
    ensures var r := DeFramed(pre + Framed(d)[..k], room); r.status < 0 && r.data <= d
    ensures |d| <= room ==> k <= 2 * |DeFramed(pre + Framed(d)[..k], room).data| + 2
  {
    var body := Framed(d)[..k];
    SkipNoise(pre, body, room);
    if k > 0 {
      assert body[1..] == Escape(d)[..k - 1];
      UnescapeCut(d, k - 1, room);
    }
  }

  lemma DeFramedStep(s: seq<u8>, ch: nat, room: nat)
    requires ch < |s|
    ensures DeFramed(s[ch..], room)
         == if s[ch] == BREAK then Unescape(s[ch + 1..], room) else DeFramed(s[ch + 1..], room)
  {
    assert s[ch..][1..] == s[ch + 1..];
  }

  lemma UnescapeStep(s: seq<u8>, ch: nat, room: nat)
    requires ch < |s|
    ensures s[ch] == BREAK ==> Unescape(s[ch..], room) == Decoded(OK, [])
    ensures s[ch] == ESCAPE && ch + 1 == |s| ==> Unescape(s[ch..], room) == Decoded(CUT_ESCAPE, [])
    ensures s[ch] == ESCAPE && ch + 1 < |s| ==>
              Unescape(s[ch..], room)
              == if s[ch + 1] != ESCAPE_BREAK && s[ch + 1] != ESCAPE_ESCAPE then Decoded(BAD_ESCAPE, [])
                 else if room == 0 then Decoded(NO_ROOM, [])
                 else Prepend(if s[ch + 1] == ESCAPE_BREAK then BREAK else ESCAPE, Unescape(s[ch + 2..], room - 1))
    ensures !Special(s[ch]) ==>
              Unescape(s[ch..], room)
              == if room == 0 then Decoded(NO_ROOM, []) else Prepend(s[ch], Unescape(s[ch + 1..], room - 1))
  {
    assert s[ch..][1..] == s[ch + 1..];
    assert ch + 1 < |s| ==> s[ch..][2..] == s[ch + 2..];
  }

  /** A decoding whose data continues `acc`. */
  ghost function Continue(acc: seq<u8>, d: Decoded): Decoded {
    d.(data := acc + d.data)
  }

  lemma ContinueOne(acc: seq<u8>, b: u8, d: Decoded)
    ensures Continue(acc, Prepend(b, d)) == Continue(acc + [b], d)
  {
    assert acc + ([b] + d.data) == acc + [b] + d.data;
  }

  /** de_frame, in place: returns the status and the number of bytes stored in `buf`. */
  method DeFrame(frm: array<u8>, frmLen: nat, buf: array<u8>, room: nat) returns (status: int, len: nat)
    requires frmLen <= frm.Length && room <= buf.Length && frm != buf
    modifies buf
    ensures status == DeFramed(frm[..frmLen], room).status
    ensures len == |DeFramed(frm[..frmLen], room).data| <= room
    ensures Written(buf[..], DeFramed(frm[..frmLen], room).data, old(buf[..]))
  {
    ghost var s := frm[..frmLen];
    ghost var goal := DeFramed(s, room);
    ghost var was := buf[..];
    ghost var acc: seq<u8> := [];
    status := NO_ROOM;
    var findStartBreak := false;
    var p := 0;
    var ch := 0;
    assert s[ch..] == s;
    while ch < frmLen
      invariant 0 <= ch <= frmLen && p == |acc| <= room
      invariant goal == if findStartBreak then Continue(acc, Unescape(s[ch..], room - p)) else DeFramed(s[ch..], room)
      invariant !findStartBreak ==> acc == []
      invariant Written(buf[..], acc, was)
    {
      var b := frm[ch];
      assert b == s[ch];
      if !findStartBreak {
        DeFramedStep(s, ch, room);
        findStartBreak := b == BREAK;
        ch := ch + 1;
        continue;
      }
      UnescapeStep(s, ch, room - p);
      if b == BREAK {
        return OK, p;
      }
      var c := b;
      if b == ESCAPE {
        if ch + 2 > frmLen {
          return CUT_ESCAPE, p;
        }
        ch := ch + 1;
        var e := frm[ch];
        assert e == s[ch];
        if e != ESCAPE_BREAK && e != ESCAPE_ESCAPE {
          return BAD_ESCAPE, p;
        }
        c := if e == ESCAPE_BREAK then BREAK else ESCAPE;
      }
      if p + 1 > room {
        return NO_ROOM, p;
      }
      ContinueOne(acc, c, Unescape(s[ch + 1..], room - p - 1));
      Put(buf, p, c, acc, was);
      acc := acc + [c];
      p := p + 1;
      ch := ch + 1;
    }
    assert s[ch..] == [];
    len := p;
  }
}
