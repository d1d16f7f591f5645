/** How a flow comes to be compressed, and which packets never are. */
module Establishing {
  import opened Bytes
  import opened Headers
  import opened Codec
  import opened CodecTheorems
  import opened Flows
  import opened Handshake
  import Csum

  /** An answer establishes exactly the flow with its id, and changes nothing about it but its state. */
  lemma AnswerEstablishes(fs: Flows, pool: seq<u8>, rs: Rflows, k: Key, now: int)
    requires Consistent(fs, pool) && k in fs
    ensures var c := Chdr(CTL, ACK, MYMAC, fs[k].fid);
            Understood(rs, c)
            && Recv(fs, rs, c, now) == Receiving(fs[k := fs[k].(state := Established)], rs, None, None)
  {
    var fid := fs[k].fid;
    var gs := OnAck(fs, fid);
    assert gs.Keys == fs.Keys;
    forall l | l in fs && l != k ensures gs[l] == fs[l] {
    }
    assert gs == fs[k := fs[k].(state := Established)];
  }

  /** An answer for an id that no flow has is ignored. */
  lemma UnknownAnswer(fs: Flows, pool: seq<u8>, rs: Rflows, fid: u8, now: int)
    requires Consistent(fs, pool) && fid in pool
    ensures Recv(fs, rs, Chdr(CTL, ACK, MYMAC, fid), now) == Receiving(fs, rs, None, None)
  {
    NewId(fs, fid);
    assert OnAck(fs, fid) == fs;
  }

  /** A fault, which nobody sends, is ignored. */
  lemma FaultIsIgnored(fs: Flows, rs: Rflows, c: seq<u8>, now: int)
    requires Understood(rs, c) && !LooksLikeIp(c) && c[0] == 0x03
    ensures Recv(fs, rs, c, now) == Receiving(fs, rs, None, None)
  {
  }

  /** And so is what an uncompressed packet has behind its length, or behind its first 2000 bytes. */
  lemma LongPacketIsCut(fs: Flows, rs: Rflows, c: seq<u8>, now: int)
    requires Understood(rs, c) && LooksLikeIp(c)
    ensures var len := 256 * c[2] as int + c[3] as int;
            && len <= |c|
            && Recv(fs, rs, c, now) == Receiving(fs, rs, Some(c[..if len <= 2000 then len else 2000]), None)
  {
    hide Csum.Csum;
  }

  /** IPv4 without options, no TCP options, and a header whose checksum is right. */
  predicate Plainly(b: Buffer) {
    b[0] == 0x45 && (b[9] == 0x06 ==> b[32] / 16 == 5) && Csum.Csum(b[..20]) == 0
  }

  /** On an established flow a packet is sent as it is exactly if it is of another kind; otherwise a single frame is
      sent, and that is at least 15 bytes shorter. */
  lemma SentAsItIsIff(fs: Flows, pool: seq<u8>, b: Buffer, now: int, stale: Stale)
    requires Sendable(fs, b) && 20 <= TotLen(b) && KeyOf(b) in fs && fs[KeyOf(b)].state == Established
    ensures var x := Xmit(fs, pool, b, now, stale);
            && |x.frames| == 1
            && (x.frames[0] == b[..TotLen(b)] <==> !Plainly(b))
            && (!Plainly(b) ==> x.flows == fs && x.pool == pool)
            && (Plainly(b) ==> |x.frames[0]| + 15 <= TotLen(b))
  {
    assert Plainly(b) <==> Compactable(b);
    hide KeyOf, Compress;
    if Compressible(KeyOf(b), b) {
      CompressedShape(fs[KeyOf(b)].fid, b);
    }
  }

  /** While the answer is awaited packets go as they are and nothing is asked again. If the request or its answer is
      lost, the flow is not compressed until it has expired, and every packet puts that off. */
  lemma PendingWaits(fs: Flows, pool: seq<u8>, b: Buffer, now: int, stale: Stale)
    requires Sendable(fs, b) && KeyOf(b) in fs && fs[KeyOf(b)].state == Pending
    ensures var x := Xmit(fs, pool, b, now, stale);
            && x.frames == [b[..TotLen(b)]] && x.pool == pool && x.flows.Keys == fs.Keys
            && forall k :: k in fs ==> x.flows[k] == fs[k].(timeout := x.flows[k].timeout)
  {
    hide KeyOf, Compactable;
  }

  // ----- the handshake -----

  /** A packet that a receiver can restore once its flow is established. */
  predicate Worthy(b: Buffer) {
    && Plainly(b) && 20 <= TotLen(b) <= |b| && LooksLikeIp(b[..TotLen(b)])
    && Compressible(KeyOf(b), b) && !Starved(b)
  }

  lemma Opens(s: System, p: Buffer, now: int, stale: Stale) returns (t: System)
    requires Inv(s) && Compactable(p) && CanSend(s.a.fs, p, stale) && KeyOf(p) !in s.a.fs && s.a.pool != []
    ensures var m := Move(false, Send(p, now, stale));
            MoveEnabled(s, m) && MoveSafe(s, m) && t == Next(s, m) && Inv(t)
    ensures var fid := s.a.pool[0];
            && KeyOf(p) in t.a.fs && t.a.fs[KeyOf(p)].fid == fid && t.a.fs[KeyOf(p)].state == Pending
            && Request(fid, HdrOf(p)) in t.ab
  {
    hide Inv, KeyOf, HdrOf, Compactable, CanSend, FramesOf, Sendable;
    var m := Move(false, Send(p, now, stale));
    MoveOk(s, m);
    t := Next(s, m);
    assert SentFrames(s.a.fs, s.a.pool, p, stale)[0] == Request(s.a.pool[0], HdrOf(p));
  }

  lemma Asks(s: System, fid: u8, h: Hdr, now: int) returns (t: System)
    requires Inv(s) && Request(fid, h) in s.ab
    ensures var m := Move(true, Receive(Request(fid, h), now));
            MoveEnabled(s, m) && MoveSafe(s, m) && t == Next(s, m) && Inv(t)
    ensures t.a == s.a && Answer(fid) in t.ba
  {
    var f := Request(fid, h);
    var m := Move(true, Receive(f, now));
    MoveOk(s, m);
    t := Next(s, m);
    RequestKeepsDirection(s.a.fs, s.a.pool, s.b.rs, s.ab, s.ba, f, now);
    FramesOk(s.a.fs, s.a.pool, s.b.rs, s.ab, s.ba, f);
    hide Inv, Direction, FrameOk, Understood, Recv;
    RequestArrives(f, s.a.fs, s.b.rs, s.b.fs, now);
  }

  lemma Answers(s: System, k: Key, now: int) returns (t: System)
    requires Inv(s) && k in s.a.fs && Answer(s.a.fs[k].fid) in s.ba
    ensures var m := Move(false, Receive(Answer(s.a.fs[k].fid), now));
            MoveEnabled(s, m) && MoveSafe(s, m) && t == Next(s, m) && Inv(t)
    ensures t.a.fs == s.a.fs[k := s.a.fs[k].(state := Established)] && t.a.pool == s.a.pool
  {
    var f := Answer(s.a.fs[k].fid);
    var m := Move(false, Receive(f, now));
    MoveOk(s, m);
    t := Next(s, m);
    AnswerEstablishes(s.a.fs, s.a.pool, s.a.rs, k, now);
  }

  lemma Compresses(s: System, k: Key, q: Buffer, now: int, stale: Stale) returns (t: System)
    requires Inv(s) && Worthy(q) && KeyOf(q) == k && k in s.a.fs && s.a.fs[k].state == Established
    ensures var m := Move(false, Send(q, now, stale));
            MoveEnabled(s, m) && MoveSafe(s, m) && t == Next(s, m) && Inv(t)
    ensures t.ab == s.ab + multiset{Compressed(s.a.fs[k].fid, q)}
  {
    var m := Move(false, Send(q, now, stale));
    AllShaped(s.a.fs, s.a.pool, s.b.rs, s.ab, s.ba);
    hide Inv, KeyOf, Starved, LooksLikeIp, Xmit, FramesOf;
    assert CanSend(s.a.fs, q, stale);
    MoveOk(s, m);
    t := Next(s, m);
    assert SentFrames(s.a.fs, s.a.pool, q, stale) == [Compressed(s.a.fs[k].fid, q)];
  }

  lemma AllShaped(fs: Flows, pool: seq<u8>, rs: Rflows, out: multiset<Frame>, back: multiset<Frame>)
    requires Direction(fs, pool, rs, out, back)
    ensures forall k :: k in fs ==> WellShaped(fs[k].hdr)
  {
  }

  /** Each state follows from the one before it by a step that can happen and that the code allows. */
  ghost predicate Path(states: seq<System>, moves: seq<Move>) {
    && |states| == |moves| + 1
    && forall i :: 0 <= i < |moves| ==>
         MoveEnabled(states[i], moves[i]) && MoveSafe(states[i], moves[i]) && states[i + 1] == Next(states[i], moves[i])
  }

  /** What the handshake is for. In any state of a run, when a packet p has no flow and an id is free, the request, its
      answer, and from then on the next packet q of the same flow puts a single frame on the link, which is not a
      control frame and at least 15 bytes shorter than q. */
  lemma NextIsCompressed(s: System, p: Buffer, q: Buffer, times: seq<int>, stale: Stale)
      returns (states: seq<System>, moves: seq<Move>)
    requires Inv(s) && Compactable(p) && CanSend(s.a.fs, p, stale) && KeyOf(p) !in s.a.fs && s.a.pool != []
    requires Worthy(q) && KeyOf(q) == KeyOf(p) && |times| == 4
    ensures |states| == 5 && states[0] == s && Path(states, moves)
    ensures var fid := s.a.pool[0];
            moves == [Move(false, Send(p, times[0], stale)), Move(true, Receive(Request(fid, HdrOf(p)), times[1])),
                      Move(false, Receive(Answer(fid), times[2])), Move(false, Send(q, times[3], stale))]
    ensures var f := Compressed(s.a.pool[0], q);
            && states[4].ab == states[3].ab + multiset{f}
            && |Image(f)| + 15 <= TotLen(q) && Type(Image(f)) != CTL
  {
    hide Inv, KeyOf, HdrOf, Compactable, CanSend, MoveEnabled, MoveSafe, Next, Compress;
    var k, fid := KeyOf(p), s.a.pool[0];
    var t1 := Opens(s, p, times[0], stale);
    var t2 := Asks(t1, fid, HdrOf(p), times[1]);
    var t3 := Answers(t2, k, times[2]);
    hide Worthy;
    var t4 := Compresses(t3, k, q, times[3], stale);
    states := [s, t1, t2, t3, t4];
    moves := [Move(false, Send(p, times[0], stale)), Move(true, Receive(Request(fid, HdrOf(p)), times[1])),
              Move(false, Receive(Answer(fid), times[2])), Move(false, Send(q, times[3], stale))];
    WorthyShape(fid, q);
  }

  lemma WorthyShape(fid: u8, q: Buffer)
    requires Worthy(q)
    ensures var c := Image(Compressed(fid, q)); 3 <= |c| && |c| + 15 <= TotLen(q) && Type(c) != CTL
  {
    CompressedShape(fid, q);
  }
}
