/** The flow tables of compact.c as values, and one step of each of its entry points. */
module Flows {
  import opened Bytes
  import opened Headers
  import opened Codec
  import Csum
  import opened Sequences

  datatype State = New | Pending | Established

  datatype Flow = Flow(state: State, hdr: Hdr, fid: u8, timeout: int)

  type Flows = map<Key, Flow>

  const SOFT_TIMEOUT_INTERVAL := 10000

  // ----- sending -----

  /** A packet that is not compressed at all: not IPv4 without options, TCP with options, or a bad checksum. */
  predicate Compactable(b: Buffer) {
    && b[0] == 0x45 && (b[9] == TCP ==> b[32] / 16 == 5) && Csum.Csum(b[..20]) == 0
  }

  /** The new-flow branch of xmit_compress, for a key without a flow. */
  function OpenFlow(fs: Flows, pool: seq<u8>, b: Buffer, now: int): Flows
    requires pool != []
  {
    fs[KeyOf(b) := Flow(New, HdrOf(b), pool[0], now + SOFT_TIMEOUT_INTERVAL)]
  }

  /** What a flow makes of a packet. A compressed RAW packet counts once here although it is pushed twice. */
  function FramesOf(f: Flow, b: Buffer, stale: Stale): seq<seq<u8>>
    requires TotLen(b) <= |b| && (f.state == New ==> WellShaped(f.hdr))
    requires f.state == Established ==> LongEnough(KeyOf(b), b)
  {
    match f.state
    case New => [BuildCtl(f.fid, f.hdr), b[..TotLen(b)]]
    case Pending => [b[..TotLen(b)]]
    case Established => [CpktOf(f.fid, KeyOf(b), b, stale)]
  }

  /** The flow afterwards. */
  function Used(f: Flow, now: int): Flow {
    f.(state := if f.state == New then Pending else f.state, timeout := now + SOFT_TIMEOUT_INTERVAL)
  }

  datatype Sending = Sending(flows: Flows, pool: seq<u8>, frames: seq<seq<u8>>)

  /** What xmit_compress relies on. */
  predicate Sendable(fs: Flows, b: Buffer) {
    && TotLen(b) <= |b|
    && (forall k :: k in fs ==> WellShaped(fs[k].hdr))
    && (Compactable(b) && KeyOf(b) in fs && fs[KeyOf(b)].state == Established ==> LongEnough(KeyOf(b), b))
  }

  /** xmit_compress */
  function Xmit(fs: Flows, pool: seq<u8>, b: Buffer, now: int, stale: Stale): Sending
    requires Sendable(fs, b)
  {
    var k := KeyOf(b);
    if !Compactable(b) then Sending(fs, pool, [b[..TotLen(b)]])
    else if k !in fs && pool == [] then Sending(fs, pool, [])
    else
      var table := if k in fs then fs else OpenFlow(fs, pool, b, now);
      Sending(table[k := Used(table[k], now)], if k in fs then pool else pool[1..], FramesOf(table[k], b, stale))
  }

  /** The answer to a request. */
  function OnAck(fs: Flows, fid: u8): Flows {
    map k | k in fs :: if fs[k].fid == fid then fs[k].(state := Established) else fs[k]
  }

  // ----- receiving -----

  /** rkey_t */
  datatype Rkey = Rkey(smac: u8, id: u8)

  function RkeyOf(c: seq<u8>): Rkey
    requires |c| >= 3
  {
    Rkey(c[1], c[2])
  }

  /** What a receiver stores of a flow. */
  datatype Stored = Stored(hdr: Hdr, timeout: int)

  type Rflows = map<Rkey, Stored>

  /** No assertion of recv_compress fails and no length comes out negative: a request announces a new flow, a compressed
      frame has its flow, nothing else occurs, and every length covers what is read. */
  predicate Passes(rs: Rflows, c: seq<u8>) {
    if LooksLikeIp(c) then FromBe16(c, 2) <= |c|
    else if |c| < 3 then false
    else if Type(c) == CTL then
      (Info(c) == REQ && RkeyOf(c) !in rs && ReqFits(c)) || Info(c) == ACK || Info(c) == FLT
    else RkeyOf(c) in rs && LengthsFit(c)
  }

  /** And the headers that a compressed frame is restored with were stored. */
  predicate Understood(rs: Rflows, c: seq<u8>) {
    Passes(rs, c) && (!LooksLikeIp(c) && Type(c) != CTL ==> Restorable(rs[RkeyOf(c)].hdr, c))
  }

  datatype Receiving = Receiving(flows: Flows, rflows: Rflows, packet: Option<seq<u8>>, reply: Option<seq<u8>>)

  /** recv_untouched_ip */
  function Untouched(c: seq<u8>): seq<u8>
    requires |c| >= 20 && FromBe16(c, 2) <= |c|
  {
    c[..if FromBe16(c, 2) <= MAX_DATA_LENGTH then FromBe16(c, 2) else MAX_DATA_LENGTH]
  }

  /** recv_compress */
  function Recv(fs: Flows, rs: Rflows, c: seq<u8>, now: int): Receiving
    requires Understood(rs, c)
  {
    if LooksLikeIp(c) then Receiving(fs, rs, Some(Untouched(c)), None)
    else if Type(c) != CTL then
      var h := rs[RkeyOf(c)].hdr;
      Receiving(fs, rs[RkeyOf(c) := Stored(HdrAfter(h, c), now + SOFT_TIMEOUT_INTERVAL)], Some(Restore(h, c)), None)
    else if Info(c) == REQ then
      Receiving(fs, rs[RkeyOf(c) := Stored(ReqHdr(c), now + SOFT_TIMEOUT_INTERVAL)], None, Some(BuildAck(c)))
    else if Info(c) == ACK then Receiving(OnAck(fs, c[2]), rs, None, None)
    else Receiving(fs, rs, None, None)
  }

  // ----- expiry -----

  /** timer_event keeps the flows whose time has not come. */
  function Alive(fs: Flows, now: int): Flows {
    map k | k in fs && now < fs[k].timeout :: fs[k]
  }

  // ----- the table, its ids and the free ids -----

  ghost function LiveIds(fs: Flows): set<u8> {
    set k | k in fs :: fs[k].fid
  }

  ghost predicate OneEach(fs: Flows) {
    forall k, l :: k in fs && l in fs && fs[k].fid == fs[l].fid ==> k == l
  }

  /** Live ids are distinct, and an id is free exactly if no flow has it. */
  ghost predicate Consistent(fs: Flows, pool: seq<u8>) {
    OneEach(fs) && Distinct(pool) && forall f: u8 :: f in pool <==> f !in LiveIds(fs)
  }

  ghost function Elements(s: seq<u8>): set<u8> {
    set x | x in s
  }

  lemma {:induction false} SeqCount(s: seq<u8>)
    requires Distinct(s)
    ensures |Elements(s)| == |s|
  {
    if s != [] {
      var rest, last := s[..|s| - 1], s[|s| - 1];
      SeqCount(rest);
      assert s == rest + [last] && last !in rest;
      assert Elements(s) == Elements(rest) + {last};
    }
  }

  lemma {:induction false} LiveCount(fs: Flows)
    requires OneEach(fs)
    ensures |LiveIds(fs)| == |fs|
    decreases |fs|
  {
    if fs.Keys == {} {
      assert fs == map[];
    } else {
      var k :| k in fs;
      LiveCount(fs - {k});
      LiveWithout(fs, k);
    }
  }

  lemma LiveWithout(fs: Flows, k: Key)
    requires OneEach(fs) && k in fs
    ensures var rest := fs - {k};
            && |fs| == |rest| + 1 && fs[k].fid !in LiveIds(rest)
            && LiveIds(fs) == LiveIds(rest) + {fs[k].fid}
  {
    var rest := fs - {k};
    assert fs.Keys == rest.Keys + {k};
    forall x | x in LiveIds(fs) ensures x in LiveIds(rest) + {fs[k].fid} {
      var l :| l in fs && fs[l].fid == x;
      assert l != k ==> l in rest && rest[l].fid == x;
    }
  }

  lemma {:induction false} AllIds(n: nat) returns (s: set<u8>)
    requires n <= 256
    ensures |s| == n && forall f: u8 :: f in s <==> f < n
  {
    s := {};
    if n > 0 {
      s := AllIds(n - 1);
      s := s + {n - 1};
    }
  }

  /** Free and live ids make up all 256, so the pool is empty exactly if 256 flows are live. */
  lemma IdsPartition(fs: Flows, pool: seq<u8>)
    requires Consistent(fs, pool)
    ensures |fs| + |pool| == 256
  {
    hide LiveIds, OneEach, Distinct;
    var all := AllIds(256);
    SeqCount(pool);
    LiveCount(fs);
    Halves(Elements(pool), LiveIds(fs), all);
  }

  lemma Halves(a: set<u8>, b: set<u8>, all: set<u8>)
    requires forall f: u8 :: f in a <==> f !in b
    requires forall f: u8 :: f in all
    ensures |a| + |b| == |all|
  {
    assert a * b == {} && a + b == all;
  }

  lemma LiveIdsPut(fs: Flows, k: Key, f: Flow)
    requires k in fs ==> fs[k].fid == f.fid
    ensures LiveIds(fs[k := f]) == LiveIds(fs) + {f.fid}
  {
    var g := fs[k := f];
    forall x | x in LiveIds(fs) + {f.fid} ensures x in LiveIds(g) {
      if x == f.fid {
        assert g[k].fid == x;
      } else {
        var l :| l in fs && fs[l].fid == x;
        assert l in g && g[l].fid == x;
      }
    }
  }

  lemma OpenKeepsConsistent(fs: Flows, pool: seq<u8>, b: Buffer, now: int)
    requires Consistent(fs, pool) && KeyOf(b) !in fs && pool != []
    ensures Consistent(OpenFlow(fs, pool, b, now), pool[1..])
  {
    hide LiveIds, KeyOf;
    var g := OpenFlow(fs, pool, b, now);
    LiveIdsPut(fs, KeyOf(b), g[KeyOf(b)]);
    NewId(fs, pool[0]);
    assert pool == [pool[0]] + pool[1..];
  }

  lemma NewId(fs: Flows, fid: u8)
    requires fid !in LiveIds(fs)
    ensures forall k :: k in fs ==> fs[k].fid != fid
  {
  }

  lemma XmitKeepsConsistent(fs: Flows, pool: seq<u8>, b: Buffer, now: int, stale: Stale)
    requires Consistent(fs, pool) && Sendable(fs, b)
    ensures var s := Xmit(fs, pool, b, now, stale); Consistent(s.flows, s.pool)
  {
    hide LiveIds, KeyOf, Compactable, Consistent, FramesOf;
    var k := KeyOf(b);
    if Compactable(b) && (k in fs || pool != []) {
      var table, rest := fs, pool;
      if k !in fs {
        OpenKeepsConsistent(fs, pool, b, now);
        table, rest := OpenFlow(fs, pool, b, now), pool[1..];
      }
      UseKeepsConsistent(table, rest, k, now);
    }
  }

  lemma UseKeepsConsistent(fs: Flows, pool: seq<u8>, k: Key, now: int)
    requires Consistent(fs, pool) && k in fs
    ensures Consistent(fs[k := Used(fs[k], now)], pool)
  {
    LiveIdsPut(fs, k, Used(fs[k], now));
    assert fs[k].fid in LiveIds(fs);
  }

  lemma AckKeepsConsistent(fs: Flows, pool: seq<u8>, fid: u8)
    requires Consistent(fs, pool)
    ensures Consistent(OnAck(fs, fid), pool)
  {
    var g := OnAck(fs, fid);
    forall f: u8 ensures f in LiveIds(g) <==> f in LiveIds(fs) {
      if f in LiveIds(fs) {
        var k :| k in fs && fs[k].fid == f;
        assert k in g && g[k].fid == f;
      }
    }
  }

  /** A packet is refused, and nothing at all is sent for it, exactly if it would need a 257th flow. */
  lemma RefusedIff(fs: Flows, pool: seq<u8>, b: Buffer, now: int, stale: Stale)
    requires Consistent(fs, pool) && Sendable(fs, b)
    ensures Xmit(fs, pool, b, now, stale).frames == [] <==> Compactable(b) && KeyOf(b) !in fs && |fs| == 256
  {
    hide LiveIds, KeyOf, Compactable, Consistent;
    IdsPartition(fs, pool);
  }

  /** Every packet gives its flow the full interval, and not one millisecond more. */
  lemma UsedFlowLives(fs: Flows, pool: seq<u8>, b: Buffer, now: int, later: int, stale: Stale)
    requires Sendable(fs, b) && Compactable(b) && (KeyOf(b) in fs || pool != [])
    ensures KeyOf(b) in Alive(Xmit(fs, pool, b, now, stale).flows, later) <==> later < now + SOFT_TIMEOUT_INTERVAL
  {
    hide KeyOf, Compactable, FramesOf;
  }
}
