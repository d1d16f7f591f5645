/** The sender's flow table of compact.c: the map of flows, the reverse index by flow id and the pool of ids. */
module FlowTables {
  import opened Bytes
  import opened Headers
  import opened Codec
  import opened Flows
  import F = Flows
  import opened IdPools
  import opened Sequences

  /** sflow_node_t */
  class Sflow {
    const key: Key
    const hdr: Hdr
    const fid: u8
    var state: State
    var timeout: int

    /** build_sflow_by_hash */
    constructor (b: Buffer, fid: u8, now: int)
      ensures key == KeyOf(b) && hdr == HdrOf(b) && this.fid == fid
      ensures state == New && timeout == now + SOFT_TIMEOUT_INTERVAL
    {
      key := KeyOf(b);
      hdr := HdrOf(b);
      this.fid := fid;
      state := New;
      timeout := now + SOFT_TIMEOUT_INTERVAL;
    }

    ghost function Value(): Flow
      reads this
    {
      Flow(state, hdr, fid, timeout)
    }

    /** The switch of xmit_compress, and touch_sflow. */
    method Emit(b: Buffer, now: int, stale: Stale) returns (frames: seq<seq<u8>>)
      requires TotLen(b) <= |b| && WellShaped(hdr) && key == KeyOf(b)
      requires state == Established ==> LongEnough(key, b)
      modifies this
      ensures frames == FramesOf(old(Value()), b, stale) && Value() == Used(old(Value()), now)
    {
      match state {
        case New =>
          frames := [BuildCtl(fid, hdr), b[..TotLen(b)]];
          state := Pending;
        case Pending =>
          frames := [b[..TotLen(b)]];
        case Established =>
          var frame, _ := BuildCpkt(fid, key, b, stale);
          frames := [frame];
      }
      timeout := now + SOFT_TIMEOUT_INTERVAL;
    }
  }

  /** The map and the reverse index name each other's flows. */
  ghost predicate Indexed(flows: map<Key, Sflow>, index: seq<Sflow?>) {
    && |index| == 256
    && (forall k :: k in flows ==> flows[k].key == k && WellShaped(flows[k].hdr) && index[flows[k].fid] == flows[k])
    && (forall f :: 0 <= f < 256 && index[f] != null
          ==> index[f].fid == f && index[f].key in flows && flows[index[f].key] == index[f])
  }

  /** The ids without a flow are the free ones, each once. */
  ghost predicate Agrees(free: seq<int>, index: seq<Sflow?>) {
    && |index| == 256 && Distinct(free) && (forall f :: f in free ==> 0 <= f < 256)
    && forall f :: 0 <= f < 256 ==> (f in free <==> index[f] == null)
  }

  lemma AddFlow(flows: map<Key, Sflow>, index: seq<Sflow?>, free: seq<int>, flow: Sflow)
    requires Indexed(flows, index) && Agrees(free, index) && free != [] && flow.key !in flows
    requires flow.fid == free[0] && WellShaped(flow.hdr)
    ensures Indexed(flows[flow.key := flow], index[free[0] := flow])
    ensures Agrees(free[1..], index[free[0] := flow])
  {
    hide WellShaped;
    assert free == [free[0]] + free[1..] && free[0] in free && free[0] !in free[1..];
    forall f | f in free[1..] ensures f in free && f != free[0] {
    }
    forall f | f in free && f != free[0] ensures f in free[1..] {
    }
  }

  lemma DropFlow(flows: map<Key, Sflow>, index: seq<Sflow?>, free: seq<int>, k: Key)
    requires Indexed(flows, index) && Agrees(free, index) && k in flows
    ensures Indexed(flows - {k}, index[flows[k].fid := null])
    ensures |free| < 256 && Agrees(free + [flows[k].fid], index[flows[k].fid := null])
  {
    hide WellShaped;
    var fid := flows[k].fid;
    assert fid !in free;
    Room(free, fid);
  }

  /** The pool is not full as long as one id is live. */
  lemma Room(free: seq<int>, fid: u8)
    requires Distinct(free) && (forall f :: f in free ==> 0 <= f < 256) && fid !in free
    ensures |free| < 256
  {
    assert forall i :: 0 <= i < |free| ==> free[i] in free;
    var s: seq<u8> := free;
    var all := AllIds(256);
    SeqCount(s);
    SubsetSize(Elements(s), all - {fid});
  }

  class FlowTable {
    var flows: map<Key, Sflow>
    const rindex: array<Sflow?>
    const pool: IdPool

    ghost predicate Valid()
      reads this, rindex, pool, pool.pool
    {
      && rindex.Length == 256 && pool.n == 256 && pool.Valid()
      && Indexed(flows, rindex[..]) && Agrees(pool.Contents(), rindex[..])
    }

    ghost function View(): Flows
      reads this, flows.Values
    {
      map k | k in flows :: flows[k].Value()
    }

    ghost function Free(): seq<u8>
      requires Valid()
      reads this, rindex, pool, pool.pool
    {
      assert forall i :: 0 <= i < |pool.Contents()| ==> pool.Contents()[i] in pool.Contents();
      pool.Contents()
    }

    /** compact_init, for the sending side */
    constructor ()
      ensures Valid() && View() == map[] && Free() == seq(256, i => i)
      ensures fresh(rindex) && fresh(pool) && fresh(pool.pool)
    {
      flows := map[];
      rindex := new Sflow?[256](_ => null);
      pool := new IdPool(256);
      new;
      ghost var c := pool.Contents();
      forall f | 0 <= f < 256 ensures f in c {
        assert c[f] == f;
      }
      assert Agrees(c, rindex[..]);
    }

    /** The table always agrees with its ids: fids are distinct, and the free ones are the others. */
    lemma ValidIsConsistent()
      requires Valid()
      ensures Consistent(View(), Free())
    {
      var fs := View();
      forall f: u8 ensures f in Free() <==> f !in LiveIds(fs) {
        if rindex[f] != null {
          var k := rindex[f].key;
          assert k in fs && fs[k].fid == f;
        }
      }
    }

    lemma Entry(k: Key)
      requires Valid() && k in flows
      ensures flows[k].key == k && WellShaped(flows[k].hdr)
      ensures forall l :: l in flows && l != k ==> flows[l] != flows[k]
    {
    }

    /** The new-flow branch of xmit_compress. */
    method Open(b: Buffer, now: int) returns (flow: Sflow?)
      requires Valid() && KeyOf(b) !in flows
      modifies this`flows, rindex, pool
      ensures Valid() && (flow == null <==> old(Free()) == [])
      ensures flow == null ==> View() == old(View()) && Free() == []
      ensures flow != null ==> View() == OpenFlow(old(View()), old(Free()), b, now) && Free() == old(Free())[1..]
      ensures flow != null ==> fresh(flow) && flows == old(flows)[KeyOf(b) := flow]
    {
      hide KeyOf, HdrOf, IdPool.Contents, IdPool.Valid, WellShaped, Indexed, Distinct;
      ghost var was, index := pool.Contents(), rindex[..];
      assert was != [] ==> was[0] in was;
      var fid := pool.GetId();
      if fid < 0 {
        return null;
      }
      flow := new Sflow(b, fid, now);
      AddFlow(flows, index, was, flow);
      flows := flows[KeyOf(b) := flow];
      rindex[fid] := flow;
      assert rindex[..] == index[fid := flow];
    }

    /** The part of xmit_compress that finds the packet's flow or opens it. */
    method Locate(b: Buffer, now: int) returns (flow: Sflow?)
      requires Valid()
      modifies this`flows, rindex, pool
      ensures Valid() && (flow == null <==> KeyOf(b) !in old(flows) && old(Free()) == [])
      ensures flow == null ==> View() == old(View()) && Free() == []
      ensures flow != null ==> KeyOf(b) in flows && flows[KeyOf(b)] == flow
      ensures KeyOf(b) in old(flows) ==> flows == old(flows) && View() == old(View()) && Free() == old(Free())
      ensures flow != null && KeyOf(b) !in old(flows)
              ==> fresh(flow) && View() == OpenFlow(old(View()), old(Free()), b, now) && Free() == old(Free())[1..]
    {
      hide KeyOf, HdrOf, Valid, Free, View;
      if KeyOf(b) in flows {
        flow := flows[KeyOf(b)];
      } else {
        flow := Open(b, now);
      }
    }

    /** The part of xmit_compress that depends on the state of the packet's flow. */
    method Use(flow: Sflow, b: Buffer, now: int, stale: Stale) returns (frames: seq<seq<u8>>)
      requires Valid() && KeyOf(b) in flows && flows[KeyOf(b)] == flow && TotLen(b) <= |b|
      requires flow.state == Established ==> LongEnough(KeyOf(b), b)
      modifies flow
      ensures Valid() && Free() == old(Free()) && WellShaped(flow.hdr)
      ensures frames == FramesOf(old(flow.Value()), b, stale)
      ensures View() == old(View())[KeyOf(b) := Used(old(flow.Value()), now)]
    {
      hide KeyOf, HdrOf, Valid, Free, FramesOf, LongEnough;
      Entry(KeyOf(b));
      frames := flow.Emit(b, now, stale);
    }

    /** The table and the frames are those of a step of xmit_compress. */
    ghost predicate Sent(x: Sending, frames: seq<seq<u8>>)
      reads this, flows.Values, rindex, pool, pool.pool
    {
      Valid() && View() == x.flows && Free() == x.pool && frames == x.frames
    }

    /** xmit_compress */
    method Xmit(b: Buffer, now: int, stale: Stale) returns (frames: seq<seq<u8>>)
      requires Valid() && Sendable(View(), b)
      modifies this`flows, rindex, pool, flows.Values
      ensures Sent(F.Xmit(old(View()), old(Free()), b, now, stale), frames)
    {
      hide KeyOf, HdrOf, Compactable, Valid, Free, FramesOf, LongEnough;
      frames := [];
      if !Compactable(b) {
        return [b[..TotLen(b)]];
      }
      var flow := Locate(b, now);
      if flow == null {
        return;
      }
      assert View()[KeyOf(b)] == flow.Value();
      frames := Use(flow, b, now, stale);
    }

    /** recv_compress, for the answer to a request */
    method OnAck(fid: u8)
      requires Valid()
      modifies flows.Values
      ensures Valid() && View() == F.OnAck(old(View()), fid) && Free() == old(Free())
    {
      hide IdPool.Contents, IdPool.Valid, WellShaped, Distinct, Agrees;
      if rindex[fid] != null {
        rindex[fid].state := Established;
      }
    }

    /** timer_event: exactly the flows whose time has not come stay, in whatever order the table is walked. */
    method Timer(now: int)
      requires Valid()
      modifies this`flows, rindex, pool, pool.pool
      ensures Valid() && View() == Alive(old(View()), now)
      ensures old(Free()) <= Free()
    {
      hide IdPool.Contents, IdPool.Valid, WellShaped, Indexed, Distinct;
      var todo := flows.Keys;
      while todo != {}
        invariant Valid() && todo <= flows.Keys && old(Free()) <= Free()
        invariant forall k :: k in flows ==> k in old(flows) && flows[k] == old(flows)[k]
        invariant forall k :: k in old(flows) && (k in todo || now < old(flows)[k].timeout) ==> k in flows
        invariant forall k :: k in flows && k !in todo ==> now < flows[k].timeout
      {
        var k :| k in todo;
        todo := todo - {k};
        if now >= flows[k].timeout {
          Drop(k);
        }
      }
    }

    /** The body of the loop in timer_event. */
    method Drop(k: Key)
      requires Valid() && k in flows
      modifies this`flows, rindex, pool, pool.pool
      ensures Valid() && flows == old(flows) - {k} && Free() == old(Free()) + [old(flows)[k].fid]
    {
      hide IdPool.Contents, IdPool.Valid, WellShaped, Indexed, Distinct;
      ghost var was, index := pool.Contents(), rindex[..];
      var flow := flows[k];
      DropFlow(flows, index, was, k);
      flows := flows - {k};
      rindex[flow.fid] := null;
      assert rindex[..] == index[flow.fid := null];
      pool.ReleaseId(flow.fid);
    }
  }
}
