/** The receiver's flow table of compact.c, and its entry point for a frame. */
module RflowTables {
  import opened Bytes
  import opened Codec
  import opened Flows
  import F = Flows
  import opened FlowTables

  /** The tables when a frame comes in. */
  datatype Before = Before(fs: Flows, rs: Rflows, free: seq<u8>)

  class RflowTable {
    var rflows: map<Rkey, Rflow>

    /** No two keys share a flow. */
    ghost predicate Valid()
      reads this
    {
      forall k, l :: k in rflows && l in rflows && rflows[k] == rflows[l] ==> k == l
    }

    ghost function View(): Rflows
      reads this, rflows.Values
    {
      map k | k in rflows :: Stored(rflows[k].hdr, rflows[k].timeout)
    }

    constructor ()
      ensures Valid() && View() == map[]
    {
      rflows := map[];
    }

    /** The three branches of recv_compress for compressed frames. */
    method Decompress(c: seq<u8>, now: int) returns (pkt: seq<u8>)
      requires Valid() && |c| >= 3 && RkeyOf(c) in View() && Type(c) != CTL
      requires Restorable(View()[RkeyOf(c)].hdr, c)
      modifies rflows.Values
      ensures Valid() && pkt == Restore(old(View())[RkeyOf(c)].hdr, c)
      ensures var h := old(View())[RkeyOf(c)].hdr;
              View() == old(View())[RkeyOf(c) := Stored(HdrAfter(h, c), now + SOFT_TIMEOUT_INTERVAL)]
    {
      hide Restorable, Restore, HdrAfter;
      var rflow := rflows[RkeyOf(c)];
      rflow.timeout := now + SOFT_TIMEOUT_INTERVAL;
      if Type(c) == FRAME_TCP {
        pkt := rflow.RecvTcp(c);
      } else if Type(c) == FRAME_UDP {
        pkt := rflow.RecvUdp(c);
      } else {
        pkt := rflow.RecvRaw(c);
      }
    }

    /** build_rflow_by_hash, for a request */
    method Accept(c: seq<u8>, now: int)
      requires Valid() && |c| >= 3 && ReqFits(c)
      modifies this
      ensures Valid() && View() == old(View())[RkeyOf(c) := Stored(ReqHdr(c), now + SOFT_TIMEOUT_INTERVAL)]
    {
      hide ReqFits, ReqHdr;
      var rflow := new Rflow(ReqHdr(c), now + SOFT_TIMEOUT_INTERVAL);
      rflows := rflows[RkeyOf(c) := rflow];
    }

    /** The part of recv_compress for control frames. */
    method Control(table: FlowTable, c: seq<u8>, now: int) returns (reply: Option<seq<u8>>)
      requires Valid() && table.Valid() && |c| >= 3 && (Info(c) == REQ ==> ReqFits(c))
      modifies this, table.flows.Values
      ensures Valid() && table.Valid() && table.Free() == old(table.Free())
      ensures table.View() == if Info(c) == ACK then OnAck(old(table.View()), c[2]) else old(table.View())
      ensures View() == if Info(c) != REQ then old(View())
                        else old(View())[RkeyOf(c) := Stored(ReqHdr(c), now + SOFT_TIMEOUT_INTERVAL)]
      ensures reply == if Info(c) == REQ then Some(BuildAck(c)) else None
    {
      hide ReqFits, ReqHdr, BuildAck, OnAck, FlowTable.Valid;
      reply := None;
      if Info(c) == REQ {
        Accept(c, now);
        reply := Some(BuildAck(c));
      } else if Info(c) == ACK {
        table.OnAck(c[2]);
      }
    }

    /** The tables and results are those of Recv from the tables fs and rs; the free ids are unchanged. */
    ghost predicate Received(table: FlowTable, was: Before, c: seq<u8>, now: int, pkt: Option<seq<u8>>,
                             reply: Option<seq<u8>>)
      requires Understood(was.rs, c)
      reads this, rflows.Values, table, table.flows.Values, table.rindex, table.pool, table.pool.pool
    {
      && Valid() && table.Valid() && table.Free() == was.free
      && F.Recv(was.fs, was.rs, c, now) == Receiving(table.View(), View(), pkt, reply)
    }

    /** recv_compress */
    method RecvCompress(table: FlowTable, c: seq<u8>, now: int, ghost was: Before)
      returns (pkt: Option<seq<u8>>, reply: Option<seq<u8>>)
      requires Valid() && table.Valid() && was == Before(table.View(), View(), table.Free()) && Understood(was.rs, c)
      modifies this, rflows.Values, table.flows.Values
      ensures Received(table, was, c, now, pkt, reply)
    {
      hide LooksLikeIp, Restorable, Restore, HdrAfter, ReqFits, ReqHdr, BuildAck, OnAck, FlowTable.Valid;
      hide Valid, View, FlowTable.View, FlowTable.Free, Untouched, SOFT_TIMEOUT_INTERVAL;
      pkt, reply := None, None;
      if LooksLikeIp(c) {
        IpIsLong(c);
        pkt := Some(Untouched(c));
        return;
      }
      if Type(c) != CTL {
        var p := Decompress(c, now);
        return Some(p), None;
      }
      reply := Control(table, c, now);
    }

    /** timer_event, for the receiving side */
    method Timer(now: int)
      requires Valid()
      modifies this
      ensures Valid()
      ensures View() == map k | k in old(View()) && now < old(View())[k].timeout :: old(View())[k]
    {
      var todo := rflows.Keys;
      while todo != {}
        invariant Valid() && todo <= rflows.Keys
        invariant forall k :: k in rflows ==> k in old(rflows) && rflows[k] == old(rflows)[k]
        invariant forall k :: k in old(rflows) && (k in todo || now < old(rflows)[k].timeout) ==> k in rflows
        invariant forall k :: k in rflows && k !in todo ==> now < rflows[k].timeout
      {
        var k :| k in todo;
        todo := todo - {k};
        if now >= rflows[k].timeout {
          rflows := rflows - {k};
        }
      }
    }
  }
}
