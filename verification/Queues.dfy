/** The queues between the layers of split.c: upper_recv_list and lower_send_list. */
module Queues {
  import opened Bytes
  import opened Packets

  class Fifo<T> {
    var items: seq<T>

    constructor ()
      ensures items == []
    {
      items := [];
    }

    method Push(x: T)
      modifies this
      ensures items == old(items) + [x]
    {
      items := items + [x];
    }

    method Pop() returns (x: T)
      requires items != []
      modifies this
      ensures old(items) == [x] + items
    {
      x, items := items[0], items[1..];
    }
  }

  /** A data_node_t has room for one frame; what is longer is cut. */
  function Kept(bytes: seq<u8>): (r: seq<u8>)
    ensures r <= bytes && |r| <= LINK_MTU && (|bytes| <= LINK_MTU ==> r == bytes)
  {
    if |bytes| <= LINK_MTU then bytes else bytes[..LINK_MTU]
  }

  class DataList {
    const list: Fifo<seq<u8>>

    constructor ()
      ensures list.items == [] && fresh(list)
    {
      list := new Fifo();
    }

    /** put_upper_recv_list and put_lower_send_list */
    method Put(bytes: seq<u8>)
      modifies list
      ensures list.items == old(list.items) + [Kept(bytes)]
    {
      list.Push(if |bytes| <= LINK_MTU then bytes else bytes[..LINK_MTU]);
    }

    /** upper_recv: the oldest message, as far as the caller has room, and how much of it is lost. */
    method UpperRecv(room: nat) returns (ret: int, data: seq<u8>)
      modifies list
      ensures (ret, data, list.items) == Received(old(list.items), room)
    {
      if list.items != [] {
        var r := list.Pop();
        var len := if |r| <= room then |r| else room;
        return |r| - len, r[..len];
      }
      return -1, [];
    }

    /** lower_fetch: the oldest frame whole, or not at all. */
    method LowerFetch(room: nat) returns (ret: int, data: seq<u8>)
      modifies list
      ensures (ret, data, list.items) == Fetched(old(list.items), room)
    {
      if list.items != [] {
        var s := list.Pop();
        if |s| <= room {
          return 0, s;
        }
        return -1, [];
      }
      return 0, [];
    }
  }

  function Received(q: seq<seq<u8>>, room: nat): (int, seq<u8>, seq<seq<u8>>) {
    if q == [] then (-1, [], q)
    else
      var len := if |q[0]| <= room then |q[0]| else room;
      (|q[0]| - len, q[0][..len], q[1..])
  }

  function Fetched(q: seq<seq<u8>>, room: nat): (int, seq<u8>, seq<seq<u8>>) {
    if q == [] then (0, [], q)
    else if |q[0]| <= room then (0, q[0], q[1..])
    else (-1, [], q[1..])
  }

  // ----- first in, first out -----

  /** What happens to one of the lists: something is put, or its reader comes with some room. */
  datatype Event = Put(bytes: seq<u8>) | Recv(room: nat) | Fetch(room: nat)

  function After(q: seq<seq<u8>>, events: seq<Event>): seq<seq<u8>> {
    if events == [] then q
    else
      var p := After(q, events[..|events| - 1]);
      match events[|events| - 1]
      case Put(bytes) => p + [Kept(bytes)]
      case Recv(room) => Received(p, room).2
      case Fetch(room) => Fetched(p, room).2
  }

  /** What was put, as it was kept. */
  function Puts(events: seq<Event>): seq<seq<u8>> {
    if events == [] then []
    else Puts(events[..|events| - 1])
         + if events[|events| - 1].Put? then [Kept(events[|events| - 1].bytes)] else []
  }

  /** How often a reader found something. */
  function Taken(q: seq<seq<u8>>, events: seq<Event>): nat {
    if events == [] then 0
    else
      var rest := events[..|events| - 1];
      Taken(q, rest) + if events[|events| - 1].Put? || After(q, rest) == [] then 0 else 1
  }

  /** Whatever is put and read in whatever order, the list holds what was put behind its old contents, in order,
      without the first elements, one for each reader that found something: nothing is lost, doubled or overtaken. */
  lemma {:induction false} FirstInFirstOut(q: seq<seq<u8>>, events: seq<Event>)
    ensures Taken(q, events) <= |q + Puts(events)|
    ensures After(q, events) == (q + Puts(events))[Taken(q, events)..]
  {
    hide Received, Fetched, Kept;
    if events != [] {
      var rest, e := events[..|events| - 1], events[|events| - 1];
      FirstInFirstOut(q, rest);
      if e.Put? {
        PutBehind(q, Puts(rest), Kept(e.bytes), Taken(q, rest));
      } else {
        ReadersTakeOne(After(q, rest), e);
        assert Puts(events) == Puts(rest);
      }
    } else {
      assert q + [] == q;
    }
  }

  lemma PutBehind(q: seq<seq<u8>>, puts: seq<seq<u8>>, x: seq<u8>, k: nat)
    requires k <= |q + puts|
    ensures q + (puts + [x]) == (q + puts) + [x] && (q + (puts + [x]))[k..] == (q + puts)[k..] + [x]
  {
  }

  lemma ReadersTakeOne(p: seq<seq<u8>>, e: Event)
    requires !e.Put?
    ensures (if e.Recv? then Received(p, e.room).2 else Fetched(p, e.room).2) == if p == [] then p else p[1..]
  {
  }

  /** A reader with room for a frame gets the next one exactly as it was put, if that was at most a frame; a shorter
      reader of a message gets its beginning, one of a frame nothing. */
  lemma NextIsWhole(q: seq<seq<u8>>, events: seq<Event>, room: nat)
    requires Taken(q, events) < |q + Puts(events)|
    ensures var next := (q + Puts(events))[Taken(q, events)];
            && Received(After(q, events), room).1 <= next
            && (|next| <= room <==> Received(After(q, events), room).0 == 0)
            && (|next| <= room ==> Received(After(q, events), room).1 == next == Fetched(After(q, events), room).1)
            && (|next| <= room <==> Fetched(After(q, events), room).0 == 0)
  {
    FirstInFirstOut(q, events);
  }
}
