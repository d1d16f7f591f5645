/** The pool of flow ids of lib/idpool.c: a queue in a circular array. */
module IdPools {
  class IdPool {
    const n: nat
    const pool: array<int>
    var head: nat
    var tail: nat
    var empty: bool

    ghost predicate Valid()
      reads this, pool
    {
      && 0 < n == pool.Length && head < n && tail < n
      && (empty ==> head == if tail + 1 == n then 0 else tail + 1)
    }

    /** The ids in the order in which they will be handed out. */
    ghost function Contents(): (s: seq<int>)
      requires Valid()
      ensures |s| <= n
      reads this, pool
    {
      if empty then []
      else if head <= tail then pool[head..tail + 1]
      else pool[head..] + pool[..tail + 1]
    }

    /** init_idpool */
    constructor (n: nat)
      requires n > 0
      ensures Valid() && this.n == n && fresh(pool)
      ensures Contents() == seq(n, i => i)
    {
      this.n := n;
      pool := new int[n](i => i);
      head := 0;
      tail := n - 1;
      empty := false;
      new;
      assert pool[..] == seq(n, i => i);
    }

    /** get_id: the oldest id, or -1 from an empty pool. */
    method GetId() returns (id: int)
      requires Valid()
      modifies this
      ensures Valid()
      ensures old(Contents()) == [] ==> id == -1 && Contents() == []
      ensures old(Contents()) != [] ==> id == old(Contents())[0] && Contents() == old(Contents())[1..]
    {
      id := -1;
      var gettingEmpty := head == tail;
      if !empty {
        ghost var was := Contents();
        id := pool[head];
        Wraps(head, n);
        head := (head + 1) % n;
        empty := gettingEmpty;
        assert Contents() == was[1..];
      }
    }

    /** release_id: puts an id at the end; a full pool ignores it. */
    method ReleaseId(id: int)
      requires Valid()
      modifies this, pool
      ensures Valid()
      ensures |old(Contents())| == n ==> Contents() == old(Contents())
      ensures |old(Contents())| < n ==> Contents() == old(Contents()) + [id]
    {
      ghost var was := Contents();
      Wraps(tail, n);
      var tailNext := (tail + 1) % n;
      var isFull := !empty && tailNext == head;
      if !isFull {
        tail := tailNext;
        pool[tail] := id;
        empty := false;
        assert Contents() == was + [id];
      }
    }
  }

  lemma Wraps(i: nat, n: nat)
    requires i < n
    ensures (i + 1) % n == if i + 1 == n then 0 else i + 1
  {
  }
}
