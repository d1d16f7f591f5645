/** The chained hash map of include/hmap.h and lib/hmap.c, over nodes that carry their own hash and link. */
module HashMap {
  import opened Masks
  import opened Sequences

  class Node {
    var hash: nat
    var next: Node?
  }

  ghost function Head(s: seq<Node>): Node? {
    if s == [] then null else s[0]
  }

  /** `head` starts a chain of exactly the nodes s, in this order. */
  ghost predicate Chain(head: Node?, s: seq<Node>)
    reads s
  {
    head == Head(s) && Distinct(s) && forall k :: 0 <= k < |s| ==> s[k].next == Head(s[k + 1..])
  }

  /** All nodes in the order in which iteration visits them. */
  ghost function Flatten(chains: seq<seq<Node>>): seq<Node> {
    if chains == [] then [] else chains[0] + Flatten(chains[1..])
  }

  ghost function NodesOf(chains: seq<seq<Node>>): set<Node> {
    set b, k | 0 <= b < |chains| && 0 <= k < |chains[b]| :: chains[b][k]
  }

  ghost function ToSet(s: seq<Node>): set<Node> {
    set x | x in s
  }

  lemma {:induction false} FlattenSplit(chains: seq<seq<Node>>, b: nat)
    requires b < |chains|
    ensures Flatten(chains) == Flatten(chains[..b]) + chains[b] + Flatten(chains[b + 1..])
  {
    if b == 0 {
      assert chains[..0] == [];
    } else {
      FlattenSplit(chains[1..], b - 1);
      assert chains[1..][..b - 1] == chains[..b][1..] && chains[1..][b..] == chains[b + 1..];
    }
  }

  lemma FlattenReplace(chains: seq<seq<Node>>, b: nat, s: seq<Node>)
    requires b < |chains|
    ensures Flatten(chains[b := s]) == Flatten(chains[..b]) + s + Flatten(chains[b + 1..])
  {
    FlattenSplit(chains[b := s], b);
    assert chains[b := s][..b] == chains[..b] && chains[b := s][b + 1..] == chains[b + 1..];
  }

  lemma {:induction false} FlattenNodes(chains: seq<seq<Node>>)
    ensures NodesOf(chains) == ToSet(Flatten(chains))
    ensures forall x :: x in Flatten(chains) <==> x in NodesOf(chains)
  {
    if chains != [] {
      FlattenNodes(chains[1..]);
      forall x | x in NodesOf(chains) ensures x in chains[0] || x in NodesOf(chains[1..]) {
        var b, k :| 0 <= b < |chains| && 0 <= k < |chains[b]| && chains[b][k] == x;
        if b > 0 {
          assert chains[1..][b - 1][k] == x;
        }
      }
      forall x | x in NodesOf(chains[1..]) ensures x in NodesOf(chains) {
        var b, k :| 0 <= b < |chains[1..]| && 0 <= k < |chains[1..][b]| && chains[1..][b][k] == x;
        assert chains[b + 1][k] == x;
      }
    }
  }

  lemma ChainInNodes(chains: seq<seq<Node>>, b: nat)
    requires b < |chains|
    ensures forall x :: x in chains[b] ==> x in NodesOf(chains)
  {
    forall x | x in chains[b] ensures x in NodesOf(chains) {
      var k :| 0 <= k < |chains[b]| && chains[b][k] == x;
    }
  }

  lemma ChainCons(node: Node, s: seq<Node>)
    requires Chain(node.next, s) && node !in s
    ensures Chain(node, [node] + s)
  {
    var t := [node] + s;
    forall k | 0 <= k < |t| ensures t[k].next == Head(t[k + 1..]) {
      if k == 0 {
        assert t[1..] == s;
      } else {
        assert t[k + 1..] == s[k..] && s[k - 1].next == Head(s[k - 1 + 1..]);
      }
    }
  }

  ghost predicate HashTo(s: seq<Node>, mask: nat, b: nat)
    reads s
  {
    forall k :: 0 <= k < |s| ==> And(s[k].hash, mask) == b
  }

  /** Bucket b of a map: a chain of nodes that hash to it. */
  ghost predicate Bucket(head: Node?, s: seq<Node>, mask: nat, b: nat)
    reads s
  {
    Chain(head, s) && HashTo(s, mask, b)
  }

  lemma BucketCons(node: Node, s: seq<Node>, mask: nat, b: nat)
    requires Bucket(node.next, s, mask, b) && node !in s && And(node.hash, mask) == b
    ensures Bucket(node, [node] + s, mask, b)
  {
    ChainCons(node, s);
  }

  class Hmap {
    const one: array<Node?>
    var buckets: array<Node?>
    var mask: nat
    var n: nat
    ghost var chains: seq<seq<Node>>

    ghost predicate Valid()
      reads this, buckets, NodesOf(chains)
    {
      && one.Length == 1 && (mask == 0 <==> buckets == one)
      && IsMask(mask) && buckets.Length == |chains| == mask + 1
      && (forall b :: 0 <= b < |chains| ==> Bucket(buckets[b], chains[b], mask, b))
      && n == |Flatten(chains)|
    }

    /** The nodes of the map, in iteration order. */
    ghost function Seq(): seq<Node>
      reads this
    {
      Flatten(chains)
    }

    /** hmap_init */
    constructor ()
      ensures Valid() && Seq() == [] && mask == 0 && fresh(one) && fresh(buckets)
    {
      one := new Node?[1](_ => null);
      buckets := one;
      mask := 0;
      n := 0;
      chains := [[]];
    }

    /** hmap_insert_fast: the node becomes the first of its bucket. */
    method InsertFast(node: Node, hash: nat)
      requires Valid() && node !in NodesOf(chains)
      modifies this`n, this`chains, buckets, node
      ensures Valid() && node.hash == hash && n == old(n) + 1
      ensures var b := And(hash, mask);
              b < |old(chains)| && chains == old(chains)[b := [node] + old(chains)[b]]
      ensures NodesOf(chains) == old(NodesOf(chains)) + {node}
    {
      hide Bucket, And, IsMask;
      AndBound(hash, mask);
      var b := And(hash, mask);
      ghost var was := chains;
      forall i | 0 <= i < |was| ensures node !in was[i] {
        ChainInNodes(was, i);
      }
      node.hash := hash;
      node.next := buckets[b];
      buckets[b] := node;
      n := n + 1;
      chains := chains[b := [node] + chains[b]];
      MoreNodes(was, b, node);
      hide NodesOf, Flatten;
      FlattenSplit(was, b);
      FlattenReplace(was, b, [node] + was[b]);
      forall i | 0 <= i < |chains| ensures Bucket(buckets[i], chains[i], mask, i) {
        assert old(Bucket(buckets[i], was[i], mask, i));
        if i == b {
          BucketCons(node, was[b], mask, b);
        }
      }
    }

    // ----- iteration -----

    /** hmap_next__ */
    method FirstFrom(start: nat) returns (node: Node?)
      requires Valid() && start <= mask + 1
      ensures node == Head(Flatten(chains[start..]))
    {
      hide Flatten;
      for i := start to mask + 1
        invariant Flatten(chains[start..]) == Flatten(chains[i..])
      {
        FlattenNext(chains, i);
        node := buckets[i];
        assert Bucket(node, chains[i], mask, i);
        if node != null {
          return;
        }
        assert [] + Flatten(chains[i + 1..]) == Flatten(chains[i + 1..]);
      }
      assert chains[mask + 1..] == [];
      FlattenNone();
      return null;
    }

    /** hmap_first */
    method First() returns (node: Node?)
      requires Valid()
      ensures node == Head(Seq())
    {
      assert chains[0..] == chains;
      node := FirstFrom(0);
    }

    /** hmap_next: the node behind the i-th in iteration order. */
    method Next(node: Node, ghost i: nat) returns (following: Node?)
      requires Valid() && i < |Seq()| && Seq()[i] == node
      ensures following == Head(Seq()[i + 1..])
    {
      hide Flatten, And, IsMask;
      ghost var b, k := Locate(i);
      FlattenSplit(chains, b);
      ghost var c, rest := chains[b], Flatten(chains[b + 1..]);
      assert Seq()[i + 1..] == c[k + 1..] + rest;
      assert Bucket(buckets[b], c, mask, b) && node.next == Head(c[k + 1..]);
      if node.next != null {
        return node.next;
      }
      assert c[k + 1..] + rest == rest;
      AndBound(node.hash, mask);
      following := FirstFrom(And(node.hash, mask) + 1);
    }

    // ----- lookup by hash -----

    /** hmap_first_with_hash */
    method FirstWithHash(hash: nat) returns (node: Node?)
      requires Valid()
      ensures node == Head(Matches(Seq(), hash))
    {
      hide Flatten, And, IsMask, Matches;
      AndBound(hash, mask);
      var b := And(hash, mask);
      assert Bucket(buckets[b], chains[b], mask, b);
      node := NextMatch(buckets[b], hash, chains[b]);
      MatchesInBucket(hash);
    }

    /** hmap_next_with_hash: from the j-th node with its hash to the next one. */
    method NextWithHash(node: Node, ghost j: nat) returns (following: Node?)
      requires Valid() && j < |Matches(Seq(), node.hash)| && Matches(Seq(), node.hash)[j] == node
      ensures following == Head(Matches(Seq(), node.hash)[j + 1..])
    {
      hide Flatten, And, IsMask, Matches;
      AndBound(node.hash, mask);
      ghost var b := And(node.hash, mask);
      MatchesInBucket(node.hash);
      ghost var c := chains[b];
      assert Bucket(buckets[b], c, mask, b);
      ghost var k := MatchPlace(c, node.hash, j);
      ChainDrop(buckets[b], c, k);
      following := NextMatch(node.next, node.hash, c[k + 1..]);
      MatchesInBucket(node.hash);
      k := MatchPlace(c, node.hash, j);
    }

    /** All nodes with a hash are in the bucket of that hash. */
    lemma MatchesInBucket(hash: nat)
      requires Valid()
      ensures And(hash, mask) < |chains| && Matches(Seq(), hash) == Matches(chains[And(hash, mask)], hash)
    {
      AndBound(hash, mask);
      assert forall b :: 0 <= b < |chains| ==> Bucket(buckets[b], chains[b], mask, b);
      assert forall b :: 0 <= b < |chains| ==> HashTo(chains[b], mask, b);
      MatchesFrom(chains, mask, hash, 0);
      assert chains[0..] == chains;
    }

    // ----- removal -----

    /** hmap_remove: walks the node's bucket and unlinks it. */
    method Remove(node: Node, ghost i: nat)
      requires Valid() && i < |Seq()| && Seq()[i] == node
      modifies this`n, this`chains, buckets, NodesOf(chains)`next
      ensures Valid() && n == old(n) - 1
      ensures Seq() == old(Seq()[..i] + Seq()[i + 1..])
      ensures NodesOf(chains) <= old(NodesOf(chains))
    {
      hide Flatten, And, IsMask, Bucket;
      AndBound(node.hash, mask);
      var b := And(node.hash, mask);
      ghost var b', k := Locate(i);
      ghost var was := chains;
      ChainInNodes(was, b);
      forall a | 0 <= a < |was| && a != b ensures forall x :: x in was[a] ==> x !in was[b] {
        Apart(buckets[a], buckets[b], was[a], was[b], mask, a, b);
      }
      Unlink(node, b, k);
      n := n - 1;
      chains := chains[b := was[b][..k] + was[b][k + 1..]];
      CutSeq(was, b, k, i);
      CutNodes(was, b, k);
      forall a | 0 <= a < |chains| ensures Bucket(buckets[a], chains[a], mask, a) {
        assert old(Bucket(buckets[a], was[a], mask, a));
      }
    }

    /** The pointer work of hmap_remove within one bucket. */
    method Unlink(node: Node, b: nat, ghost k: nat)
      requires b < buckets.Length == |chains| && k < |chains[b]| && chains[b][k] == node
      requires Bucket(buckets[b], chains[b], mask, b)
      modifies buckets, (set x | x in chains[b])`next
      ensures Bucket(buckets[b], chains[b][..k] + chains[b][k + 1..], mask, b)
      ensures forall a :: 0 <= a < buckets.Length && a != b ==> buckets[a] == old(buckets[a])
    {
      ghost var c := chains[b];
      var prev := FindPrev(node, b, k);
      assert c[k].next == Head(c[k + 1..]);
      if prev == null {
        buckets[b] := node.next;
      } else {
        prev.next := node.next;
      }
      CutBucket(buckets[b], c, k, mask, b);
    }

    /** The walk of hmap_remove: the node that links to `node`, or null at the head of the bucket. */
    method FindPrev(node: Node, b: nat, ghost k: nat) returns (prev: Node?)
      requires b < buckets.Length == |chains| && k < |chains[b]| && chains[b][k] == node
      requires Chain(buckets[b], chains[b])
      ensures prev == if k == 0 then null else chains[b][k - 1]
    {
      ghost var c := chains[b];
      var cur := buckets[b];
      prev := null;
      ghost var at := 0;
      assert c[0..] == c;
      while cur != node
        invariant at <= k && cur == Head(c[at..]) && prev == if at == 0 then null else c[at - 1]
        decreases k - at
      {
        assert c[at..][0] == c[at];
        prev, cur := cur, cur.next;
        at := at + 1;
      }
      assert at == k by {
        assert c[at..][0] == c[at];
      }
    }

    // ----- growing -----

    /** The parts of a map that do not depend on its nodes. */
    ghost predicate Shaped()
      reads this
    {
      one.Length == 1 && (mask == 0 <==> buckets == one) && buckets.Length == mask + 1
    }

    /** hmap_swap and hmap_moved: the structs change places, and a map with a single bucket keeps it inside. */
    method Swap(other: Hmap)
      requires Shaped() && other.Shaped() && other != this
      requires one != other.one && buckets != other.buckets
      modifies this, one, other, other.one
      ensures mask == old(other.mask) && n == old(other.n) && chains == old(other.chains)
      ensures buckets[..] == old(other.buckets[..]) && Shaped()
      ensures buckets == if mask == 0 then one else old(other.buckets)
    {
      var theirs, mine := other.one[0], one[0];
      one[0] := theirs;
      other.one[0] := mine;
      buckets, other.buckets := other.buckets, buckets;
      mask, other.mask := other.mask, mask;
      n, other.n := other.n, n;
      chains, other.chains := other.chains, chains;
      if mask == 0 {
        buckets := one;
      }
      if other.mask == 0 {
        other.buckets := other.one;
      }
    }

    /** The first part of resize: an empty map with the new number of buckets. */
    constructor WithBuckets(newMask: nat)
      requires IsMask(newMask)
      ensures Valid() && Shaped() && Seq() == [] && NodesOf(chains) == {} && mask == newMask
      ensures fresh(one) && fresh(buckets)
    {
      hide Flatten, IsMask, And;
      one := new Node?[1](_ => null);
      new;
      buckets := one;
      mask := 0;
      n := 0;
      if newMask != 0 {
        buckets := new Node?[newMask + 1](_ => null);
        mask := newMask;
      }
      chains := seq(newMask + 1, _ => []);
      FlattenEmpty(newMask + 1);
      FlattenNodes(chains);
    }

    /** The inner loop of resize: the nodes of one old bucket move into `this`. */
    method TakeChain(head: Node?, ghost c: seq<Node>)
      requires Valid() && Chain(head, c) && forall x :: x in c ==> x !in NodesOf(chains)
      modifies this`n, this`chains, buckets, set x | x in c
      ensures Valid() && n == old(n) + |c|
      ensures NodesOf(chains) == old(NodesOf(chains)) + ToSet(c)
      ensures forall x :: x in c ==> x.hash == old(x.hash)
    {
      ChainHead(head, c);
      hide Valid, NodesOf, And, ToSet, Flatten, Chain, Distinct;
      var node := head;
      ghost var rest := c;
      while node != null
        invariant node == Head(rest) && Chain(node, rest) && ToSet(rest) <= ToSet(c)
        invariant Valid() && n == old(n) + |c| - |rest|
        invariant forall x :: x in rest ==> x !in NodesOf(chains)
        invariant NodesOf(chains) + ToSet(rest) == old(NodesOf(chains)) + ToSet(c)
        invariant forall x :: x in ToSet(c) ==> x.hash == old(x.hash)
        decreases |rest|
      {
        FirstToSet(rest);
        node := TakeNode(node, rest);
        rest := rest[1..];
      }
      FirstToSet(rest);
      ToSetHas(c);
    }

    /** One step of the inner loop of resize. */
    method TakeNode(node: Node, ghost s: seq<Node>) returns (next: Node?)
      requires Valid() && Chain(node, s) && s != [] && forall x :: x in s ==> x !in NodesOf(chains)
      modifies this`n, this`chains, buckets, node
      ensures Valid() && n == old(n) + 1
      ensures NodesOf(chains) == old(NodesOf(chains)) + {node}
      ensures next == Head(s[1..]) && Chain(next, s[1..])
      ensures (forall x :: x in s[1..] ==> x !in NodesOf(chains)) && node.hash == old(node.hash)
    {
      hide Valid, NodesOf, And, Flatten;
      next := node.next;
      ChainDrop(node, s, 0);
      InsertFast(node, node.hash);
    }

    /** The outer loop of resize. This map is left with links into `tmp`. */
    method MoveAll(tmp: Hmap)
      requires Valid() && tmp != this && tmp.Valid() && NodesOf(tmp.chains) == {} && tmp.n == 0
      requires tmp.buckets != buckets && tmp.buckets != one
      modifies tmp`n, tmp`chains, tmp.buckets, NodesOf(chains)
      ensures tmp.Valid() && tmp.n == n && NodesOf(tmp.chains) == NodesOf(chains)
      ensures forall x :: x in NodesOf(chains) ==> x.hash == old(x.hash)
    {
      hide And, IsMask, Flatten;
      SeqDistinct();
      FlattenNone();
      assert chains[..0] == [];
      for i := 0 to mask + 1
        invariant tmp.Valid() && tmp.n == |Flatten(chains[..i])|
        invariant NodesOf(tmp.chains) == ToSet(Flatten(chains[..i]))
        invariant forall b :: i <= b < |chains| ==> Bucket(buckets[b], chains[b], mask, b)
        invariant forall x :: x in NodesOf(chains) ==> x.hash == old(x.hash)
      {
        OneMore(chains, i);
        ChainInNodes(chains, i);
        assert Bucket(buckets[i], chains[i], mask, i);
        tmp.TakeChain(buckets[i], chains[i]);
      }
      assert chains[..mask + 1] == chains;
      FlattenNodes(chains);
    }

    /** resize: every node moves to its bucket under the new mask. */
    method Resize(newMask: nat)
      requires Valid() && IsMask(newMask)
      modifies this, one, buckets, NodesOf(chains)
      ensures Valid() && mask == newMask && n == old(n)
      ensures NodesOf(chains) == old(NodesOf(chains))
      ensures forall x :: x in old(NodesOf(chains)) ==> x.hash == old(x.hash)
    {
      var tmp := new Hmap.WithBuckets(newMask);
      FlattenNodes([]);
      MoveAll(tmp);
      ghost var theirs := tmp.buckets[..];
      assert forall b :: 0 <= b < |tmp.chains| ==> Bucket(theirs[b], tmp.chains[b], newMask, b);
      Swap(tmp);
      assert forall b :: 0 <= b < |chains| ==> buckets[b] == theirs[b];
    }

    /** hmap_expand */
    method Expand()
      requires Valid() && n < Pow2(64)
      modifies this, one, buckets, NodesOf(chains)
      ensures Valid() && n == old(n) && mask >= old(mask)
      ensures n / 2 <= mask
      ensures NodesOf(chains) == old(NodesOf(chains))
      ensures forall x :: x in old(NodesOf(chains)) ==> x.hash == old(x.hash)
    {
      var newMask := CalcMask(n);
      if newMask > mask {
        Resize(newMask);
      }
    }

    /** hmap_insert: afterwards the map is at most twice as full as it has buckets. */
    method Insert(node: Node, hash: nat)
      requires Valid() && node !in NodesOf(chains) && n + 1 < Pow2(64)
      modifies this, one, buckets, NodesOf(chains), node
      ensures Valid() && n == old(n) + 1 && n <= 2 * mask + 1
      ensures NodesOf(chains) == old(NodesOf(chains)) + {node} && node.hash == hash
      ensures forall x :: x in old(NodesOf(chains)) ==> x.hash == old(x.hash)
    {
      hide Valid, And;
      ghost var nodes := NodesOf(chains);
      assert forall x :: x in nodes ==> allocated(x);
      hide NodesOf;
      InsertFast(node, hash);
      assert forall x :: x in nodes ==> x.hash == old(x.hash);
      if n / 2 > mask {
        Expand();
      }
    }

    // ----- safe iteration -----

    /** HMAP_FOR_EACH_SAFE with a body that removes the nodes in `doomed`: every node is visited exactly once, in
        order, and exactly the others are left. */
    method RemoveEach(doomed: set<Node>) returns (ghost visited: seq<Node>)
      requires Valid()
      modifies this`n, this`chains, buckets, NodesOf(chains)`next
      ensures Valid() && visited == old(Seq()) && Seq() == Without(old(Seq()), doomed)
    {
      hide Valid, Flatten, Bucket, And, IsMask;
      visited := [];
      assert Without(visited, doomed) == [] && forall x :: x in NodesOf(chains) ==> allocated(x);
      hide NodesOf, Without, Seq, Kept;
      ghost var kept: seq<Node>, rest := [], Seq();
      var next := First();
      var node := next;
      while node != null
        invariant Valid() && node == Head(rest)
        invariant Seq() == kept + rest && visited + rest == old(Seq()) && kept == Without(visited, doomed)
        invariant NodesOf(chains) <= old(NodesOf(chains))
        decreases |rest|
      {
        StepOver(visited, rest);
        WithoutOne(visited, node, doomed);
        next := Visit(node, doomed, kept, rest);
        kept := Kept(kept, rest[0], doomed);
        visited := visited + [rest[0]];
        rest := rest[1..];
        node := next;
      }
      assert visited + [] == visited && kept + [] == kept;
    }

    /** One round of the safe iteration: the next node is looked up before the body removes this one. */
    method Visit(node: Node, doomed: set<Node>, ghost kept: seq<Node>, ghost rest: seq<Node>) returns (next: Node?)
      requires Valid() && rest != [] && rest[0] == node && Seq() == kept + rest
      modifies this`n, this`chains, buckets, NodesOf(chains)`next
      ensures Valid() && next == Head(rest[1..]) && Seq() == Kept(kept, node, doomed) + rest[1..]
      ensures NodesOf(chains) <= old(NodesOf(chains))
    {
      assert forall x :: x in NodesOf(chains) ==> allocated(x);
      hide Valid, NodesOf, Flatten, Seq;
      StepOver(kept, rest);
      next := Next(node, |kept|);
      if node in doomed {
        Remove(node, |kept|);
      }
    }

    /** No node occurs twice. */
    lemma SeqDistinct()
      requires Valid()
      ensures Distinct(Seq())
    {
      assert forall b :: 0 <= b < |chains| ==> Bucket(buckets[b], chains[b], mask, b);
      FlattenDistinct(chains, mask, 0);
      assert chains[0..] == chains;
    }

    /** Where the i-th node is. */
    lemma Locate(i: nat) returns (b: nat, k: nat)
      requires Valid() && i < |Seq()|
      ensures b < |chains| && k < |chains[b]| && chains[b][k] == Seq()[i]
      ensures i == |Flatten(chains[..b])| + k && And(Seq()[i].hash, mask) == b
    {
      b, k := FindPlace(chains, i);
      assert Bucket(buckets[b], chains[b], mask, b);
    }
  }

  // ----- nodes with a given hash -----

  /** The nodes with the given hash, in order. */
  ghost function Matches(s: seq<Node>, hash: nat): seq<Node>
    reads s
  {
    if s == [] then []
    else (if s[0].hash == hash then [s[0]] else []) + Matches(s[1..], hash)
  }

  /** They are exactly the nodes with that hash. */
  lemma {:induction false} MatchesExact(s: seq<Node>, hash: nat)
    ensures forall x :: x in Matches(s, hash) <==> x in s && x.hash == hash
    ensures Distinct(s) ==> Distinct(Matches(s, hash))
  {
    if s != [] {
      MatchesExact(s[1..], hash);
      assert s == [s[0]] + s[1..] && s[0] in s;
      if Distinct(s) {
        assert s[0] !in s[1..];
      }
    }
  }

  /** hmap_next_with_hash__ */
  method NextMatch(from: Node?, hash: nat, ghost s: seq<Node>) returns (node: Node?)
    requires Chain(from, s)
    ensures node == Head(Matches(s, hash))
  {
    node := from;
    ghost var rest := s;
    while node != null && node.hash != hash
      invariant Chain(node, rest) && Matches(rest, hash) == Matches(s, hash)
      decreases |rest|
    {
      ChainDrop(node, rest, 0);
      node := node.next;
      rest := rest[1..];
    }
  }

  lemma ChainHead(head: Node?, s: seq<Node>)
    requires Chain(head, s)
    ensures head == Head(s)
  {
  }

  lemma ChainDrop(head: Node?, s: seq<Node>, k: nat)
    requires Chain(head, s) && k < |s|
    ensures Chain(s[k].next, s[k + 1..]) && s[k].next == Head(s[k + 1..])
  {
    var t := s[k + 1..];
    forall j | 0 <= j < |t| ensures t[j].next == Head(t[j + 1..]) {
      assert t[j] == s[k + 1 + j] && t[j + 1..] == s[k + 1 + j + 1..];
    }
  }

  lemma {:induction false} MatchesAppend(a: seq<Node>, b: seq<Node>, hash: nat)
    ensures Matches(a + b, hash) == Matches(a, hash) + Matches(b, hash)
  {
    if a == [] {
      assert a + b == b;
    } else {
      MatchesAppend(a[1..], b, hash);
      assert (a + b)[1..] == a[1..] + b && (a + b)[0] == a[0];
    }
  }

  lemma {:induction false} NoMatches(s: seq<Node>, hash: nat)
    requires forall k :: 0 <= k < |s| ==> s[k].hash != hash
    ensures Matches(s, hash) == []
  {
    if s != [] {
      NoMatches(s[1..], hash);
    }
  }

  lemma {:induction false} MatchesFrom(chains: seq<seq<Node>>, mask: nat, hash: nat, i: nat)
    requires i <= |chains| && And(hash, mask) < |chains|
    requires forall b :: 0 <= b < |chains| ==> HashTo(chains[b], mask, b)
    ensures Matches(Flatten(chains[i..]), hash)
         == if i <= And(hash, mask) then Matches(chains[And(hash, mask)], hash) else []
    decreases |chains| - i
  {
    hide And, Flatten, Matches;
    if i < |chains| {
      FlattenNext(chains, i);
      MatchesAppend(chains[i], Flatten(chains[i + 1..]), hash);
      MatchesFrom(chains, mask, hash, i + 1);
      if i != And(hash, mask) {
        assert HashTo(chains[i], mask, i);
        NoMatches(chains[i], hash);
      }
    } else {
      assert chains[i..] == [];
      FlattenNone();
      NoMatches([], hash);
    }
  }

  /** Where the j-th node with a hash is, and what is behind it. */
  lemma {:induction false} MatchPlace(s: seq<Node>, hash: nat, j: nat) returns (k: nat)
    requires j < |Matches(s, hash)|
    ensures k < |s| && s[k] == Matches(s, hash)[j] && s[k].hash == hash
    ensures Matches(s[k + 1..], hash) == Matches(s, hash)[j + 1..]
  {
    if s[0].hash == hash && j == 0 {
      k := 0;
    } else {
      k := MatchPlace(s[1..], hash, if s[0].hash == hash then j - 1 else j);
      assert s[1..][k + 1..] == s[k + 2..];
      k := k + 1;
    }
  }

  // ----- unlinking -----

  lemma CutBucket(head: Node?, c: seq<Node>, k: nat, mask: nat, b: nat)
    requires k < |c| && Distinct(c) && HashTo(c, mask, b)
    requires head == if k == 0 then Head(c[1..]) else c[0]
    requires k > 0 ==> c[k - 1].next == Head(c[k + 1..])
    requires forall j :: 0 <= j < |c| && j != k - 1 ==> c[j].next == Head(c[j + 1..])
    ensures Bucket(head, c[..k] + c[k + 1..], mask, b)
  {
    var t := c[..k] + c[k + 1..];
    forall j | 0 <= j < |t| ensures t[j].next == Head(t[j + 1..]) {
      if j < k {
        assert t[j] == c[j];
      } else {
        assert t[j] == c[j + 1] && t[j + 1..] == c[j + 2..];
      }
    }
  }

  lemma CutSeq(chains: seq<seq<Node>>, b: nat, k: nat, i: nat)
    requires b < |chains| && k < |chains[b]| && i == |Flatten(chains[..b])| + k
    ensures var c := chains[b];
            && i < |Flatten(chains)|
            && Flatten(chains[b := c[..k] + c[k + 1..]]) == Flatten(chains)[..i] + Flatten(chains)[i + 1..]
  {
    hide Flatten;
    var c := chains[b];
    FlattenSplit(chains, b);
    FlattenReplace(chains, b, c[..k] + c[k + 1..]);
  }

  /** Different buckets share no node. */
  lemma Apart(h: Node?, g: Node?, s: seq<Node>, t: seq<Node>, mask: nat, a: nat, b: nat)
    requires Bucket(h, s, mask, a) && Bucket(g, t, mask, b) && a != b
    ensures forall x :: x in s ==> x !in t
  {
  }

  lemma CutNodes(chains: seq<seq<Node>>, b: nat, k: nat)
    requires b < |chains| && k < |chains[b]|
    ensures NodesOf(chains[b := chains[b][..k] + chains[b][k + 1..]]) <= NodesOf(chains)
  {
    var t := chains[b := chains[b][..k] + chains[b][k + 1..]];
    forall x | x in NodesOf(t) ensures x in NodesOf(chains) {
      var a, j :| 0 <= a < |t| && 0 <= j < |t[a]| && t[a][j] == x;
      assert x in chains[a];
      ChainInNodes(chains, a);
    }
  }

  lemma FirstToSet(s: seq<Node>)
    ensures if s == [] then ToSet(s) == {} else ToSet(s) == {s[0]} + ToSet(s[1..])
  {
    if s != [] {
      assert s == [s[0]] + s[1..];
    }
  }

  lemma ToSetHas(s: seq<Node>)
    ensures forall x :: x in s <==> x in ToSet(s)
  {
  }

  lemma MoreNodes(chains: seq<seq<Node>>, b: nat, node: Node)
    requires b < |chains|
    ensures NodesOf(chains[b := [node] + chains[b]]) == NodesOf(chains) + {node}
  {
    hide NodesOf;
    var t := chains[b := [node] + chains[b]];
    FlattenNodes(chains);
    FlattenNodes(t);
    FlattenSplit(chains, b);
    FlattenReplace(chains, b, [node] + chains[b]);
    assert ToSet(Flatten(t)) == ToSet(Flatten(chains)) + {node};
  }

  lemma FlattenTake(chains: seq<seq<Node>>, i: nat)
    requires i < |chains|
    ensures Flatten(chains[..i + 1]) == Flatten(chains[..i]) + chains[i]
  {
    hide Flatten;
    var t := chains[..i + 1];
    FlattenSplit(t, i);
    FlattenNone();
    assert t[..i] == chains[..i] && t[i + 1..] == [];
  }

  lemma Earlier(a: seq<Node>, c: seq<Node>, rest: seq<Node>)
    requires Distinct(a + c + rest)
    ensures forall x :: x in c ==> x !in a
  {
    var s := a + c + rest;
    forall j, k | 0 <= j < |a| && 0 <= k < |c| ensures a[j] != c[k] {
      assert s[j] == a[j] && s[|a| + k] == c[k];
    }
  }

  /** The nodes of chain i come behind all earlier ones and are new. */
  lemma OneMore(chains: seq<seq<Node>>, i: nat)
    requires i < |chains| && Distinct(Flatten(chains))
    ensures Flatten(chains[..i + 1]) == Flatten(chains[..i]) + chains[i]
    ensures forall x :: x in chains[i] ==> x !in Flatten(chains[..i])
  {
    hide Flatten, Distinct;
    FlattenTake(chains, i);
    FlattenSplit(chains, i);
    Earlier(Flatten(chains[..i]), chains[i], Flatten(chains[i + 1..]));
  }

  lemma DistinctConcat(a: seq<Node>, b: seq<Node>)
    requires Distinct(a) && Distinct(b) && forall x :: x in a ==> x !in b
    ensures Distinct(a + b)
  {
    forall i, j | 0 <= i < j < |a + b| ensures (a + b)[i] != (a + b)[j] {
      assert i < |a| <= j ==> (a + b)[i] in a && (a + b)[j] in b;
    }
  }

  ghost function Kept(kept: seq<Node>, node: Node, doomed: set<Node>): seq<Node> {
    if node in doomed then kept else kept + [node]
  }

  ghost function Without(s: seq<Node>, doomed: set<Node>): seq<Node> {
    if s == [] then [] else Kept(Without(s[..|s| - 1], doomed), s[|s| - 1], doomed)
  }

  lemma WithoutOne(s: seq<Node>, node: Node, doomed: set<Node>)
    ensures Without(s + [node], doomed) == Kept(Without(s, doomed), node, doomed)
  {
    assert (s + [node])[..|s|] == s;
  }

  lemma StepOver(done: seq<Node>, rest: seq<Node>)
    requires rest != []
    ensures |done| < |done + rest| && (done + rest)[|done|] == Head(rest) == rest[0]
    ensures (done + rest)[..|done|] + (done + rest)[|done| + 1..] == done + rest[1..]
    ensures (done + rest)[|done| + 1..] == rest[1..] && done + [rest[0]] + rest[1..] == done + rest
  {
  }

  lemma {:induction false} FlattenDistinct(chains: seq<seq<Node>>, mask: nat, i: nat)
    requires i <= |chains| && forall b :: 0 <= b < |chains| ==> Distinct(chains[b]) && HashTo(chains[b], mask, b)
    ensures Distinct(Flatten(chains[i..]))
    ensures forall x :: x in Flatten(chains[i..]) ==> And(x.hash, mask) >= i
    decreases |chains| - i
  {
    hide And, Flatten;
    if i < |chains| {
      FlattenNext(chains, i);
      FlattenDistinct(chains, mask, i + 1);
      var c, rest := chains[i], Flatten(chains[i + 1..]);
      assert HashTo(c, mask, i);
      assert forall x :: x in c ==> And(x.hash, mask) == i;
      DistinctConcat(c, rest);
      forall x: Node | x in c + rest ensures And(x.hash, mask) >= i {
        assert x in c || x in rest;
      }
    } else {
      assert chains[i..] == [];
      FlattenNone();
    }
  }

  lemma {:induction false} FlattenEmpty(n: nat)
    ensures Flatten(seq(n, _ => [])) == []
  {
    if n > 0 {
      FlattenEmpty(n - 1);
      var e: seq<seq<Node>> := seq(n, _ => []);
      assert e[1..] == seq(n - 1, _ => []);
    }
  }

  lemma FlattenNone()
    ensures Flatten([]) == []
  {
  }

  lemma FlattenNext(chains: seq<seq<Node>>, i: nat)
    requires i < |chains|
    ensures Flatten(chains[i..]) == chains[i] + Flatten(chains[i + 1..])
  {
    assert chains[i..][1..] == chains[i + 1..];
  }

  lemma {:induction false} FindPlace(chains: seq<seq<Node>>, i: nat) returns (b: nat, k: nat)
    requires i < |Flatten(chains)|
    ensures b < |chains| && k < |chains[b]| && chains[b][k] == Flatten(chains)[i]
    ensures i == |Flatten(chains[..b])| + k
  {
    if i < |chains[0]| {
      b, k := 0, i;
      assert chains[..0] == [];
    } else {
      b, k := FindPlace(chains[1..], i - |chains[0]|);
      assert chains[..b + 1][1..] == chains[1..][..b];
      b := b + 1;
    }
  }
}
