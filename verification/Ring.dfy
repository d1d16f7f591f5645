/** The intrusive circular list of lib/list.c. A list is the ring of nodes that starts at its head node. */
module Ring {
  import opened Sequences

  class Node {
    var prev: Node?
    var next: Node?
  }

  /** The place after i in a ring of n nodes. */
  function After(i: nat, n: nat): nat
    requires i < n
  {
    if i + 1 == n then 0 else i + 1
  }

  function Before(i: nat, n: nat): nat
    requires i < n
  {
    if i == 0 then n - 1 else i - 1
  }

  ghost predicate Forward(s: seq<Node>)
    reads s
  {
    forall i :: 0 <= i < |s| ==> s[i].next == s[After(i, |s|)]
  }

  ghost predicate Backward(s: seq<Node>)
    reads s
  {
    forall i :: 0 <= i < |s| ==> s[i].prev == s[Before(i, |s|)]
  }

  /** The nodes of s are linked in a circle, in this order; s[0] is the list head, the others its elements. */
  ghost predicate IsRing(s: seq<Node>)
    reads s
  {
    s != [] && Distinct(s) && Forward(s) && Backward(s)
  }

  method ListInit(list: Node)
    modifies list
    ensures IsRing([list])
  {
    list.next := list;
    list.prev := list;
  }

  /** The ring with `elem` put before place i; before the head means at the end. */
  ghost function Inserted(s: seq<Node>, i: nat, elem: Node): seq<Node>
    requires i < |s|
  {
    if i == 0 then s + [elem] else s[..i] + [elem] + s[i..]
  }

  method ListInsert(before: Node, elem: Node, ghost s: seq<Node>, ghost i: nat)
    requires IsRing(s) && i < |s| && s[i] == before && elem !in s
    modifies s, elem
    ensures IsRing(Inserted(s, i, elem))
  {
    ghost var p := Before(i, |s|);
    assert before.prev == s[p] && s[p].next == s[After(p, |s|)];
    elem.prev := before.prev;
    elem.next := before;
    before.prev.next := elem;
    before.prev := elem;
    Relinked(s, i, elem);
  }

  /** Where the nodes of s go when one is inserted at place `at`. */
  function Old(s: seq<Node>, at: nat, elem: Node, k: nat): Node
    requires 0 < at <= |s| && k <= |s|
  {
    if k < at then s[k] else if k == at then elem else s[k - 1]
  }

  ghost predicate InsertedAt(s: seq<Node>, at: nat, elem: Node, t: seq<Node>) {
    0 < at <= |s| && |t| == |s| + 1 && forall k :: 0 <= k < |t| ==> t[k] == Old(s, at, elem, k)
  }

  /** What the four assignments leave behind is the longer ring. */
  lemma Relinked(s: seq<Node>, i: nat, elem: Node)
    requires s != [] && Distinct(s) && i < |s| && elem !in s
    requires var p := Before(i, |s|);
             && elem.prev == s[p] && elem.next == s[i] && s[p].next == elem && s[i].prev == elem
             && (forall k :: 0 <= k < |s| && k != p ==> s[k].next == s[After(k, |s|)])
             && (forall k :: 0 <= k < |s| && k != i ==> s[k].prev == s[Before(k, |s|)])
    ensures IsRing(Inserted(s, i, elem))
  {
    var t, at := Inserted(s, i, elem), if i == 0 then |s| else i;
    assert InsertedAt(s, at, elem, t);
    RelinkedForward(s, t, i, at, elem);
    RelinkedBackward(s, t, i, at, elem);
    StillDistinct(s, t, at, elem);
  }

  lemma StillDistinct(s: seq<Node>, t: seq<Node>, at: nat, elem: Node)
    requires InsertedAt(s, at, elem, t) && Distinct(s) && elem !in s
    ensures Distinct(t)
  {
  }

  lemma RelinkedForward(s: seq<Node>, t: seq<Node>, i: nat, at: nat, elem: Node)
    requires i < |s| && at == (if i == 0 then |s| else i) && InsertedAt(s, at, elem, t)
    requires elem.next == s[i] && s[Before(i, |s|)].next == elem
    requires forall k :: 0 <= k < |s| && k != Before(i, |s|) ==> s[k].next == s[After(k, |s|)]
    ensures Forward(t)
  {
    forall k | 0 <= k < |t| ensures t[k].next == t[After(k, |t|)] {
      assert t[k] == Old(s, at, elem, k) && t[After(k, |t|)] == Old(s, at, elem, After(k, |t|));
    }
  }

  lemma RelinkedBackward(s: seq<Node>, t: seq<Node>, i: nat, at: nat, elem: Node)
    requires i < |s| && at == (if i == 0 then |s| else i) && InsertedAt(s, at, elem, t)
    requires elem.prev == s[Before(i, |s|)] && s[i].prev == elem
    requires forall k :: 0 <= k < |s| && k != i ==> s[k].prev == s[Before(k, |s|)]
    ensures Backward(t)
  {
    forall k | 0 <= k < |t| ensures t[k].prev == t[Before(k, |t|)] {
      assert t[k] == Old(s, at, elem, k) && t[Before(k, |t|)] == Old(s, at, elem, Before(k, |t|));
    }
  }

  method ListPushFront(list: Node, elem: Node, ghost s: seq<Node>)
    requires IsRing(s) && s[0] == list && elem !in s
    modifies s, elem
    ensures IsRing([list, elem] + s[1..])
  {
    if list.next == null {
      assert false;
    } else {
      ListInsert(list.next, elem, s, After(0, |s|));
      assert Inserted(s, After(0, |s|), elem) == [list, elem] + s[1..];
    }
  }

  method ListPushBack(list: Node, elem: Node, ghost s: seq<Node>)
    requires IsRing(s) && s[0] == list && elem !in s
    modifies s, elem
    ensures IsRing(s + [elem])
  {
    ListInsert(list, elem, s, 0);
  }

  /** Takes `elem` out of its ring and returns the node behind it. */
  method ListRemove(elem: Node, ghost s: seq<Node>, ghost i: nat) returns (following: Node)
    requires IsRing(s) && 0 < i < |s| && s[i] == elem
    modifies s
    ensures IsRing(s[..i] + s[i + 1..]) && following == s[After(i, |s|)]
    ensures elem.prev == old(elem.prev) && elem.next == old(elem.next)
  {
    ghost var p, q := Before(i, |s|), After(i, |s|);
    assert elem.prev == s[p] && elem.next == s[q];
    elem.prev.next := elem.next;
    elem.next.prev := elem.prev;
    Unlinked(s, i);
    following := elem.next;
  }

  lemma Unlinked(s: seq<Node>, i: nat)
    requires s != [] && Distinct(s) && 0 < i < |s|
    requires var p, q := Before(i, |s|), After(i, |s|);
             && s[p].next == s[q] && s[q].prev == s[p]
             && (forall k :: 0 <= k < |s| && k != p ==> s[k].next == s[After(k, |s|)])
             && (forall k :: 0 <= k < |s| && k != q ==> s[k].prev == s[Before(k, |s|)])
    ensures IsRing(s[..i] + s[i + 1..])
  {
    var t := s[..i] + s[i + 1..];
    assert WithoutPlace(s, i, t);
    UnlinkedForward(s, i, t);
    UnlinkedBackward(s, i, t);
    LessDistinct(s, i, t);
  }

  /** Where the nodes of s are once place i is gone. */
  function Kept(s: seq<Node>, i: nat, k: nat): Node
    requires 0 < i < |s| && k + 1 < |s|
  {
    if k < i then s[k] else s[k + 1]
  }

  ghost predicate WithoutPlace(s: seq<Node>, i: nat, t: seq<Node>) {
    0 < i < |s| && |t| + 1 == |s| && forall k :: 0 <= k < |t| ==> t[k] == Kept(s, i, k)
  }

  lemma LessDistinct(s: seq<Node>, i: nat, t: seq<Node>)
    requires WithoutPlace(s, i, t) && Distinct(s)
    ensures Distinct(t)
  {
  }

  lemma UnlinkedForward(s: seq<Node>, i: nat, t: seq<Node>)
    requires WithoutPlace(s, i, t) && s[Before(i, |s|)].next == s[After(i, |s|)]
    requires forall k :: 0 <= k < |s| && k != Before(i, |s|) ==> s[k].next == s[After(k, |s|)]
    ensures Forward(t)
  {
    forall k | 0 <= k < |t| ensures t[k].next == t[After(k, |t|)] {
      assert t[k] == Kept(s, i, k) && t[After(k, |t|)] == Kept(s, i, After(k, |t|));
    }
  }

  lemma UnlinkedBackward(s: seq<Node>, i: nat, t: seq<Node>)
    requires WithoutPlace(s, i, t) && s[After(i, |s|)].prev == s[Before(i, |s|)]
    requires forall k :: 0 <= k < |s| && k != After(i, |s|) ==> s[k].prev == s[Before(k, |s|)]
    ensures Backward(t)
  {
    forall k | 0 <= k < |t| ensures t[k].prev == t[Before(k, |t|)] {
      assert t[k] == Kept(s, i, k) && t[Before(k, |t|)] == Kept(s, i, Before(k, |t|));
    }
  }

  /** The source leaves an empty list undefined. */
  method ListPopFront(list: Node, ghost s: seq<Node>) returns (front: Node)
    requires IsRing(s) && s[0] == list && |s| > 1
    modifies s
    ensures front == s[1] && IsRing([list] + s[2..])
  {
    assert list.next == s[1];
    front := list.next;
    var following := ListRemove(front, s, 1);
    assert s[..1] + s[2..] == [list] + s[2..];
  }

  method ListPopBack(list: Node, ghost s: seq<Node>) returns (back: Node)
    requires IsRing(s) && s[0] == list && |s| > 1
    modifies s
    ensures back == s[|s| - 1] && IsRing(s[..|s| - 1])
  {
    assert list.prev == s[|s| - 1];
    back := list.prev;
    var following := ListRemove(back, s, |s| - 1);
    assert s[..|s| - 1] + s[|s|..] == s[..|s| - 1];
  }

  method ListIsEmpty(list: Node, ghost s: seq<Node>) returns (empty: bool)
    requires IsRing(s) && s[0] == list
    ensures empty <==> |s| == 1
  {
    assert list.next == s[After(0, |s|)];
    empty := list.next == list;
  }

  method ListSize(list: Node, ghost s: seq<Node>) returns (cnt: nat)
    requires IsRing(s) && s[0] == list
    ensures cnt == |s| - 1
  {
    cnt := 0;
    assert list.next == s[After(0, |s|)];
    var e := list.next;
    while e != list
      invariant cnt < |s| && e == s[After(cnt, |s|)]
      decreases |s| - cnt
    {
      assert s[cnt + 1].next == s[After(cnt + 1, |s|)];
      e := e.next;
      cnt := cnt + 1;
    }
  }

  // ----- what build_cpkt does to its output list with a RAW packet -----

  /** Pushing the same node twice breaks the ring: the node then follows itself, so a walk that reaches it never
      comes back to the list head. */
  method PushBackTwice(list: Node, elem: Node, ghost s: seq<Node>)
    requires IsRing(s) && s[0] == list && elem !in s
    modifies s, elem
    ensures elem != list && list.prev == elem && elem.prev == elem && elem.next == elem
    ensures s[|s| - 1].next == elem
    ensures forall t :: elem in t && list in t ==> !IsRing(t)
  {
    assert list.prev == s[|s| - 1];
    ListPushBack(list, elem, s);
    ghost var r := s + [elem];
    assert r[0] == list && list.prev == r[|s|] && r[|s| - 1].next == r[|s|];
    elem.prev := list.prev;
    elem.next := list;
    elem.prev.next := elem;
    list.prev := elem;
    assert s[|s| - 1] == r[|s| - 1];
    forall t | elem in t && list in t ensures !IsRing(t) {
      if IsRing(t) {
        NoSelfLoop(t, elem, list);
      }
    }
  }

  lemma NoSelfLoop(t: seq<Node>, elem: Node, list: Node)
    requires IsRing(t) && elem in t && list in t && elem != list
    ensures elem.next != elem
  {
    var i :| 0 <= i < |t| && t[i] == elem;
    assert t[i].next == t[After(i, |t|)];
  }
}
