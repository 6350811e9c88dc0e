/** Intersection of two singly linked lists (p3.cpp).

    A list is given by its head, a possibly null `ListNode`; the ghost
    sequence `path` beside it is the walk from the head along `next` up to
    nullptr, so a list with a path is finite.  Nodes are compared by
    identity, as the C++ pointers are. */
module ListIntersection {
  import opened ChainHashing

  /** ListNode (p3.cpp:8-12). */
  class ListNode {
    var val: int
    var next: ListNode?

    constructor (x: int)
      ensures val == x && next == null
    {
      val := x;
      next := null;
    }
  }

  /** Every node of `path` but the last links to the one after it. */
  ghost predicate Linked(path: seq<ListNode>)
    reads path
  {
    forall i :: 0 <= i < |path| - 1 ==> path[i].next == path[i + 1]
  }

  /** `path` is the walk from `head` along `next` up to nullptr. */
  ghost predicate Walk(head: ListNode?, path: seq<ListNode>)
    reads path
  {
    (path == [] ==> head == null) &&
    (path != [] ==> head == path[0] && path[|path| - 1].next == null) &&
    Linked(path)
  }

  /** A walk visits no node twice: two positions of it reach nullptr after
      different numbers of steps, so their nodes differ. */
  lemma WalkDistinct(head: ListNode?, path: seq<ListNode>)
    requires Walk(head, path)
    ensures forall i, j :: 0 <= i < j < |path| ==> path[i] != path[j]
  {
    forall i, j | 0 <= i < j < |path|
      ensures path[i] != path[j]
    {
      NoRepeat(path, i, j);
    }
  }

  lemma {:induction false} NoRepeat(path: seq<ListNode>, i: int, j: int)
    requires Linked(path) && 0 <= i < j < |path| && path[|path| - 1].next == null
    ensures path[i] != path[j]
    decreases |path| - j
  {
    assert path[i].next == path[i + 1];
    if j < |path| - 1 {
      NoRepeat(path, i + 1, j + 1);
      assert path[j].next == path[j + 1];
    }
  }

  /** The position of the first node of `path` holding `value`, or `|path|`
      when there is none. */
  ghost function FirstWithValue(path: seq<ListNode>, value: int): (i: int)
    reads path
    ensures 0 <= i <= |path|
    ensures forall k :: 0 <= k < i ==> path[k].val != value
    ensures i < |path| ==> path[i].val == value
  {
    if path == [] then 0 else if path[0].val == value then 0 else 1 + FirstWithValue(path[1..], value)
  }

  /** The position of the first node of `b` that is also a node of `a`, or
      `|b|` when they share none. */
  function FirstShared(b: seq<ListNode>, a: seq<ListNode>): (i: int)
    ensures 0 <= i <= |b|
    ensures forall k :: 0 <= k < i ==> b[k] !in a
    ensures i < |b| ==> b[i] in a
  {
    if b == [] then 0 else if b[0] in a then 0 else 1 + FirstShared(b[1..], a)
  }

  /** The first shared position is the only position before which nothing
      is shared and at which something is. */
  lemma FirstSharedIsUnique(b: seq<ListNode>, a: seq<ListNode>, i: int)
    requires 0 <= i <= |b|
    requires forall k :: 0 <= k < i ==> b[k] !in a
    requires i < |b| ==> b[i] in a
    ensures FirstShared(b, a) == i
  {
  }

  /** `createList` (p3.cpp:15-27): a list of fresh nodes holding `values`
      in order, and nullptr for no values. */
  method CreateList(values: seq<int>) returns (head: ListNode?, ghost path: seq<ListNode>)
    ensures Walk(head, path) && |path| == |values|
    ensures forall i :: 0 <= i < |path| ==> path[i].val == values[i] && fresh(path[i])
  {
    if |values| == 0 {
      return null, [];
    }
    head := new ListNode(values[0]);
    var current := head;
    path := [head];
    var i := 1;
    while i < |values|
      invariant 1 <= i <= |values| && |path| == i && path[i - 1] == current
      invariant Walk(head, path)
      invariant forall k :: 0 <= k < i ==> path[k].val == values[k] && fresh(path[k])
    {
      WalkDistinct(head, path);
      var node := new ListNode(values[i]);
      current.next := node;
      current := node;
      path := path + [node];
      i := i + 1;
    }
  }

  /** `findNode` (p3.cpp:46-52): the first node of the list holding
      `value`, or nullptr when none does. */
  method FindNode(head: ListNode?, value: int, ghost path: seq<ListNode>) returns (r: ListNode?)
    requires Walk(head, path)
    ensures var i := FirstWithValue(path, value); r == if i < |path| then path[i] else null
  {
    r := head;
    ghost var k := 0;
    while r != null
      invariant 0 <= k <= |path| && (k < |path| ==> r == path[k]) && (k == |path| ==> r == null)
      invariant forall q :: 0 <= q < k ==> path[q].val != value
      decreases |path| - k
    {
      if r.val == value {
        return;
      }
      r := r.next;
      k := k + 1;
    }
  }

  /** The two lists share no node. */
  ghost predicate Disjoint(a: seq<ListNode>, b: seq<ListNode>)
  {
    forall i, j :: 0 <= i < |a| && 0 <= j < |b| ==> a[i] != b[j]
  }

  /** Two linked parts, the last node of the first linking to the first
      node of the second, make one linked part. */
  lemma LinkedJoin(p: seq<ListNode>, q: seq<ListNode>)
    requires Linked(p) && Linked(q) && p != [] && q != [] && p[|p| - 1].next == q[0]
    ensures Linked(p + q)
  {
    forall x | 0 <= x < |p + q| - 1
      ensures (p + q)[x].next == (p + q)[x + 1]
    {
      if x < |p| - 1 {
        assert (p + q)[x] == p[x] && (p + q)[x + 1] == p[x + 1];
      } else if x == |p| - 1 {
        assert (p + q)[x] == p[x] && (p + q)[x + 1] == q[0];
      } else {
        assert (p + q)[x] == q[x - |p|] && (p + q)[x + 1] == q[x - |p| + 1];
      }
    }
  }

  /** What list A continues with after `connectLists` when the matching
      node of A is its last node and the matching node of B is not. */
  function Continuation(pathA: seq<ListNode>, pathB: seq<ListNode>, ia: int, ib: int): seq<ListNode>
    requires 0 <= ib < |pathB|
  {
    if ia == |pathA| - 1 && ib < |pathB| - 1 then pathB[ib + 1..] else []
  }

  /** The links of the two lists after `connectLists` relinked them at
      position `ia` of A and `ib` of B: B's node before position `ib` links
      to A's node at `ia`, A's last node takes over the continuation, and
      every other node keeps linking to its successor. */
  ghost predicate Relinked(pathA: seq<ListNode>, pathB: seq<ListNode>, ia: int, ib: int)
    requires 0 <= ia < |pathA| && 0 <= ib < |pathB|
    reads pathA, pathB
  {
    var tail := Continuation(pathA, pathB, ia, ib);
    (forall x :: 0 <= x < |pathA| - 1 ==> pathA[x].next == pathA[x + 1]) &&
    pathA[|pathA| - 1].next == (if tail != [] then tail[0] else null) &&
    (forall x :: 0 <= x < |pathB| - 1 && x != ib - 1 ==> pathB[x].next == pathB[x + 1]) &&
    pathB[|pathB| - 1].next == null &&
    (ib > 0 ==> pathB[ib - 1].next == pathA[ia])
  }

  /** List B as it is walked after the relinking: its nodes before `ib`,
      then A's nodes from `ia` on, then the continuation. */
  function RelinkedB(pathA: seq<ListNode>, pathB: seq<ListNode>, ia: int, ib: int): seq<ListNode>
    requires 0 <= ia < |pathA| && 0 <= ib < |pathB|
  {
    if ib == 0 then pathB else pathB[..ib] + (pathA[ia..] + Continuation(pathA, pathB, ia, ib))
  }

  /** After the relinking, A is walked as A followed by the continuation. */
  lemma RelinkedWalkA(pathA: seq<ListNode>, pathB: seq<ListNode>, ia: int, ib: int)
    requires 0 <= ia < |pathA| && 0 <= ib < |pathB|
    requires Relinked(pathA, pathB, ia, ib)
    ensures Walk(pathA[0], pathA + Continuation(pathA, pathB, ia, ib))
  {
    var tail := Continuation(pathA, pathB, ia, ib);
    if tail != [] {
      LinkedFrom(pathB, ib + 1);
      LinkedJoin(pathA, tail);
    }
  }

  /** After the relinking, B is walked as `RelinkedB` says. */
  lemma RelinkedWalkB(pathA: seq<ListNode>, pathB: seq<ListNode>, ia: int, ib: int)
    requires 0 <= ia < |pathA| && 0 <= ib < |pathB|
    requires Relinked(pathA, pathB, ia, ib)
    ensures Walk(pathB[0], RelinkedB(pathA, pathB, ia, ib))
  {
    if ib > 0 {
      var pathA' := pathA + Continuation(pathA, pathB, ia, ib);
      RelinkedWalkA(pathA, pathB, ia, ib);
      WalkSuffix(pathA', ia);
      assert pathA'[ia..] == pathA[ia..] + Continuation(pathA, pathB, ia, ib);
      LinkedUpTo(pathB, ib);
      WalkJoin(pathB[..ib], pathA'[ia..]);
    } else {
      assert Linked(pathB) by {
        forall x | 0 <= x < |pathB| - 1
          ensures pathB[x].next == pathB[x + 1]
        {
          assert x != ib - 1;
        }
      }
    }
  }

  /** A linked part whose last node links to the head of a walk, followed
      by that walk, is a walk. */
  lemma WalkJoin(p: seq<ListNode>, q: seq<ListNode>)
    requires Linked(p) && p != [] && q != [] && Walk(q[0], q) && p[|p| - 1].next == q[0]
    ensures Walk(p[0], p + q)
  {
    LinkedJoin(p, q);
  }

  /** What follows a position of a walk is a walk. */
  lemma WalkSuffix(p: seq<ListNode>, i: int)
    requires p != [] && Walk(p[0], p) && 0 <= i < |p|
    ensures Walk(p[i], p[i..])
  {
    LinkedSuffix(p, i);
  }

  /** The node before position `ib` of list B, nullptr when `ib` is its
      first position (p3.cpp:66-72). */
  method Predecessor(listB: ListNode?, nodoB: ListNode, ghost pathB: seq<ListNode>, ghost ib: int)
    returns (prev: ListNode?)
    requires Walk(listB, pathB) && 0 <= ib < |pathB| && nodoB == pathB[ib]
    ensures prev == if ib == 0 then null else pathB[ib - 1]
  {
    WalkDistinct(listB, pathB);
    var current: ListNode? := listB;
    prev := null;
    ghost var k := 0;
    while current != null && current != nodoB
      invariant 0 <= k <= ib && current == pathB[k] && prev == (if k == 0 then null else pathB[k - 1])
      decreases ib - k
    {
      prev := current;
      current := current.next;
      k := k + 1;
    }
  }

  /** The relinking part of `connectLists` (p3.cpp:75-91): `prev`, the node
      before `nodoB` in B, links to `nodoA`, and `nodoA` takes over the
      successor of `nodoB` when the chain from `nodoA` ends at `nodoA`. */
  method Relink(prev: ListNode?, nodoA: ListNode, nodoB: ListNode, ghost pathA: seq<ListNode>,
                ghost pathB: seq<ListNode>, ghost ia: int, ghost ib: int)
    requires 0 <= ia < |pathA| && 0 <= ib < |pathB| && nodoA == pathA[ia] && nodoB == pathB[ib]
    requires Walk(pathA[0], pathA) && Walk(pathB[0], pathB) && Disjoint(pathA, pathB)
    requires prev == if ib == 0 then null else pathB[ib - 1]
    modifies prev, nodoA
    ensures Relinked(pathA, pathB, ia, ib)
    ensures nodoA.val == old(nodoA.val) && (prev != null ==> prev.val == old(prev.val))
  {
    WalkDistinct(pathA[0], pathA);
    WalkDistinct(pathB[0], pathB);
    ghost var tail := Continuation(pathA, pathB, ia, ib);
    assert ib < |pathB| - 1 ==> nodoB.next == pathB[ib + 1];
    assert ia < |pathA| - 1 ==> nodoA.next == pathA[ia + 1];
    if prev != null {
      prev.next := nodoA;
    }
    if nodoB.next != null {
      // the end of the chain from `nodoA` (`nodoA` is never null here)
      var finalA := nodoA;
      ghost var f := ia;
      while finalA.next != null
        invariant ia <= f < |pathA| && finalA == pathA[f]
        decreases |pathA| - f
      {
        finalA := finalA.next;
        f := f + 1;
      }
      if finalA == nodoA && nodoA.next == null {
        nodoA.next := nodoB.next;
      }
    }
    forall x | 0 <= x < |pathA| - 1
      ensures pathA[x].next == pathA[x + 1]
    {
      assert pathA[x] != prev;
    }
  }

  /** `connectLists` (p3.cpp:56-96) on two lists that share no node.  With
      `nodoA` and `nodoB` the first nodes of A and of B holding
      `intersectVal`: when either is missing no link changes; otherwise the
      links of both lists are as `Relinked` says.  No value changes, and the
      new walks of both lists are returned. */
  method ConnectLists(listA: ListNode?, listB: ListNode?, intersectVal: int,
                      ghost pathA: seq<ListNode>, ghost pathB: seq<ListNode>)
    returns (ghost pathA': seq<ListNode>, ghost pathB': seq<ListNode>)
    requires Walk(listA, pathA) && Walk(listB, pathB) && Disjoint(pathA, pathB)
    modifies pathA, pathB
    ensures forall n :: n in pathA + pathB ==> n.val == old(n.val)
    ensures Walk(listA, pathA') && Walk(listB, pathB')
    ensures var ia, ib := old(FirstWithValue(pathA, intersectVal)), old(FirstWithValue(pathB, intersectVal));
      if ia == |pathA| || ib == |pathB| then
        pathA' == pathA && pathB' == pathB && forall n :: n in pathA + pathB ==> n.next == old(n.next)
      else
        Relinked(pathA, pathB, ia, ib) && pathA' == pathA + Continuation(pathA, pathB, ia, ib) &&
        pathB' == RelinkedB(pathA, pathB, ia, ib)
  {
    var nodoA := FindNode(listA, intersectVal, pathA);
    var nodoB := FindNode(listB, intersectVal, pathB);
    ghost var ia, ib := FirstWithValue(pathA, intersectVal), FirstWithValue(pathB, intersectVal);
    pathA', pathB' := pathA, pathB;
    if nodoA != null && nodoB != null {
      pathA', pathB' := ConnectAt(listB, nodoA, nodoB, pathA, pathB, ia, ib);
    }
  }

  /** `connectLists` (p3.cpp:64-95) once both nodes are found: the links
      are as `Relinked` says and the new walks are returned. */
  method ConnectAt(listB: ListNode?, nodoA: ListNode, nodoB: ListNode, ghost pathA: seq<ListNode>,
                   ghost pathB: seq<ListNode>, ghost ia: int, ghost ib: int)
    returns (ghost pathA': seq<ListNode>, ghost pathB': seq<ListNode>)
    requires 0 <= ia < |pathA| && 0 <= ib < |pathB| && nodoA == pathA[ia] && nodoB == pathB[ib]
    requires Walk(pathA[0], pathA) && Walk(listB, pathB) && Disjoint(pathA, pathB)
    modifies pathA, pathB
    ensures forall n :: n in pathA + pathB ==> n.val == old(n.val)
    ensures Relinked(pathA, pathB, ia, ib)
    ensures pathA' == pathA + Continuation(pathA, pathB, ia, ib) && Walk(pathA[0], pathA')
    ensures pathB' == RelinkedB(pathA, pathB, ia, ib) && Walk(listB, pathB')
  {
    var prev := Predecessor(listB, nodoB, pathB, ib);
    Relink(prev, nodoA, nodoB, pathA, pathB, ia, ib);
    RelinkedWalkA(pathA, pathB, ia, ib);
    RelinkedWalkB(pathA, pathB, ia, ib);
    pathA', pathB' := pathA + Continuation(pathA, pathB, ia, ib), RelinkedB(pathA, pathB, ia, ib);
  }

  /** The nodes of `p` from position `lo` on, linked to each other. */
  lemma LinkedFrom(p: seq<ListNode>, lo: int)
    requires 0 <= lo <= |p| && forall x :: lo <= x < |p| - 1 ==> p[x].next == p[x + 1]
    ensures Linked(p[lo..])
  {
    forall x | 0 <= x < |p[lo..]| - 1
      ensures p[lo..][x].next == p[lo..][x + 1]
    {
      assert p[lo..][x] == p[lo + x] && p[lo..][x + 1] == p[lo + x + 1];
    }
  }

  /** The nodes of `p` before position `hi`, linked to each other. */
  lemma LinkedUpTo(p: seq<ListNode>, hi: int)
    requires 0 <= hi <= |p| && forall x :: 0 <= x < hi - 1 ==> p[x].next == p[x + 1]
    ensures Linked(p[..hi])
  {
  }

  /** A suffix of a linked part is linked. */
  lemma LinkedSuffix(p: seq<ListNode>, i: int)
    requires Linked(p) && 0 <= i <= |p|
    ensures Linked(p[i..])
  {
    forall x | 0 <= x < |p[i..]| - 1
      ensures p[i..][x].next == p[i..][x + 1]
    {
      assert p[i..][x] == p[i + x] && p[i..][x + 1] == p[i + x + 1];
    }
  }

  /** `getIntersectionNode` (p3.cpp:100-125): every node of list A goes
      into a table keyed by node identity; the first node of list B found
      in the table is returned, nullptr when there is none.  The hash of a
      node is a parameter. */
  method GetIntersectionNode(headA: ListNode?, headB: ListNode?, ghost pathA: seq<ListNode>,
                             ghost pathB: seq<ListNode>, hash: ListNode -> nat) returns (r: ListNode?)
    requires Walk(headA, pathA) && Walk(headB, pathB)
    ensures var i := FirstShared(pathB, pathA); r == if i < |pathB| then pathB[i] else null
  {
    if headA == null || headB == null {
      FirstSharedIsUnique(pathB, pathA, |pathB|);
      return null;
    }
    var table := TableOfNodes(headA, pathA, hash);
    r := FirstInTable(table, headB, pathA, pathB);
  }

  /** The first loop of `getIntersectionNode` (p3.cpp:104-111): a table
      of capacity 10 holding every node of list A, and nothing else. */
  method TableOfNodes(headA: ListNode?, ghost pathA: seq<ListNode>, hash: ListNode -> nat)
    returns (table: ChainHash<ListNode, bool>)
    requires Walk(headA, pathA)
    ensures table.Valid() && fresh(table.Repr)
    ensures forall n :: n in table.contents <==> n in pathA
  {
    table := new ChainHash<ListNode, bool>(10, hash);
    var current: ListNode? := headA;
    ghost var k := 0;
    while current != null
      invariant 0 <= k <= |pathA| && (k < |pathA| ==> current == pathA[k]) && (k == |pathA| ==> current == null)
      invariant table.Valid() && fresh(table.Repr)
      invariant forall n :: n in table.contents <==> n in pathA[..k]
      decreases |pathA| - k
    {
      AddNode(table, current, pathA, k);
      current := current.next;
      k := k + 1;
    }
    assert k == |pathA|;
    assert pathA[..k] == pathA;
  }

  /** One step of the first loop of `getIntersectionNode` (p3.cpp:109):
      the node at position `k` of list A joins the table. */
  method AddNode(table: ChainHash<ListNode, bool>, node: ListNode, ghost pathA: seq<ListNode>, ghost k: int)
    requires 0 <= k < |pathA| && node == pathA[k]
    requires table.Valid() && forall n :: n in table.contents <==> n in pathA[..k]
    modifies table.Repr
    ensures table.Valid() && fresh(table.Repr - old(table.Repr))
    ensures forall n :: n in table.contents <==> n in pathA[..k + 1]
  {
    assert pathA[..k + 1] == pathA[..k] + [node];
    table.Set(node, true);
  }

  /** The second loop of `getIntersectionNode` (p3.cpp:113-124): the first
      node of list B that the table holds, nullptr when there is none. */
  method FirstInTable(table: ChainHash<ListNode, bool>, headB: ListNode?, ghost pathA: seq<ListNode>,
                      ghost pathB: seq<ListNode>) returns (r: ListNode?)
    requires table.Valid() && Walk(headB, pathB)
    requires forall n :: n in table.contents <==> n in pathA
    ensures var i := FirstShared(pathB, pathA); r == if i < |pathB| then pathB[i] else null
  {
    var current := headB;
    ghost var k := 0;
    while current != null
      invariant 0 <= k <= |pathB| && (k < |pathB| ==> current == pathB[k]) && (k == |pathB| ==> current == null)
      invariant forall q :: 0 <= q < k ==> pathB[q] !in pathA
      decreases |pathB| - k
    {
      var found := table.Contains(current);
      if found {
        FirstSharedIsUnique(pathB, pathA, k);
        return current;
      }
      current := current.next;
      k := k + 1;
    }
    FirstSharedIsUnique(pathB, pathA, |pathB|);
    return null;
  }

  /** The first node of a list holding a value exists exactly when the
      value is one of the list's values. */
  lemma FoundIff(path: seq<ListNode>, values: seq<int>, v: int)
    requires |path| == |values| && forall i :: 0 <= i < |path| ==> path[i].val == values[i]
    ensures FirstWithValue(path, v) < |path| <==> v in values
  {
    var i := FirstWithValue(path, v);
    if i < |path| {
      assert values[i] == v;
    }
  }

  /** Two lists that share no node have no first shared node. */
  lemma FirstSharedDisjoint(b: seq<ListNode>, a: seq<ListNode>)
    requires Disjoint(a, b)
    ensures FirstShared(b, a) == |b|
  {
    forall k | 0 <= k < |b|
      ensures b[k] !in a
    {
      forall j | 0 <= j < |a|
        ensures a[j] != b[k]
      {
      }
    }
    FirstSharedIsUnique(b, a, |b|);
  }

  /** After the relinking at positions `ia` of A and `ib > 0` of B, the
      first node of B shared with A is at position `ib`: it is A's node at
      `ia`. */
  lemma FirstSharedRelinked(pathA: seq<ListNode>, pathB: seq<ListNode>, ia: int, ib: int)
    requires 0 <= ia < |pathA| && 0 < ib < |pathB| && Disjoint(pathA, pathB)
    requires forall i, j :: 0 <= i < j < |pathB| ==> pathB[i] != pathB[j]
    ensures var b := RelinkedB(pathA, pathB, ia, ib);
            FirstShared(b, pathA + Continuation(pathA, pathB, ia, ib)) == ib && b[ib] == pathA[ia]
  {
    var tail := Continuation(pathA, pathB, ia, ib);
    var b, a := RelinkedB(pathA, pathB, ia, ib), pathA + tail;
    forall k | 0 <= k < ib
      ensures b[k] !in a
    {
      assert b[k] == pathB[k];
      forall j | 0 <= j < |a|
        ensures a[j] != b[k]
      {
        if j < |pathA| {
          assert a[j] == pathA[j];
        } else {
          assert a[j] == pathB[ib + 1 + (j - |pathA|)];
        }
      }
    }
    assert b[ib] == pathA[ia] == a[ia];
    FirstSharedIsUnique(b, a, ib);
  }

  /** The special case of `testIntersection` (p3.cpp:136-143): when A
      holds the value, B becomes the part of A from A's first node holding
      it, and that node is the first one B shares with A; otherwise B stays
      as it is and shares nothing with A. */
  method ShareAtHead(headA: ListNode?, headB: ListNode?, v: int, ghost pathA: seq<ListNode>,
                     ghost pathB: seq<ListNode>) returns (headB': ListNode?, ghost pathB': seq<ListNode>)
    requires Walk(headA, pathA) && Walk(headB, pathB) && Disjoint(pathA, pathB)
    ensures Walk(headB', pathB')
    ensures var ia := FirstWithValue(pathA, v);
            ia < |pathA| ==> headB' == pathA[ia] && pathB' == pathA[ia..]
    ensures FirstWithValue(pathA, v) == |pathA| ==> headB' == headB && pathB' == pathB
    ensures var ia, i := FirstWithValue(pathA, v), FirstShared(pathB', pathA);
            (i < |pathB'| <==> ia < |pathA|) && (i < |pathB'| ==> pathB'[i] == pathA[ia])
  {
    ghost var ia := FirstWithValue(pathA, v);
    var nodoA := FindNode(headA, v, pathA);
    headB', pathB' := headB, pathB;
    if nodoA != null {
      headB', pathB' := nodoA, pathA[ia..];
      WalkSuffix(pathA, ia);
      FirstSharedIsUnique(pathB', pathA, 0);
    } else {
      FirstSharedDisjoint(pathB, pathA);
    }
  }

  /** The connection made by `testIntersection` (p3.cpp:135-147) for a
      value other than -1: when B's first node holding the value is its
      head (or B is empty), B becomes the part of A from A's first node
      holding the value, if there is one; otherwise the lists are
      connected by `connectLists`.  Afterwards B shares a node with A
      exactly when A holds the value and B is empty or holds it too, and
      the first shared node is A's first node holding the value. */
  method Prepare(headA: ListNode?, headB: ListNode?, v: int, ghost pathA: seq<ListNode>,
                 ghost pathB: seq<ListNode>)
    returns (headB': ListNode?, ghost pathA': seq<ListNode>, ghost pathB': seq<ListNode>)
    requires Walk(headA, pathA) && Walk(headB, pathB) && Disjoint(pathA, pathB)
    modifies pathA, pathB
    ensures Walk(headA, pathA') && Walk(headB', pathB')
    ensures var ia, ib := old(FirstWithValue(pathA, v)), old(FirstWithValue(pathB, v));
            var i := FirstShared(pathB', pathA');
            (i < |pathB'| <==> ia < |pathA| && (pathB == [] || ib < |pathB|)) &&
            (i < |pathB'| ==> pathB'[i] == pathA[ia] && pathB'[i].val == v)
  {
    ghost var ia, ib := FirstWithValue(pathA, v), FirstWithValue(pathB, v);
    WalkDistinct(headB, pathB);
    var nodoB := FindNode(headB, v, pathB);
    headB', pathA', pathB' := headB, pathA, pathB;
    if nodoB == headB {
      headB', pathB' := ShareAtHead(headA, headB, v, pathA, pathB);
    } else {
      pathA', pathB' := ConnectLists(headA, headB, v, pathA, pathB);
      if ia < |pathA| && ib < |pathB| {
        FirstSharedRelinked(pathA, pathB, ia, ib);
      } else {
        FirstSharedDisjoint(pathB, pathA);
      }
    }
  }

  /** `testIntersection` (p3.cpp:127-177) without its output: both lists
      are built, connected at `intersectVal` unless it is -1, and their
      intersection is looked up; `correct` is the verdict printed at the
      end.  The intersection exists exactly when the value is not -1, A
      holds it and B is empty or holds it too; it then holds the value,
      so the verdict is "correct" exactly in those cases and for -1. */
  method TestIntersection(listA: seq<int>, listB: seq<int>, intersectVal: int, hash: ListNode -> nat)
    returns (intersection: ListNode?, correct: bool)
    ensures intersection != null <==>
            intersectVal != -1 && intersectVal in listA && (listB == [] || intersectVal in listB)
    ensures intersection != null ==> intersection.val == intersectVal
    ensures correct <==>
            intersectVal == -1 || (intersectVal in listA && (listB == [] || intersectVal in listB))
  {
    var headA, pathA := CreateList(listA);
    var headB, pathB := CreateList(listB);
    forall i, j | 0 <= i < |pathA| && 0 <= j < |pathB|
      ensures pathA[i] != pathB[j]
    {
    }
    if intersectVal != -1 {
      FoundIff(pathA, listA, intersectVal);
      FoundIff(pathB, listB, intersectVal);
      headB, pathA, pathB := Prepare(headA, headB, intersectVal, pathA, pathB);
    } else {
      FirstSharedDisjoint(pathB, pathA);
    }
    intersection := GetIntersectionNode(headA, headB, pathA, pathB, hash);
    if intersectVal == -1 {
      correct := intersection == null;
    } else {
      correct := intersection != null && intersection.val == intersectVal;
    }
  }

  /** The five cases of `main` (p3.cpp:179-204): an intersection holding
      8, none, one holding 3 at the head of B, none with B empty, and one
      holding 2; every verdict is "correct". */
  method IntersectionCases(hash: ListNode -> nat)
    returns (r1: ListNode?, r2: ListNode?, r3: ListNode?, r4: ListNode?, r5: ListNode?,
             ok1: bool, ok2: bool, ok3: bool, ok4: bool, ok5: bool)
    ensures r1 != null && r1.val == 8
    ensures r2 == null
    ensures r3 != null && r3.val == 3
    ensures r4 == null
    ensures r5 != null && r5.val == 2
    ensures ok1 && ok2 && ok3 && ok4 && ok5
  {
    r1, ok1 := TestIntersection([4, 1, 8, 4, 5], [5, 6, 1, 8, 4, 5], 8, hash);
    assert [4, 1, 8, 4, 5][2] == 8 && [5, 6, 1, 8, 4, 5][3] == 8;
    r2, ok2 := TestIntersection([2, 6, 4], [1, 5], -1, hash);
    r3, ok3 := TestIntersection([3, 7, 1], [3, 7, 1], 3, hash);
    assert [3, 7, 1][0] == 3;
    r4, ok4 := TestIntersection([1, 2, 3], [], -1, hash);
    r5, ok5 := TestIntersection([1, 9, 1, 2, 4], [3, 2, 4], 2, hash);
    assert [1, 9, 1, 2, 4][3] == 2 && [3, 2, 4][1] == 2;
  }
}
