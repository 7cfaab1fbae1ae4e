// The intrusive index lists of include/fwk_base.h (ListNode, List,
// listInsert, listRemove, freeListAlloc), LinkedVector built on them, and
// BitVector's bit indexing.
//
// The C++ helpers take the container and the list by reference and update
// them in place; here they are functions that return the updated node
// sequence and list, and the classes below assign the results to their
// fields.
module FwkBase {
  /** ListNode: links to the neighbouring element indices, -1 for none. */
  datatype ListNode = ListNode(next: int, prev: int)

  const Disconnected := ListNode(-1, -1)

  /** List: head and tail element indices, -1 when empty. */
  datatype List = List(head: int, tail: int)
  {
    predicate IsEmpty() { head == -1 }
  }

  const EmptyList := List(-1, -1)

  /** The successor and predecessor of position i in an order, -1 past the ends. */
  function Succ(order: seq<int>, i: nat): int
    requires i < |order|
  {
    if i + 1 < |order| then order[i + 1] else -1
  }

  function Pred(order: seq<int>, i: nat): int
    requires i < |order|
  {
    if i == 0 then -1 else order[i - 1]
  }

  predicate Distinct(order: seq<int>)
  {
    forall i, j | 0 <= i < j < |order| :: order[i] != order[j]
  }

  /** The nodes and the list together describe exactly the distinct indices
      of order, from head to tail. */
  ghost predicate IsList(nodes: seq<ListNode>, list: List, order: seq<int>)
  {
    (forall i | 0 <= i < |order| :: 0 <= order[i] < |nodes|) &&
    Distinct(order) &&
    list.head == (if order == [] then -1 else order[0]) &&
    list.tail == (if order == [] then -1 else order[|order| - 1]) &&
    (forall i {:trigger nodes[order[i]]} | 0 <= i < |order| :: nodes[order[i]].next == Succ(order, i)) &&
    (forall i {:trigger nodes[order[i]]} | 0 <= i < |order| :: nodes[order[i]].prev == Pred(order, i))
  }

  /** listInsert: links the disconnected node idx in front of the head; the
      tail becomes idx when the list was empty. */
  function ListInsert(nodes: seq<ListNode>, list: List, idx: int): (r: (seq<ListNode>, List))
    requires 0 <= idx < |nodes| && nodes[idx] == Disconnected
    requires -1 <= list.head < |nodes|
    ensures |r.0| == |nodes|
  {
    var n1 := nodes[idx := nodes[idx].(next := list.head)];
    var n2 := if list.head == -1 then n1 else n1[list.head := n1[list.head].(prev := idx)];
    var tail := if list.head == -1 then idx else list.tail;
    (n2, List(idx, tail))
  }

  /** listRemove: splices idx out between its neighbours, moving head or
      tail when idx was at an end, and disconnects it. */
  function ListRemove(nodes: seq<ListNode>, list: List, idx: int): (r: (seq<ListNode>, List))
    requires 0 <= idx < |nodes|
    requires -1 <= nodes[idx].prev < |nodes| && -1 <= nodes[idx].next < |nodes|
    ensures |r.0| == |nodes|
  {
    var prev := nodes[idx].prev;
    var next := nodes[idx].next;
    var n1 := if prev == -1 then nodes else nodes[prev := nodes[prev].(next := next)];
    var n2 := if prev == -1 then n1 else n1[idx := n1[idx].(prev := -1)];
    var l1 := if prev == -1 then list.(head := next) else list;
    var n3 := if next == -1 then n2 else n2[next := n2[next].(prev := prev)];
    var n4 := if next == -1 then n3 else n3[idx := n3[idx].(next := -1)];
    var l2 := if next == -1 then l1.(tail := prev) else l1;
    (n4, l2)
  }

  lemma ListInsertCorrect(nodes: seq<ListNode>, list: List, order: seq<int>, idx: int)
    requires IsList(nodes, list, order)
    requires 0 <= idx < |nodes| && nodes[idx] == Disconnected
    requires idx !in order
    ensures -1 <= list.head < |nodes|
    ensures IsList(ListInsert(nodes, list, idx).0, ListInsert(nodes, list, idx).1, [idx] + order)
    ensures |ListInsert(nodes, list, idx).0| == |nodes|
    ensures forall j | 0 <= j < |nodes| && j != idx && j !in order :: ListInsert(nodes, list, idx).0[j] == nodes[j]
  {
    var (n, l) := ListInsert(nodes, list, idx);
    var o := [idx] + order;
    assert n[idx] == ListNode(list.head, -1);
    forall i | 0 <= i < |o|
      ensures n[o[i]].next == Succ(o, i) && n[o[i]].prev == Pred(o, i)
    {
      if i > 0 {
        assert o[i] == order[i - 1];
        if i == 1 {
          assert n[o[i]] == nodes[order[0]].(prev := idx);
        } else {
          assert order[0] != order[i - 1];
          assert n[o[i]] == nodes[order[i - 1]];
        }
      }
    }
    DistinctCons(idx, order);
  }

  lemma DistinctCons(x: int, s: seq<int>)
    requires Distinct(s) && x !in s
    ensures Distinct([x] + s)
  {
    var o := [x] + s;
    forall i, j | 0 <= i < j < |o| ensures o[i] != o[j] {
      assert o[j] == s[j - 1];
      if i > 0 { assert o[i] == s[i - 1]; }
    }
  }

  lemma DistinctRemove(s: seq<int>, p: nat)
    requires Distinct(s) && p < |s|
    ensures Distinct(s[..p] + s[p + 1..])
    ensures forall i | 0 <= i < |s| - 1 :: (s[..p] + s[p + 1..])[i] == if i < p then s[i] else s[i + 1]
  {
    var o := s[..p] + s[p + 1..];
    forall i | 0 <= i < |o| ensures o[i] == if i < p then s[i] else s[i + 1] {
    }
    forall i, j | 0 <= i < j < |o| ensures o[i] != o[j] {
      var ki := if i < p then i else i + 1;
      var kj := if j < p then j else j + 1;
      assert o[i] == s[ki] && o[j] == s[kj];
    }
  }

  /** What listRemove writes: idx is disconnected, its neighbours are
      linked to each other, head or tail move when idx was at an end. */
  lemma ListRemoveShape(nodes: seq<ListNode>, list: List, idx: int)
    requires 0 <= idx < |nodes|
    requires -1 <= nodes[idx].prev < |nodes| && -1 <= nodes[idx].next < |nodes|
    requires nodes[idx].prev != idx && nodes[idx].next != idx
    requires nodes[idx].prev == -1 || nodes[idx].prev != nodes[idx].next
    ensures var prev, next := nodes[idx].prev, nodes[idx].next;
      var r := ListRemove(nodes, list, idx);
      |r.0| == |nodes| && r.0[idx] == Disconnected &&
      (prev != -1 ==> r.0[prev] == nodes[prev].(next := next)) &&
      (next != -1 ==> r.0[next] == nodes[next].(prev := prev)) &&
      (forall j | 0 <= j < |nodes| && j != idx && j != prev && j != next :: r.0[j] == nodes[j]) &&
      r.1.head == (if prev == -1 then next else list.head) &&
      r.1.tail == (if next == -1 then prev else list.tail)
  {
  }

  /** The writes listRemove makes when splicing position p out of order. */
  ghost predicate Spliced(nodes: seq<ListNode>, order: seq<int>, p: nat, n: seq<ListNode>)
    requires p < |order|
  {
    var idx, prev, next := order[p], Pred(order, p), Succ(order, p);
    |n| == |nodes| &&
    (prev != -1 ==> 0 <= prev < |nodes| && n[prev] == nodes[prev].(next := next)) &&
    (next != -1 ==> 0 <= next < |nodes| && n[next] == nodes[next].(prev := prev)) &&
    (forall j | 0 <= j < |nodes| && j != idx && j != prev && j != next :: n[j] == nodes[j])
  }

  /** Splicing position p out of a list, as listRemove does, leaves a list
      of the remaining positions. */
  lemma SplicedIsList(nodes: seq<ListNode>, list: List, order: seq<int>, p: nat, n: seq<ListNode>, l: List)
    requires IsList(nodes, list, order) && p < |order|
    requires Spliced(nodes, order, p, n)
    requires l.head == (if p == 0 then Succ(order, p) else list.head)
    requires l.tail == (if p + 1 == |order| then Pred(order, p) else list.tail)
    ensures IsList(n, l, order[..p] + order[p + 1..])
  {
    var o := order[..p] + order[p + 1..];
    DistinctRemove(order, p);
    assert forall i | 0 <= i < |o| :: 0 <= o[i] < |n| by {
      forall i | 0 <= i < |o| ensures 0 <= o[i] < |n| {
        if i < p { assert o[i] == order[i]; } else { assert o[i] == order[i + 1]; }
      }
    }
    assert l.head == (if o == [] then -1 else o[0]) by {
      if |order| > 1 { if p == 0 { assert o[0] == order[1]; } else { assert o[0] == order[0]; } }
    }
    assert l.tail == (if o == [] then -1 else o[|o| - 1]) by {
      if |order| > 1 {
        if p + 1 == |order| { assert o[|o| - 1] == order[p - 1]; } else { assert o[|o| - 1] == order[|order| - 1]; }
      }
    }
    forall i | 0 <= i < |o|
      ensures n[o[i]].next == Succ(o, i) && n[o[i]].prev == Pred(o, i)
    {
      SplicedNode(nodes, list, order, p, n, o, i);
    }
    assert Distinct(o);
    assert forall i | 0 <= i < |o| :: n[o[i]].next == Succ(o, i);
    assert forall i | 0 <= i < |o| :: n[o[i]].prev == Pred(o, i);
    assert IsList(n, l, o);
  }

  /** One position i of the order left after the splice, given as o. */
  lemma SplicedNode(nodes: seq<ListNode>, list: List, order: seq<int>, p: nat, n: seq<ListNode>,
                    o: seq<int>, i: nat)
    requires IsList(nodes, list, order) && p < |order|
    requires Spliced(nodes, order, p, n)
    requires |o| == |order| - 1 && forall j {:trigger o[j]} | 0 <= j < |o| :: o[j] == if j < p then order[j] else order[j + 1]
    requires i < |o|
    ensures 0 <= o[i] < |n| && n[o[i]].next == Succ(o, i) && n[o[i]].prev == Pred(o, i)
  {
    var idx, prev, next := order[p], Pred(order, p), Succ(order, p);
    var k := if i < p then i else i + 1;
    var x := order[k];
    assert o[i] == x;
    assert 0 <= x < |nodes| && nodes[x].next == Succ(order, k) && nodes[x].prev == Pred(order, k);
    assert x != idx;
    assert x == prev <==> k == p - 1 by { if p > 0 && k != p - 1 { assert order[k] != order[p - 1]; } }
    assert x == next <==> k == p + 1 by { if p + 1 < |order| && k != p + 1 { assert order[k] != order[p + 1]; } }
    assert prev != -1 ==> n[prev] == nodes[prev].(next := next);
    assert next != -1 ==> n[next] == nodes[next].(prev := prev);
    assert x != prev && x != next ==> n[x] == nodes[x];
    assert |n| == |nodes|;
    if i > 0 { assert o[i - 1] == if i - 1 < p then order[i - 1] else order[i]; }
    if i + 1 < |o| { assert o[i + 1] == if i + 1 < p then order[i + 1] else order[i + 2]; }
    hide IsList, Spliced, Distinct;
  }

  lemma ListRemoveCorrect(nodes: seq<ListNode>, list: List, order: seq<int>, p: nat)
    requires IsList(nodes, list, order)
    requires p < |order|
    ensures var idx := order[p];
      -1 <= nodes[idx].prev < |nodes| && -1 <= nodes[idx].next < |nodes|
    ensures var r := ListRemove(nodes, list, order[p]);
      IsList(r.0, r.1, order[..p] + order[p + 1..]) &&
      |r.0| == |nodes| && r.0[order[p]] == Disconnected &&
      forall j | 0 <= j < |nodes| && j !in order :: r.0[j] == nodes[j]
  {
    var idx := order[p];
    var prev := nodes[idx].prev;
    var next := nodes[idx].next;
    assert prev == Pred(order, p) && next == Succ(order, p);
    assert prev != idx by { if p > 0 { assert order[p - 1] != order[p]; } }
    assert next != idx by { if p + 1 < |order| { assert order[p + 1] != order[p]; } }
    assert prev == -1 || prev != next by {
      if p > 0 && p + 1 < |order| { assert order[p - 1] != order[p + 1]; }
    }
    ListRemoveShape(nodes, list, idx);
    var r := ListRemove(nodes, list, idx);
    SplicedIsList(nodes, list, order, p, r.0, r.1);
    forall j | 0 <= j < |nodes| && j !in order
      ensures r.0[j] == nodes[j]
    {
      if p > 0 { assert prev == order[p - 1]; }
      if p + 1 < |order| { assert next == order[p + 1]; }
    }
  }

  /** A list keeps its shape when only nodes outside it change. */
  lemma ListFrame(nodes: seq<ListNode>, nodes': seq<ListNode>, list: List, order: seq<int>)
    requires IsList(nodes, list, order)
    requires |nodes| <= |nodes'|
    requires forall j | 0 <= j < |nodes| && j in order :: nodes'[j] == nodes[j]
    ensures IsList(nodes', list, order)
  {
    forall i | 0 <= i < |order| ensures nodes'[order[i]] == nodes[order[i]] {
      assert order[i] in order;
    }
  }

  datatype Allocated = Allocated(nodes: seq<ListNode>, list: List, idx: int)

  /** freeListAlloc: pops the head of the free list, or appends a fresh
      disconnected node when the list is empty. */
  function FreeListAlloc(nodes: seq<ListNode>, list: List): (r: Allocated)
    requires -1 <= list.head < |nodes|
    requires list.head != -1 ==> -1 <= nodes[list.head].prev < |nodes| && -1 <= nodes[list.head].next < |nodes|
    ensures 0 <= r.idx < |r.nodes|
    ensures r.idx == if list.IsEmpty() then |nodes| else list.head
  {
    if list.IsEmpty() then
      Allocated(nodes + [Disconnected], list, |nodes|)
    else
      var (n, l) := ListRemove(nodes, list, list.head);
      Allocated(n, l, list.head)
  }

  lemma FreeListAllocCorrect(nodes: seq<ListNode>, list: List, order: seq<int>)
    requires IsList(nodes, list, order)
    ensures -1 <= list.head < |nodes|
    ensures list.head != -1 ==> -1 <= nodes[list.head].prev < |nodes| && -1 <= nodes[list.head].next < |nodes|
    ensures var r := FreeListAlloc(nodes, list);
      IsList(r.nodes, r.list, if order == [] then [] else order[1..]) &&
      r.idx == (if order == [] then |nodes| else order[0]) &&
      |r.nodes| == |nodes| + (if order == [] then 1 else 0) &&
      r.nodes[r.idx] == Disconnected &&
      forall j | 0 <= j < |nodes| && j !in order :: r.nodes[j] == nodes[j]
  {
    if order == [] {
      FreeListAllocFresh(nodes, list, order);
    } else {
      FreeListAllocPop(nodes, list, order);
    }
  }

  lemma FreeListAllocFresh(nodes: seq<ListNode>, list: List, order: seq<int>)
    requires IsList(nodes, list, order) && order == []
    ensures list.head == -1
    ensures var r := FreeListAlloc(nodes, list);
      IsList(r.nodes, r.list, []) && r.idx == |nodes| && |r.nodes| == |nodes| + 1 &&
      r.nodes[r.idx] == Disconnected && forall j | 0 <= j < |nodes| :: r.nodes[j] == nodes[j]
  {
    var r := FreeListAlloc(nodes, list);
    ListFrame(nodes, r.nodes, list, order);
  }

  lemma FreeListAllocPop(nodes: seq<ListNode>, list: List, order: seq<int>)
    requires IsList(nodes, list, order) && order != []
    ensures list.head == order[0] && 0 <= list.head < |nodes|
    ensures -1 <= nodes[list.head].prev < |nodes| && -1 <= nodes[list.head].next < |nodes|
    ensures var r := FreeListAlloc(nodes, list);
      IsList(r.nodes, r.list, order[1..]) && r.idx == order[0] && |r.nodes| == |nodes| &&
      r.nodes[r.idx] == Disconnected && forall j | 0 <= j < |nodes| && j !in order :: r.nodes[j] == nodes[j]
  {
    assert list.head == order[0] && 0 <= list.head < |nodes|;
    ListRemoveCorrect(nodes, list, order, 0);
    hide IsList;
    assert order[..0] + order[1..] == order[1..];
    var (n, l) := ListRemove(nodes, list, order[0]);
    assert FreeListAlloc(nodes, list) == Allocated(n, l, order[0]);
    hide ListRemove, FreeListAlloc;
  }

  /** Each index below n is on exactly one of the two orders. */
  ghost predicate Partition(n: int, a: seq<int>, b: seq<int>)
  {
    forall i | 0 <= i < n :: i in a <==> i !in b
  }

  /** Two lists over the same nodes that partition the indices. */
  ghost predicate TwoLists(nodes: seq<ListNode>, a: List, aOrder: seq<int>, b: List, bOrder: seq<int>)
  {
    IsList(nodes, a, aOrder) && IsList(nodes, b, bOrder) && Partition(|nodes|, aOrder, bOrder)
  }

  /** The tail of a distinct order holds the other entries. */
  lemma TailMembers(b: seq<int>)
    requires Distinct(b) && b != []
    ensures forall j | j in b[1..] :: j in b && j != b[0]
    ensures forall j | j in b && j != b[0] :: j in b[1..]
  {
    forall j | j in b[1..] ensures j in b && j != b[0] {
      var k :| 0 <= k < |b| - 1 && b[1..][k] == j;
      assert b[k + 1] == j;
    }
    forall j | j in b && j != b[0] ensures j in b[1..] {
      var k :| 0 <= k < |b| && b[k] == j;
      assert b[1..][k - 1] == j;
    }
  }

  /** Removing position p of a distinct order keeps exactly the other entries. */
  lemma RemoveMembers(a: seq<int>, p: nat)
    requires Distinct(a) && p < |a|
    ensures forall j | j in a[..p] + a[p + 1..] :: j in a && j != a[p]
    ensures forall j | j in a && j != a[p] :: j in a[..p] + a[p + 1..]
  {
    var a' := a[..p] + a[p + 1..];
    DistinctRemove(a, p);
    forall j | j in a' ensures j in a && j != a[p] {
      var k :| 0 <= k < |a'| && a'[k] == j;
      if k < p { assert a[k] == j; } else { assert a[k + 1] == j; }
    }
    forall j | j in a && j != a[p] ensures j in a' {
      var k :| 0 <= k < |a| && a[k] == j;
      if k < p { assert a'[k] == j; } else { assert a'[k - 1] == j; }
    }
  }

  /** The free list's part of alloc(): the head leaves the free list, the
      active list is untouched. */
  lemma AllocTakesFree(nodes: seq<ListNode>, a: List, aOrder: seq<int>, b: List, bOrder: seq<int>)
    requires TwoLists(nodes, a, aOrder, b, bOrder)
    ensures -1 <= b.head < |nodes|
    ensures b.head != -1 ==> -1 <= nodes[b.head].prev < |nodes| && -1 <= nodes[b.head].next < |nodes|
    ensures var r := FreeListAlloc(nodes, b);
      var bOrder' := if bOrder == [] then [] else bOrder[1..];
      IsList(r.nodes, r.list, bOrder') && IsList(r.nodes, a, aOrder) &&
      r.nodes[r.idx] == Disconnected && r.idx !in aOrder && |r.nodes| == |nodes| + (if bOrder == [] then 1 else 0) &&
      (forall j | j in bOrder' :: j != r.idx && j !in aOrder) &&
      Partition(|r.nodes|, [r.idx] + aOrder, bOrder')
  {
    FreeListAllocCorrect(nodes, b, bOrder);
    var r := FreeListAlloc(nodes, b);
    ListFrame(nodes, r.nodes, a, aOrder);
    if bOrder != [] {
      TailMembers(bOrder);
      ReusePartition(|nodes|, aOrder, bOrder);
    } else {
      FreshPartition(|nodes|, aOrder);
    }
  }

  lemma ReusePartition(n: int, a: seq<int>, b: seq<int>)
    requires Partition(n, a, b) && b != [] && 0 <= b[0] < n
    requires forall j | j in b[1..] :: j in b && j != b[0]
    requires forall j | j in b && j != b[0] :: j in b[1..]
    ensures Partition(n, [b[0]] + a, b[1..])
  {
  }

  lemma FreshPartition(n: int, a: seq<int>)
    requires Partition(n, a, []) && forall i | 0 <= i < |a| :: 0 <= a[i] < n
    ensures Partition(n + 1, [n] + a, [])
  {
  }

  /** alloc() on the two lists of a LinkedVector: take the head of b (or a
      fresh index) and put it at the head of a. */
  lemma AllocMoves(nodes: seq<ListNode>, a: List, aOrder: seq<int>, b: List, bOrder: seq<int>)
    requires TwoLists(nodes, a, aOrder, b, bOrder)
    ensures -1 <= b.head < |nodes| && (b.IsEmpty() <==> bOrder == [])
    ensures b.head != -1 ==> -1 <= nodes[b.head].prev < |nodes| && -1 <= nodes[b.head].next < |nodes|
    ensures var r := FreeListAlloc(nodes, b);
      r.nodes[r.idx] == Disconnected && -1 <= a.head < |r.nodes| &&
      var bOrder' := if bOrder == [] then [] else bOrder[1..];
      var (n, a') := ListInsert(r.nodes, a, r.idx);
      TwoLists(n, a', [r.idx] + aOrder, r.list, bOrder') &&
      |n| == |nodes| + (if bOrder == [] then 1 else 0) &&
      r.idx == (if bOrder == [] then |nodes| else bOrder[0])
  {
    AllocTakesFree(nodes, a, aOrder, b, bOrder);
    var r := FreeListAlloc(nodes, b);
    var bOrder' := if bOrder == [] then [] else bOrder[1..];
    ListInsertCorrect(r.nodes, a, aOrder, r.idx);
    var (n, a') := ListInsert(r.nodes, a, r.idx);
    ListFrame(r.nodes, n, r.list, bOrder');
  }

  /** The active list's part of free(idx). */
  lemma FreeLeavesActive(nodes: seq<ListNode>, a: List, aOrder: seq<int>, b: List, bOrder: seq<int>, p: nat)
    requires TwoLists(nodes, a, aOrder, b, bOrder) && p < |aOrder|
    ensures 0 <= aOrder[p] < |nodes|
    ensures var idx := aOrder[p];
      -1 <= nodes[idx].prev < |nodes| && -1 <= nodes[idx].next < |nodes|
    ensures var idx := aOrder[p];
      var aOrder' := aOrder[..p] + aOrder[p + 1..];
      var (n1, a') := ListRemove(nodes, a, idx);
      |n1| == |nodes| && IsList(n1, a', aOrder') && IsList(n1, b, bOrder) && n1[idx] == Disconnected &&
      idx !in bOrder &&
      (forall j | j in aOrder' :: j != idx && j !in bOrder) &&
      Partition(|n1|, aOrder', [idx] + bOrder)
  {
    var idx := aOrder[p];
    ListRemoveCorrect(nodes, a, aOrder, p);
    var (n1, a') := ListRemove(nodes, a, idx);
    ListFrame(nodes, n1, b, bOrder);
    RemoveMembers(aOrder, p);
  }

  /** free(idx) on the two lists of a LinkedVector: unlink position p of a
      and put it at the head of b. */
  lemma FreeMoves(nodes: seq<ListNode>, a: List, aOrder: seq<int>, b: List, bOrder: seq<int>, p: nat)
    requires TwoLists(nodes, a, aOrder, b, bOrder) && p < |aOrder|
    ensures 0 <= aOrder[p] < |nodes|
    ensures var idx := aOrder[p];
      -1 <= nodes[idx].prev < |nodes| && -1 <= nodes[idx].next < |nodes|
    ensures var idx := aOrder[p];
      var (n1, a') := ListRemove(nodes, a, idx);
      |n1| == |nodes| && n1[idx] == Disconnected && -1 <= b.head < |n1| &&
      var (n2, b') := ListInsert(n1, b, idx);
      TwoLists(n2, a', aOrder[..p] + aOrder[p + 1..], b', [idx] + bOrder) &&
      |n2| == |nodes|
  {
    var idx := aOrder[p];
    FreeLeavesActive(nodes, a, aOrder, b, bOrder, p);
    var (n1, a') := ListRemove(nodes, a, idx);
    ListInsertCorrect(n1, b, bOrder, idx);
    var (n2, b') := ListInsert(n1, b, idx);
    ListFrame(n1, n2, a', aOrder[..p] + aOrder[p + 1..]);
  }

  /** LinkedVector<Object>: a vector of (ListNode, Object) pairs threaded by
      an active list and a free list. The pairs are kept as two parallel
      sequences of equal length; emplace_back() default-constructs an
      Object, given here as defaultObject. */
  class LinkedVector<T> {
    const defaultObject: T
    var links: seq<ListNode>
    var objects: seq<T>
    var active: List
    var free: List
    var listSize: int
    ghost var activeOrder: seq<int>
    ghost var freeOrder: seq<int>

    /** Every element is on exactly one of the two lists, and listSize counts
        the active ones. */
    ghost predicate Valid()
      reads this
    {
      |objects| == |links| &&
      TwoLists(links, active, activeOrder, free, freeOrder) &&
      listSize == |activeOrder|
    }

    constructor(defaultObject: T)
      ensures Valid() && links == [] && listSize == 0
      ensures activeOrder == [] && freeOrder == []
    {
      this.defaultObject := defaultObject;
      links, objects := [], [];
      active, free := EmptyList, EmptyList;
      listSize := 0;
      activeOrder, freeOrder := [], [];
    }

    /** size(): every element, active or free. */
    function Size(): (r: int)
      reads this
      requires Valid()
      ensures r == |activeOrder| + |freeOrder|
    {
      SplitCount(links, activeOrder, freeOrder);
      |links|
    }

    /** alloc(): takes the free-list head (or appends a new element) and
        puts it at the head of the active list. */
    method Alloc() returns (idx: int)
      requires Valid()
      modifies this
      ensures Valid()
      ensures idx == if old(free.IsEmpty()) then old(|links|) else old(free.head)
      ensures activeOrder == [idx] + old(activeOrder)
      ensures freeOrder == if old(freeOrder) == [] then [] else old(freeOrder[1..])
      ensures listSize == old(listSize) + 1
      ensures |links| == old(|links|) + (if old(free.IsEmpty()) then 1 else 0)
      ensures forall i | 0 <= i < old(|objects|) :: objects[i] == old(objects[i])
    {
      AllocMoves(links, active, activeOrder, free, freeOrder);
      hide FreeListAlloc, ListInsert, ListRemove, IsList, TwoLists;
      var r := FreeListAlloc(links, free);
      idx := r.idx;
      var objs := if free.IsEmpty() then objects + [defaultObject] else objects;
      var (n, a) := ListInsert(r.nodes, active, idx);
      ghost var ao := [idx] + activeOrder;
      ghost var fo := if freeOrder == [] then [] else freeOrder[1..];
      Install(n, objs, a, r.list, listSize + 1, ao, fo);
    }

    /** Writes a whole new state that keeps the two lists. */
    method Install(n: seq<ListNode>, objs: seq<T>, a: List, f: List, size: int,
                   ghost ao: seq<int>, ghost fo: seq<int>)
      requires |objs| == |n| && TwoLists(n, a, ao, f, fo) && size == |ao|
      modifies this
      ensures Valid()
      ensures links == n && objects == objs && active == a && free == f && listSize == size
      ensures activeOrder == ao && freeOrder == fo
    {
      links, objects, active, free, listSize := n, objs, a, f, size;
      activeOrder, freeOrder := ao, fo;
    }

    /** free(idx): moves an active element to the head of the free list. */
    method Free(idx: int)
      requires Valid() && idx in activeOrder
      modifies this
      ensures Valid()
      ensures exists p | 0 <= p < |old(activeOrder)| && old(activeOrder)[p] == idx ::
        activeOrder == old(activeOrder)[..p] + old(activeOrder)[p + 1..]
      ensures freeOrder == [idx] + old(freeOrder)
      ensures listSize == old(listSize) - 1
      ensures |links| == old(|links|) && objects == old(objects)
    {
      ghost var p :| 0 <= p < |activeOrder| && activeOrder[p] == idx;
      FreeMoves(links, active, activeOrder, free, freeOrder, p);
      hide FreeListAlloc, ListInsert, ListRemove, IsList, TwoLists;
      var (n1, a) := ListRemove(links, active, idx);
      var (n2, f) := ListInsert(n1, free, idx);
      ghost var ao := activeOrder[..p] + activeOrder[p + 1..];
      Install(n2, objects, a, f, listSize - 1, ao, [idx] + freeOrder);
    }

    function Head(): (r: int)
      reads this
      requires Valid()
      ensures r == if activeOrder == [] then -1 else activeOrder[0]
    {
      active.head
    }

    function Tail(): (r: int)
      reads this
      requires Valid()
      ensures r == if activeOrder == [] then -1 else activeOrder[|activeOrder| - 1]
    {
      active.tail
    }

    /** next(idx) and prev(idx) of an active element are its neighbours in
        the active order. */
    function Next(idx: int): (r: int)
      reads this
      requires Valid() && 0 <= idx < |links|
      ensures forall p | 0 <= p < |activeOrder| && activeOrder[p] == idx :: r == Succ(activeOrder, p)
    {
      links[idx].next
    }

    function Prev(idx: int): (r: int)
      reads this
      requires Valid() && 0 <= idx < |links|
      ensures forall p | 0 <= p < |activeOrder| && activeOrder[p] == idx :: r == Pred(activeOrder, p)
    {
      links[idx].prev
    }
  }

  /** Two distinct lists partitioning 0 .. n - 1 have n entries together. */
  lemma SplitCount(links: seq<ListNode>, a: seq<int>, b: seq<int>)
    requires forall i | 0 <= i < |a| :: 0 <= a[i] < |links|
    requires forall i | 0 <= i < |b| :: 0 <= b[i] < |links|
    requires Distinct(a) && Distinct(b)
    requires forall i | 0 <= i < |links| :: i in a <==> i !in b
    ensures |a| + |b| == |links|
  {
    var sa := set i | i in a;
    var sb := set i | i in b;
    var all := set i | i in Range(|links|);
    DistinctCard(a);
    DistinctCard(b);
    RangeDistinct(|links|);
    DistinctCard(Range(|links|));
    forall i | i in sa + sb ensures i in all { assert Range(|links|)[i] == i; }
    forall i | i in all ensures i in sa + sb { }
    assert sa + sb == all;
    assert sa * sb == {};
    assert |sa + sb| == |sa| + |sb|;
  }

  /** 0, 1, ..., n - 1 */
  function Range(n: nat): (r: seq<int>)
    ensures |r| == n && forall i | 0 <= i < n :: r[i] == i
  {
    seq(n, i => i)
  }

  lemma RangeDistinct(n: nat)
    ensures Distinct(Range(n))
    ensures forall i :: i in Range(n) <==> 0 <= i < n
  {
    forall i | 0 <= i < n ensures i in Range(n) { assert Range(n)[i] == i; }
  }

  lemma {:induction false} DistinctCard(s: seq<int>)
    requires Distinct(s)
    ensures |set i | i in s| == |s|
  {
    if s != [] {
      var t := s[1..];
      assert Distinct(t) by {
        forall i, j | 0 <= i < j < |t| ensures t[i] != t[j] { assert t[i] == s[i + 1] && t[j] == s[j + 1]; }
      }
      DistinctCard(t);
      assert (set i | i in s) == (set i | i in t) + {s[0]};
      assert s[0] !in t by {
        forall k | 0 <= k < |t| ensures t[k] != s[0] { assert t[k] == s[k + 1]; }
      }
    }
  }

  /** 1 << k for a bit position k of a 32-bit word, as a table of the 32
      one-bit masks. */
  function Mask(k: int): (r: bv32)
    requires 0 <= k < 32
  {
    match k
    case 0 => 0x1
    case 1 => 0x2
    case 2 => 0x4
    case 3 => 0x8
    case 4 => 0x10
    case 5 => 0x20
    case 6 => 0x40
    case 7 => 0x80
    case 8 => 0x100
    case 9 => 0x200
    case 10 => 0x400
    case 11 => 0x800
    case 12 => 0x1000
    case 13 => 0x2000
    case 14 => 0x4000
    case 15 => 0x8000
    case 16 => 0x10000
    case 17 => 0x20000
    case 18 => 0x40000
    case 19 => 0x80000
    case 20 => 0x100000
    case 21 => 0x200000
    case 22 => 0x400000
    case 23 => 0x800000
    case 24 => 0x1000000
    case 25 => 0x2000000
    case 26 => 0x4000000
    case 27 => 0x8000000
    case 28 => 0x10000000
    case 29 => 0x20000000
    case 30 => 0x40000000
    case 31 => 0x80000000
  }

  lemma MaskIsShift(k: int)
    requires 0 <= k < 32
    ensures Mask(k) == (1 as bv32) << k
  {
    if k < 8 {} else if k < 16 {} else if k < 24 {} else {}
  }

  /** A word with exactly one bit set. */
  predicate OneHot(m: bv32)
  {
    m != 0 && m & (m - 1) == 0
  }

  lemma MaskOneHot(k: int)
    requires 0 <= k < 32
    ensures OneHot(Mask(k))
  {
  }

  lemma MaskInjective(j: int, k: int)
    requires 0 <= j < 32 && 0 <= k < 32 && j != k
    ensures Mask(j) != Mask(k)
  {
    if j < 4 {} else if j < 8 {} else if j < 12 {} else if j < 16 {}
    else if j < 20 {} else if j < 24 {} else if j < 28 {} else {}
  }

  /** Distinct one-bit masks share no bit. */
  lemma OneHotDisjoint(a: bv32, b: bv32)
    requires OneHot(a) && OneHot(b) && a != b
    ensures a & b == 0
  {
  }

  /** Bit::operator=: clears the masked bit and ors in the new value. */
  function SetBitInWord(word: bv32, mask: bv32, value: bool): bv32
  {
    (word & !mask) | (if value then mask else 0)
  }

  lemma SetBitSame(word: bv32, mask: bv32, value: bool)
    requires mask != 0
    ensures (SetBitInWord(word, mask, value) & mask != 0) == value
  {
  }

  lemma SetBitOther(word: bv32, mask: bv32, other: bv32, value: bool)
    requires mask & other == 0
    ensures SetBitInWord(word, mask, value) & other == word & other
  {
  }

  /** The bit under mask m of word w in a word sequence. */
  function BitAt(words: seq<bv32>, w: int, m: bv32): bool
    requires 0 <= w < |words|
  {
    words[w] & m != 0
  }

  /** The word sequence after Bit::operator= on the bit under mask m of
      word w. */
  function WithBit(words: seq<bv32>, w: int, m: bv32, value: bool): (r: seq<bv32>)
    requires 0 <= w < |words|
    ensures |r| == |words|
  {
    words[w := SetBitInWord(words[w], m, value)]
  }

  /** The written bit reads back as the value written. The word is passed
      separately as x, which keeps the bit-vector reasoning about a plain
      value. */
  lemma WithBitReadsBack(words: seq<bv32>, w: int, m: bv32, value: bool, x: bv32)
    requires 0 <= w < |words| && m != 0 && x == words[w]
    ensures BitAt(WithBit(words, w, m, value), w, m) == value
  {
    SetBitSame(x, m, value);
  }

  /** Every other bit reads as before. */
  lemma WithBitKeepsOthers(words: seq<bv32>, w: int, m: bv32, value: bool, w2: int, m2: bv32, x: bv32, y: bv32)
    requires 0 <= w < |words| && 0 <= w2 < |words| && OneHot(m) && OneHot(m2)
    requires w2 != w || m2 != m
    requires x == words[w2] && y == WithBit(words, w, m, value)[w2]
    ensures BitAt(WithBit(words, w, m, value), w2, m2) == BitAt(words, w2, m2)
  {
    if w2 == w {
      OneHotDisjoint(m, m2);
      SetBitOther(x, m, m2, value);
    }
  }

  /** Writing bit idx of a packed word sequence keeps every other bit i. */
  lemma PackedKeepsOthers(words: seq<bv32>, idx: int, value: bool, i: int)
    requires 0 <= idx < 32 * |words| && 0 <= i < 32 * |words| && i != idx
    ensures 0 <= idx / 32 < |words| && 0 <= i / 32 < |words| && 0 <= idx % 32 < 32 && 0 <= i % 32 < 32
    ensures BitAt(WithBit(words, idx / 32, Mask(idx % 32), value), i / 32, Mask(i % 32)) ==
      BitAt(words, i / 32, Mask(i % 32))
  {
    BitPlaces(idx, i, |words|);
    MaskOneHot(i % 32);
    MaskOneHot(idx % 32);
    if i / 32 == idx / 32 { MaskInjective(i % 32, idx % 32); }
    var after := WithBit(words, idx / 32, Mask(idx % 32), value);
    WithBitKeepsOthers(words, idx / 32, Mask(idx % 32), value, i / 32, Mask(i % 32), words[i / 32], after[i / 32]);
  }

  /** Bit index idx lives at word idx >> 5, position idx & 31, and distinct
      indices live at distinct places. */
  lemma BitPlaces(idx: int, i: int, n: nat)
    requires 0 <= idx < 32 * n && 0 <= i < 32 * n
    ensures 0 <= idx / 32 < n && 0 <= idx % 32 < 32
    ensures i != idx ==> i / 32 != idx / 32 || i % 32 != idx % 32
  {
    assert i == 32 * (i / 32) + i % 32;
    assert idx == 32 * (idx / 32) + idx % 32;
  }

  /** BitVector: size bits packed into 32-bit words; bit idx lives in word
      idx >> 5 under the mask 1 << (idx & 31). */
  class BitVector {
    var data: array<bv32>
    var size: int

    ghost predicate Valid()
      reads this
    {
      0 <= size && data.Length == (size + 31) / 32
    }

    constructor(size: int)
      requires size >= 0
      ensures Valid() && this.size == size && fresh(data)
    {
      this.size := size;
      data := new bv32[(size + 31) / 32];
    }

    /** operator[] const. */
    function Get(idx: int): bool
      reads this, data
      requires 0 <= idx < 32 * data.Length
    {
      BitPlaces(idx, idx, data.Length);
      BitAt(data[..], idx / 32, Mask(idx % 32))
    }

    /** operator[] returning Bit, then Bit::operator=: afterwards bit idx
        reads back as value and every other bit reads as before. */
    method Set(idx: int, value: bool)
      requires 0 <= idx < 32 * data.Length
      modifies data
      ensures Get(idx) == value
      ensures forall i | 0 <= i < 32 * data.Length && i != idx :: Get(i) == old(Get(i))
    {
      BitPlaces(idx, idx, data.Length);
      var w, j := idx / 32, idx % 32;
      ghost var before := data[..];
      var m := Mask(j);
      MaskOneHot(j);
      data[w] := SetBitInWord(data[w], m, value);
      assert data[..] == WithBit(before, w, m, value);
      WithBitReadsBack(before, w, m, value, before[w]);
      forall i | 0 <= i < 32 * data.Length && i != idx
        ensures Get(i) == old(Get(i))
      {
        PackedKeepsOthers(before, idx, value, i);
      }
    }
  }
}
