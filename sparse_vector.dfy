// SparseVector<T> of include/fwk/sparse_vector.h: a block of element slots
// with holes. A slot below spread holds either a value (its valid flag is
// set) or a ListNode of the free list threading the holes.
//
// The C++ Element is a union of T and ListNode; here the two halves are
// parallel sequences and the valid flag says which half is meaningful.
module SparseVectorModel {
  import opened Wrappers
  import opened FwkBase
  import opened Seqs

  /** SparseVector::initial_size. */
  const InitialSize := 8

  /** growCapacity() for the current capacity: doubling above 4096 slots,
      otherwise growth by half, and at least initial_size. */
  function GrowCapacity(capacity: nat): (r: nat)
    ensures r > capacity && r >= InitialSize
  {
    if capacity > 4096 then capacity * 2 else Max((capacity * 3 + 1) / 2, InitialSize)
  }

  lemma GrowCapacityExamples()
    ensures GrowCapacity(0) == 8 && GrowCapacity(8) == 12 && GrowCapacity(12) == 18
    ensures GrowCapacity(4096) == 6144 && GrowCapacity(4097) == 8194
  {
  }

  /** insertCapacity(min_size): the grown capacity, or min_size when that
      is larger. */
  function InsertCapacity(capacity: nat, minSize: int): (r: nat)
    ensures r >= minSize && r > capacity
    ensures r == GrowCapacity(capacity) || r == minSize
  {
    var cap := GrowCapacity(capacity);
    if cap > minSize then cap else minSize
  }

  /** The slots below n as values: Some(value) for a valid slot, None for
      a hole. */
  function Slots<T>(valids: seq<bool>, values: seq<T>, n: nat): (r: seq<Option<T>>)
    requires n <= |valids| && n <= |values|
    ensures |r| == n
    ensures forall i | 0 <= i < n :: r[i] == if valids[i] then Some(values[i]) else None
  {
    seq(n, i requires 0 <= i < n => if valids[i] then Some(values[i]) else None)
  }

  /** The index-to-value map a slot view describes. */
  ghost function ContentsOfSlots<T>(x: seq<Option<T>>): map<int, T>
  {
    map i | 0 <= i < |x| && x[i].Some? :: x[i].value
  }

  /** The elements stored below spread, by index. */
  ghost function Stored<T>(valids: seq<bool>, values: seq<T>, spread: int): map<int, T>
  {
    map i | 0 <= i < spread && i < |valids| && i < |values| && valids[i] :: values[i]
  }

  /** The slot layout: below spread every slot is valid or on the free list,
      never both, except one slot `hole` that alloc() has handed out and
      that is neither (-1 for none); above spread nothing is valid; size
      counts the valid flags. */
  ghost predicate SlotLayout(nodes: seq<ListNode>, valids: seq<bool>, freeList: List, freeOrder: seq<int>,
                             spread: int, size: int, hole: int)
  {
    |nodes| == |valids| &&
    0 <= spread <= |valids| &&
    IsList(nodes, freeList, freeOrder) &&
    (forall i | 0 <= i < |freeOrder| :: freeOrder[i] < spread) &&
    (forall i | 0 <= i < spread && i != hole :: valids[i] <==> i !in freeOrder) &&
    (0 <= hole < spread ==> !valids[hole] && hole !in freeOrder) &&
    (forall i | spread <= i < |valids| :: !valids[i]) &&
    size == CountTrue(valids[..spread])
  }

  /** reallocate: appending unused slots keeps the layout. */
  lemma LayoutExtend(nodes: seq<ListNode>, valids: seq<bool>, freeList: List, freeOrder: seq<int>,
                     spread: int, size: int, extra: nat)
    requires SlotLayout(nodes, valids, freeList, freeOrder, spread, size, -1)
    ensures SlotLayout(nodes + seq(extra, _ => Disconnected), valids + seq(extra, _ => false),
                       freeList, freeOrder, spread, size, -1)
  {
    ListFrame(nodes, nodes + seq(extra, _ => Disconnected), freeList, freeOrder);
    assert (valids + seq(extra, _ => false))[..spread] == valids[..spread];
  }

  lemma StoredExtend<T>(valids: seq<bool>, values: seq<T>, spread: int, extra: nat, filler: T)
    requires 0 <= spread <= |valids| == |values|
    ensures Stored(valids + seq(extra, _ => false), values + seq(extra, _ => filler), spread) == Stored(valids, values, spread)
  {
  }

  /** alloc() with an empty free list: slot spread becomes the hole. */
  lemma LayoutTakeSpread(nodes: seq<ListNode>, valids: seq<bool>, freeList: List, freeOrder: seq<int>,
                         spread: int, size: int)
    requires SlotLayout(nodes, valids, freeList, freeOrder, spread, size, -1)
    requires freeOrder == [] && spread < |valids|
    ensures SlotLayout(nodes, valids, freeList, freeOrder, spread + 1, size, spread)
  {
    assert valids[..spread + 1] == valids[..spread] + [false];
    CountTrueAppend(valids[..spread], false);
  }

  lemma StoredSpread<T>(valids: seq<bool>, values: seq<T>, spread: int)
    requires 0 <= spread < |valids| && !valids[spread]
    ensures Stored(valids, values, spread + 1) == Stored(valids, values, spread)
  {
  }

  /** Unlinking position p of the free list: that slot becomes the hole. */
  lemma LayoutUnfree(nodes: seq<ListNode>, valids: seq<bool>, freeList: List, freeOrder: seq<int>,
                     spread: int, size: int, p: nat)
    requires SlotLayout(nodes, valids, freeList, freeOrder, spread, size, -1)
    requires p < |freeOrder|
    ensures 0 <= freeOrder[p] < |nodes|
    ensures -1 <= nodes[freeOrder[p]].prev < |nodes| && -1 <= nodes[freeOrder[p]].next < |nodes|
    ensures var r := ListRemove(nodes, freeList, freeOrder[p]);
      SlotLayout(r.0, valids, r.1, freeOrder[..p] + freeOrder[p + 1..], spread, size, freeOrder[p])
  {
    ListRemoveCorrect(nodes, freeList, freeOrder, p);
    RemoveMembers(freeOrder, p);
    var fo := freeOrder[..p] + freeOrder[p + 1..];
    forall i | 0 <= i < |fo| ensures fo[i] < spread {
      assert fo[i] in fo;
    }
  }

  /** Constructing an element in the hole: it becomes valid. */
  lemma LayoutFill(nodes: seq<ListNode>, valids: seq<bool>, freeList: List, freeOrder: seq<int>,
                   spread: int, size: int, hole: int)
    requires SlotLayout(nodes, valids, freeList, freeOrder, spread, size, hole) && 0 <= hole < spread
    ensures SlotLayout(nodes, valids[hole := true], freeList, freeOrder, spread, size + 1, -1)
  {
    assert valids[hole := true][..spread] == valids[..spread][hole := true];
    CountTrueUpdate(valids[..spread], hole, true);
  }

  lemma StoredSet<T>(valids: seq<bool>, values: seq<T>, spread: int, idx: int, value: T)
    requires 0 <= idx < spread <= |valids| == |values|
    ensures Stored(valids[idx := true], values[idx := value], spread) == Stored(valids, values, spread)[idx := value]
  {
  }

  /** erase(index): the valid slot goes to the head of the free list. */
  lemma LayoutErase(nodes: seq<ListNode>, valids: seq<bool>, freeList: List, freeOrder: seq<int>,
                    spread: int, size: int, idx: int)
    requires SlotLayout(nodes, valids, freeList, freeOrder, spread, size, -1)
    requires 0 <= idx < spread && valids[idx]
    ensures -1 <= freeList.head < |nodes|
    ensures var r := ListInsert(nodes[idx := Disconnected], freeList, idx);
      SlotLayout(r.0, valids[idx := false], r.1, [idx] + freeOrder, spread, size - 1, -1)
  {
    assert valids[idx := false][..spread] == valids[..spread][idx := false];
    CountTrueUpdate(valids[..spread], idx, false);
    ListFrame(nodes, nodes[idx := Disconnected], freeList, freeOrder);
    ListInsertCorrect(nodes[idx := Disconnected], freeList, freeOrder, idx);
  }

  lemma StoredClear<T>(valids: seq<bool>, values: seq<T>, spread: int, idx: int)
    requires 0 <= idx < spread <= |valids| == |values|
    ensures Stored(valids[idx := false], values, spread) == Stored(valids, values, spread) - {idx}
  {
  }

  /** One step of emplaceAt's loop: slot spread becomes a hole at the head
      of the free list. */
  lemma LayoutPushFree(nodes: seq<ListNode>, valids: seq<bool>, freeList: List, freeOrder: seq<int>,
                       spread: int, size: int)
    requires SlotLayout(nodes, valids, freeList, freeOrder, spread, size, -1)
    requires spread < |valids|
    ensures -1 <= freeList.head < |nodes|
    ensures var r := ListInsert(nodes[spread := Disconnected], freeList, spread);
      SlotLayout(r.0, valids, r.1, [spread] + freeOrder, spread + 1, size, -1)
  {
    assert valids[..spread + 1] == valids[..spread] + [false];
    CountTrueAppend(valids[..spread], false);
    assert spread !in freeOrder;
    ListFrame(nodes, nodes[spread := Disconnected], freeList, freeOrder);
    ListInsertCorrect(nodes[spread := Disconnected], freeList, freeOrder, spread);
  }

  class SparseVector<T> {
    /** What a slot holds before anything is constructed in it (the buffer
        is uninitialised memory in the C++ code). */
    const filler: T

    var values: seq<T>
    var nodes: seq<ListNode>
    var valids: seq<bool>
    var freeList: List
    var size: int
    var spread: int
    /** The free list from head to tail. */
    ghost var freeOrder: seq<int>

    ghost predicate Layout(hole: int)
      reads this
    {
      |values| == |valids| && SlotLayout(nodes, valids, freeList, freeOrder, spread, size, hole)
    }

    /** Every slot below spread is valid or on the free list, never both;
        size counts the valid ones. */
    ghost predicate Valid()
      reads this
    {
      Layout(-1)
    }

    /** The stored elements by index. */
    ghost function Contents(): map<int, T>
      reads this
    {
      Stored(valids, values, spread)
    }

    function Capacity(): nat
      reads this
    {
      |values|
    }

    /** valid(index): the index holds an element. */
    function IsValid(index: int): (r: bool)
      reads this
      requires Valid()
      ensures r <==> index in Contents()
    {
      0 <= index < spread && valids[index]
    }

    /** nextFreeIndex(): where the next emplace puts its element. */
    function NextFreeIndex(): (r: int)
      reads this
      requires Valid()
      ensures r == if freeOrder == [] then spread else freeOrder[0]
      ensures 0 <= r <= spread && r !in Contents()
    {
      if freeList.IsEmpty() then spread else freeList.head
    }

    /** valids() and the elements as one slot view, for compare. */
    function View(): (r: seq<Option<T>>)
      reads this
      requires Valid()
      ensures |r| == spread && ContentsOfSlots(r) == Contents()
    {
      var r := Slots(valids, values, spread);
      assert ContentsOfSlots(r).Keys == Contents().Keys;
      r
    }

    /** The valid count is the number of stored elements. */
    lemma SizeIsCount()
      requires Valid()
      ensures size == |Contents()|
    {
      SizeCount(valids, values, spread);
    }

    constructor(filler: T)
      ensures Valid() && Contents() == map[] && size == 0 && spread == 0 && Capacity() == 0
      ensures this.filler == filler
    {
      this.filler := filler;
      values, nodes, valids := [], [], [];
      freeList, size, spread := EmptyList, 0, 0;
      freeOrder := [];
    }

    /** SparseVector(vector<T>&&): every element valid, spread and size the
        vector's length. */
    constructor FromVector(filler: T, vec: seq<T>)
      ensures Valid() && size == |vec| && spread == |vec| && Capacity() == |vec|
      ensures Contents() == map i | 0 <= i < |vec| :: vec[i]
      ensures this.filler == filler
    {
      this.filler := filler;
      values, nodes, valids := vec, seq(|vec|, _ => Disconnected), seq(|vec|, _ => true);
      freeList, size, spread := EmptyList, |vec|, |vec|;
      freeOrder := [];
      new;
      assert valids[..spread] == valids;
      CountTrueAll(valids);
    }

    /** Replace the slot state; the contents and the layout are given by the
        caller's lemmas. */
    method Install(vs: seq<T>, ns: seq<ListNode>, fs: seq<bool>, fl: List, ghost fo: seq<int>, sz: int, sp: int)
      modifies this
      ensures values == vs && nodes == ns && valids == fs && freeList == fl && freeOrder == fo
      ensures size == sz && spread == sp
    {
      values, nodes, valids, freeList, freeOrder, size, spread := vs, ns, fs, fl, fo, sz, sp;
    }

    /** clear(): no elements, no slots. */
    method Clear()
      modifies this
      ensures Valid() && Contents() == map[] && size == 0 && spread == 0 && Capacity() == 0
    {
      values, nodes, valids := [], [], [];
      freeList, size, spread := EmptyList, 0, 0;
      freeOrder := [];
    }

    /** reallocate(new_capacity): extend to new_capacity slots, keeping the
        existing ones; a smaller request changes nothing. */
    method Reallocate(newCapacity: int)
      requires Valid()
      modifies this
      ensures Valid()
      ensures Capacity() == Max(old(Capacity()), newCapacity)
      ensures Contents() == old(Contents()) && size == old(size) && spread == old(spread)
      ensures freeOrder == old(freeOrder) && freeList == old(freeList)
    {
      if newCapacity <= |values| {
        return;
      }
      var extra := newCapacity - |values|;
      LayoutExtend(nodes, valids, freeList, freeOrder, spread, size, extra);
      StoredExtend(valids, values, spread, extra, filler);
      hide SlotLayout, Stored;
      Install(values + seq(extra, _ => filler), nodes + seq(extra, _ => Disconnected),
              valids + seq(extra, _ => false), freeList, freeOrder, size, spread);
    }

    /** grow(): reallocate to growCapacity(). */
    method Grow()
      requires Valid()
      modifies this
      ensures Valid() && Capacity() == GrowCapacity(old(Capacity()))
      ensures Contents() == old(Contents()) && size == old(size) && spread == old(spread)
      ensures freeOrder == old(freeOrder) && freeList == old(freeList)
    {
      Reallocate(GrowCapacity(|values|));
    }

    /** reserve(size): reallocate to insertCapacity(size). */
    method Reserve(minSize: int)
      requires Valid()
      modifies this
      ensures Valid() && Capacity() == InsertCapacity(old(Capacity()), minSize)
      ensures Capacity() >= minSize
      ensures Contents() == old(Contents()) && size == old(size) && spread == old(spread)
    {
      Reallocate(InsertCapacity(|values|, minSize));
    }

    /** growForNext(): grow when neither the free list nor the spare
        capacity has a slot for the next element. */
    method GrowForNext() returns (grown: bool)
      requires Valid()
      modifies this
      ensures Valid() && NextFreeIndex() < Capacity()
      ensures grown <==> old(freeList.IsEmpty() && spread == Capacity())
      ensures Contents() == old(Contents()) && size == old(size) && spread == old(spread)
    {
      if freeList.IsEmpty() && spread == |values| {
        Grow();
        return true;
      }
      assert freeOrder != [] ==> freeOrder[0] < spread;
      return false;
    }

    /** alloc(): the head of the free list, or else spread++ (growing first
        when spread has reached the capacity). The slot is handed out
        neither valid nor free. */
    method Alloc() returns (idx: int)
      requires Valid()
      modifies this
      ensures Layout(idx) && 0 <= idx < spread
      ensures idx == old(NextFreeIndex())
      ensures Contents() == old(Contents()) && size == old(size)
      ensures freeOrder == if old(freeOrder) == [] then [] else old(freeOrder[1..])
      ensures spread == old(spread) + (if old(freeOrder) == [] then 1 else 0)
    {
      if freeList.IsEmpty() {
        if spread == |values| {
          Grow();
        }
        idx := spread;
        LayoutTakeSpread(nodes, valids, freeList, freeOrder, spread, size);
        StoredSpread(valids, values, spread);
        hide SlotLayout, Stored;
        Install(values, nodes, valids, freeList, freeOrder, size, spread + 1);
      } else {
        idx := freeList.head;
        LayoutUnfree(nodes, valids, freeList, freeOrder, spread, size, 0);
        assert freeOrder[..0] + freeOrder[1..] == freeOrder[1..];
        var r := ListRemove(nodes, freeList, idx);
        hide SlotLayout, Stored, ListRemove;
        Install(values, r.0, valids, r.1, freeOrder[1..], size, spread);
      }
    }

    /** emplace(args...): construct a value in the slot alloc() hands out. */
    method Emplace(value: T) returns (index: int)
      requires Valid()
      modifies this
      ensures Valid() && IsValid(index)
      ensures index == old(NextFreeIndex()) && index !in old(Contents())
      ensures Contents() == old(Contents())[index := value]
      ensures size == old(size) + 1
    {
      index := Alloc();
      LayoutFill(nodes, valids, freeList, freeOrder, spread, size, index);
      StoredSet(valids, values, spread, index, value);
      hide SlotLayout, Stored;
      Install(values[index := value], nodes, valids[index := true], freeList, freeOrder, size + 1, spread);
    }

    /** erase(index): destroy the element, push its slot on the free list. */
    method Erase(index: int)
      requires Valid() && IsValid(index)
      modifies this
      ensures Valid() && !IsValid(index)
      ensures Contents() == old(Contents()) - {index}
      ensures size == old(size) - 1
      ensures freeOrder == [index] + old(freeOrder) && NextFreeIndex() == index
      ensures spread == old(spread) && Capacity() == old(Capacity())
    {
      LayoutErase(nodes, valids, freeList, freeOrder, spread, size, index);
      StoredClear(valids, values, spread, index);
      var r := ListInsert(nodes[index := Disconnected], freeList, index);
      hide SlotLayout, Stored, ListInsert;
      Install(values, r.0, valids[index := false], r.1, [index] + freeOrder, size - 1, spread);
    }

    /** One step of emplaceAt's loop: the slot at spread becomes a hole at
        the head of the free list. */
    method PushFree()
      requires Valid() && spread < Capacity()
      modifies this
      ensures Valid()
      ensures spread == old(spread) + 1 && freeOrder == [old(spread)] + old(freeOrder)
      ensures Contents() == old(Contents()) && size == old(size) && Capacity() == old(Capacity())
    {
      LayoutPushFree(nodes, valids, freeList, freeOrder, spread, size);
      StoredSpread(valids, values, spread);
      var r := ListInsert(nodes[spread := Disconnected], freeList, spread);
      hide SlotLayout, Stored, ListInsert;
      Install(values, r.0, valids, r.1, [spread] + freeOrder, size, spread + 1);
    }

    /** emplaceAt(index, args...): construct at a chosen index, destroying a
        value already there; the slots between the old spread and index
        become holes on the free list. */
    method EmplaceAt(index: int, value: T)
      requires Valid() && index >= 0
      modifies this
      ensures Valid() && IsValid(index)
      ensures Contents() == old(Contents())[index := value]
      ensures size == old(size) + (if index in old(Contents()) then 0 else 1)
      ensures spread == Max(old(spread), index + 1)
      ensures forall i | old(spread) <= i < index :: i in freeOrder
    {
      if IsValid(index) {
        Erase(index);
      }
      if index >= |values| {
        Reallocate(InsertCapacity(|values|, index + 1));
      }
      ExtendSpread(index);
      ConstructFree(index, value);
    }

    /** emplaceAt's loop: every slot from spread up to index becomes a hole
        on the free list. */
    method ExtendSpread(index: int)
      requires Valid() && 0 <= index < Capacity()
      modifies this
      ensures Valid() && spread == Max(old(spread), index + 1)
      ensures Contents() == old(Contents()) && size == old(size) && Capacity() == old(Capacity())
      ensures forall i | old(spread) <= i < index :: i in freeOrder
    {
      ghost var s0 := spread;
      while spread <= index
        invariant Valid() && index < Capacity()
        invariant s0 <= spread <= Max(s0, index + 1)
        invariant Contents() == old(Contents()) && size == old(size) && Capacity() == old(Capacity())
        invariant forall i | s0 <= i < spread :: i in freeOrder
        decreases index - spread
      {
        PushFree();
      }
    }

    /** The end of emplaceAt: unlink a hole from the free list and construct
        the value in it. */
    method ConstructFree(index: int, value: T)
      requires Valid() && 0 <= index < spread && !IsValid(index)
      modifies this
      ensures Valid() && IsValid(index)
      ensures Contents() == old(Contents())[index := value]
      ensures size == old(size) + 1 && spread == old(spread)
      ensures forall j | j in old(freeOrder) && j != index :: j in freeOrder
    {
      ghost var p :| 0 <= p < |freeOrder| && freeOrder[p] == index;
      LayoutUnfree(nodes, valids, freeList, freeOrder, spread, size, p);
      RemoveMembers(freeOrder, p);
      ghost var fo := freeOrder[..p] + freeOrder[p + 1..];
      var r := ListRemove(nodes, freeList, index);
      LayoutFill(r.0, valids, r.1, fo, spread, size, index);
      StoredSet(valids, values, spread, index, value);
      hide SlotLayout, Stored, ListRemove;
      Install(values[index := value], r.0, valids[index := true], r.1, fo, size + 1, spread);
    }

    /** firstIndex(): the first valid index, or spread when there is none. */
    method FirstIndex() returns (idx: int)
      requires Valid()
      ensures 0 <= idx <= spread && (idx < spread ==> IsValid(idx))
      ensures forall i | 0 <= i < idx :: !IsValid(i)
    {
      idx := 0;
      while idx < spread && !valids[idx]
        invariant 0 <= idx <= spread
        invariant forall i | 0 <= i < idx :: !valids[i]
      {
        idx := idx + 1;
      }
    }

    /** nextIndex(idx): the first valid index after idx, or spread; past
        spread it is just idx + 1. */
    method NextIndex(idx: int) returns (r: int)
      requires Valid() && idx >= -1
      ensures r > idx && (r < spread ==> IsValid(r))
      ensures forall i | idx < i < r :: !IsValid(i)
      ensures r > spread ==> r == idx + 1
      ensures idx + 1 <= spread ==> r <= spread
    {
      r := idx + 1;
      while r < spread && !valids[r]
        invariant idx < r && (idx + 1 <= spread ==> r <= spread) && (r > spread ==> r == idx + 1)
        invariant forall i | idx < i < r :: !valids[i]
      {
        r := r + 1;
      }
    }

    /** lastIndex(): the last valid index, or spread when empty. */
    method LastIndex() returns (idx: int)
      requires Valid()
      ensures size == 0 ==> idx == spread
      ensures size > 0 ==> 0 <= idx < spread && IsValid(idx) && forall i | idx < i < spread :: !IsValid(i)
    {
      if size == 0 {
        return spread;
      }
      CountTruePositive(valids[..spread]);
      ghost var k :| 0 <= k < spread && valids[..spread][k];
      idx := spread - 1;
      while idx >= 0 && !valids[idx]
        invariant k <= idx < spread
        invariant forall i | idx < i < spread :: !valids[i]
      {
        idx := idx - 1;
      }
    }
  }

  /** Counting the valid flags below n counts the stored indices. */
  lemma {:induction false} SizeCount<T>(valids: seq<bool>, values: seq<T>, n: nat)
    requires n <= |valids| && n <= |values|
    ensures CountTrue(valids[..n]) == |Stored(valids, values, n)|
  {
    var m := Stored(valids, values, n);
    if n > 0 {
      SizeCount(valids, values, n - 1);
      var m' := Stored(valids, values, n - 1);
      assert valids[..n][..n - 1] == valids[..n - 1];
      if valids[n - 1] {
        assert m.Keys == m'.Keys + {n - 1};
      } else {
        assert m.Keys == m'.Keys;
      }
      assert |m| == |m.Keys| && |m'| == |m'.Keys|;
      assert |m| == |m'| + (if valids[n - 1] then 1 else 0);
      assert CountTrue(valids[..n]) == CountTrue(valids[..n - 1]) + (if valids[n - 1] then 1 else 0);
      hide *;
    }
  }

  // ---- compare ----

  /** The loop of compare() from position n, for a slot view x at least as
      long as y: the first differing validity decides (valid is greater),
      then the first differing value; a valid slot of x past the end of y
      makes x greater. */
  function CompareFrom(x: seq<Option<int>>, y: seq<Option<int>>, n: nat): (r: int)
    requires |y| <= |x| && n <= |x|
    ensures -1 <= r <= 1
    decreases |x| - n
  {
    if n < |y| then
      if x[n].Some? != y[n].Some? then (if x[n].Some? then 1 else -1)
      else if x[n].Some? && x[n].value != y[n].value then (if x[n].value < y[n].value then -1 else 1)
      else CompareFrom(x, y, n + 1)
    else if n < |x| then
      if x[n].Some? then 1 else CompareFrom(x, y, n + 1)
    else 0
  }

  /** compare(rhs): the shorter view is compared by swapping and negating. */
  function CompareSlots(x: seq<Option<int>>, y: seq<Option<int>>): (r: int)
  {
    if |x| < |y| then -CompareFrom(y, x, 0) else CompareFrom(x, y, 0)
  }

  /** Slot i of a view, a hole past its end. */
  function SlotAt(x: seq<Option<int>>, i: nat): Option<int>
  {
    if i < |x| then x[i] else None
  }

  lemma {:induction false} CompareFromSwap(x: seq<Option<int>>, y: seq<Option<int>>, n: nat)
    requires |x| == |y| && n <= |x|
    ensures CompareFrom(x, y, n) == -CompareFrom(y, x, n)
    decreases |x| - n
  {
    if n < |x| && x[n] == y[n] {
      CompareFromSwap(x, y, n + 1);
    }
  }

  /** compare is antisymmetric. */
  lemma CompareSlotsAntisymmetric(x: seq<Option<int>>, y: seq<Option<int>>)
    ensures CompareSlots(x, y) == -CompareSlots(y, x)
  {
    if |x| == |y| {
      CompareFromSwap(x, y, 0);
    }
  }

  lemma {:induction false} CompareFromZero(x: seq<Option<int>>, y: seq<Option<int>>, n: nat)
    requires |y| <= |x| && n <= |x|
    ensures CompareFrom(x, y, n) == 0 <==> forall i | n <= i < |x| :: SlotAt(x, i) == SlotAt(y, i)
    decreases |x| - n
  {
    if n < |x| {
      CompareFromZero(x, y, n + 1);
      if n < |y| && x[n] != y[n] {
        assert SlotAt(x, n) != SlotAt(y, n);
      } else if n >= |y| && x[n].Some? {
        assert SlotAt(x, n) != SlotAt(y, n);
      }
    }
  }

  /** Equal slot-by-slot (a hole past the end counting as a hole) means the
      same stored elements. */
  lemma SameSlotsSameContents(x: seq<Option<int>>, y: seq<Option<int>>)
    requires |y| <= |x|
    ensures (forall i | 0 <= i < |x| :: SlotAt(x, i) == SlotAt(y, i)) <==> ContentsOfSlots(x) == ContentsOfSlots(y)
  {
    if ContentsOfSlots(x) == ContentsOfSlots(y) {
      forall i | 0 <= i < |x| ensures SlotAt(x, i) == SlotAt(y, i) {
        assert x[i].Some? ==> i in ContentsOfSlots(x);
        assert i < |y| && y[i].Some? ==> i in ContentsOfSlots(y);
      }
    }
    if forall i | 0 <= i < |x| :: SlotAt(x, i) == SlotAt(y, i) {
      forall i | i in ContentsOfSlots(y) ensures i in ContentsOfSlots(x) && ContentsOfSlots(x)[i] == ContentsOfSlots(y)[i] {
        assert SlotAt(x, i) == SlotAt(y, i);
      }
      forall i | i in ContentsOfSlots(x) ensures i in ContentsOfSlots(y) {
        assert SlotAt(x, i) == SlotAt(y, i);
      }
      assert ContentsOfSlots(x).Keys == ContentsOfSlots(y).Keys;
    }
  }

  /** compare returns 0 exactly for vectors holding the same elements at
      the same indices, whatever their spreads. */
  lemma CompareSlotsZeroIffSameContents(x: seq<Option<int>>, y: seq<Option<int>>)
    ensures CompareSlots(x, y) == 0 <==> ContentsOfSlots(x) == ContentsOfSlots(y)
  {
    if |x| < |y| {
      CompareFromZero(y, x, 0);
      SameSlotsSameContents(y, x);
    } else {
      CompareFromZero(x, y, 0);
      SameSlotsSameContents(x, y);
    }
  }

  /** compare(rhs) of two vectors of ints. */
  method Compare(a: SparseVector<int>, b: SparseVector<int>) returns (r: int)
    requires a.Valid() && b.Valid()
    ensures r == CompareSlots(a.View(), b.View())
    decreases if a.spread < b.spread then 1 else 0
  {
    if a.spread < b.spread {
      var s := Compare(b, a);
      CompareSlotsAntisymmetric(a.View(), b.View());
      return -s;
    }
    ghost var x, y := a.View(), b.View();
    var minIndex := Min(a.spread, b.spread);
    var n := 0;
    while n < minIndex
      invariant 0 <= n <= minIndex
      invariant CompareFrom(x, y, 0) == CompareFrom(x, y, n)
    {
      var isValid := a.valids[n];
      if isValid != b.valids[n] {
        return if isValid then 1 else -1;
      }
      if isValid && a.values[n] != b.values[n] {
        return if a.values[n] < b.values[n] then -1 else 1;
      }
      n := n + 1;
    }
    while n < a.spread
      invariant minIndex <= n <= a.spread
      invariant CompareFrom(x, y, 0) == CompareFrom(x, y, n)
    {
      if a.valids[n] {
        return 1;
      }
      n := n + 1;
    }
    return 0;
  }

  /** operator==: equal sizes and compare() == 0, which holds exactly when
      both store the same elements at the same indices. */
  method Equals(a: SparseVector<int>, b: SparseVector<int>) returns (r: bool)
    requires a.Valid() && b.Valid()
    ensures r <==> a.Contents() == b.Contents()
  {
    var c := Compare(a, b);
    CompareSlotsZeroIffSameContents(a.View(), b.View());
    a.SizeIsCount();
    b.SizeIsCount();
    r := a.size == b.size && c == 0;
  }
}
