// IndexedVector<T> of include/fwk/indexed_vector.h: the same slot layout
// as SparseVector (elements with holes threaded by a free list), with the
// valid count and end index in place of size and spread. The layout
// predicate, the growth policy and the compare order are shared with
// SparseVectorModel.
module IndexedVectorModel {
  import opened Wrappers
  import opened FwkBase
  import opened Seqs
  import opened SparseVectorModel

  class IndexedVector<T> {
    /** What a slot holds before anything is constructed in it (the buffer
        is uninitialised memory in the C++ code). */
    const filler: T

    var values: seq<T>
    var nodes: seq<ListNode>
    var valids: seq<bool>
    var freeList: List
    var validCount: int
    var endIndex: int
    /** The free list from head to tail. */
    ghost var freeOrder: seq<int>

    ghost predicate Layout(hole: int)
      reads this
    {
      |values| == |valids| && SlotLayout(nodes, valids, freeList, freeOrder, endIndex, validCount, hole)
    }

    /** Every slot below endIndex is valid or on the free list, never both;
        validCount counts the valid ones. */
    ghost predicate Valid()
      reads this
    {
      Layout(-1)
    }

    /** The stored elements by index. */
    ghost function Contents(): map<int, T>
      reads this
    {
      Stored(valids, values, endIndex)
    }

    function Capacity(): nat
      reads this
    {
      |values|
    }

    /** valid(index): the index holds an element. */
    function IsValid(index: int): (r: bool)
      reads this
      requires Valid()
      ensures r <==> index in Contents()
    {
      0 <= index < endIndex && valids[index]
    }

    /** nextFreeIndex(): where the next emplace puts its element. */
    function NextFreeIndex(): (r: int)
      reads this
      requires Valid()
      ensures r == if freeOrder == [] then endIndex else freeOrder[0]
      ensures 0 <= r <= endIndex && r !in Contents()
    {
      if freeList.IsEmpty() then endIndex else freeList.head
    }

    /** valids() and the elements as one slot view, for compare. */
    function View(): (r: seq<Option<T>>)
      reads this
      requires Valid()
      ensures |r| == endIndex && ContentsOfSlots(r) == Contents()
    {
      var r := Slots(valids, values, endIndex);
      assert ContentsOfSlots(r).Keys == Contents().Keys;
      r
    }

    /** The valid count is the number of stored elements. */
    lemma ValidCountIsCount()
      requires Valid()
      ensures validCount == |Contents()|
    {
      SizeCount(valids, values, endIndex);
    }

    constructor(filler: T)
      ensures Valid() && Contents() == map[] && validCount == 0 && endIndex == 0 && Capacity() == 0
      ensures this.filler == filler
    {
      this.filler := filler;
      values, nodes, valids := [], [], [];
      freeList, validCount, endIndex := EmptyList, 0, 0;
      freeOrder := [];
    }

    /** IndexedVector(vector<T>&&): every element valid, endIndex and validCount the
        vector's length. */
    constructor FromVector(filler: T, vec: seq<T>)
      ensures Valid() && validCount == |vec| && endIndex == |vec| && Capacity() == |vec|
      ensures Contents() == map i | 0 <= i < |vec| :: vec[i]
      ensures this.filler == filler
    {
      this.filler := filler;
      values, nodes, valids := vec, seq(|vec|, _ => Disconnected), seq(|vec|, _ => true);
      freeList, validCount, endIndex := EmptyList, |vec|, |vec|;
      freeOrder := [];
      new;
      assert valids[..endIndex] == valids;
      CountTrueAll(valids);
    }

    /** Replace the slot state; the contents and the layout are given by the
        caller's lemmas. */
    method Install(vs: seq<T>, ns: seq<ListNode>, fs: seq<bool>, fl: List, ghost fo: seq<int>, sz: int, sp: int)
      modifies this
      ensures values == vs && nodes == ns && valids == fs && freeList == fl && freeOrder == fo
      ensures validCount == sz && endIndex == sp
    {
      values, nodes, valids, freeList, freeOrder, validCount, endIndex := vs, ns, fs, fl, fo, sz, sp;
    }

    /** clear(): no elements, no slots. */
    method Clear()
      modifies this
      ensures Valid() && Contents() == map[] && validCount == 0 && endIndex == 0 && Capacity() == 0
    {
      values, nodes, valids := [], [], [];
      freeList, validCount, endIndex := EmptyList, 0, 0;
      freeOrder := [];
    }

    /** reallocate(new_capacity): extend to new_capacity slots, keeping the
        existing ones; a smaller request changes nothing. */
    method Reallocate(newCapacity: int)
      requires Valid()
      modifies this
      ensures Valid()
      ensures Capacity() == Max(old(Capacity()), newCapacity)
      ensures Contents() == old(Contents()) && validCount == old(validCount) && endIndex == old(endIndex)
      ensures freeOrder == old(freeOrder) && freeList == old(freeList)
    {
      if newCapacity <= |values| {
        return;
      }
      var extra := newCapacity - |values|;
      LayoutExtend(nodes, valids, freeList, freeOrder, endIndex, validCount, extra);
      StoredExtend(valids, values, endIndex, extra, filler);
      hide SlotLayout, Stored;
      Install(values + seq(extra, _ => filler), nodes + seq(extra, _ => Disconnected),
              valids + seq(extra, _ => false), freeList, freeOrder, validCount, endIndex);
    }

    /** grow(): reallocate to growCapacity(). */
    method Grow()
      requires Valid()
      modifies this
      ensures Valid() && Capacity() == GrowCapacity(old(Capacity()))
      ensures Contents() == old(Contents()) && validCount == old(validCount) && endIndex == old(endIndex)
      ensures freeOrder == old(freeOrder) && freeList == old(freeList)
    {
      Reallocate(GrowCapacity(|values|));
    }

    /** reserve(size): reallocate to insertCapacity(size). */
    method Reserve(minSize: int)
      requires Valid()
      modifies this
      ensures Valid() && Capacity() == InsertCapacity(old(Capacity()), minSize)
      ensures Capacity() >= minSize
      ensures Contents() == old(Contents()) && validCount == old(validCount) && endIndex == old(endIndex)
    {
      Reallocate(InsertCapacity(|values|, minSize));
    }

    /** growForNext(): grow when neither the free list nor the spare
        capacity has a slot for the next element. */
    method GrowForNext() returns (grown: bool)
      requires Valid()
      modifies this
      ensures Valid() && NextFreeIndex() < Capacity()
      ensures grown <==> old(freeList.IsEmpty() && endIndex == Capacity())
      ensures Contents() == old(Contents()) && validCount == old(validCount) && endIndex == old(endIndex)
    {
      if freeList.IsEmpty() && endIndex == |values| {
        Grow();
        return true;
      }
      assert freeOrder != [] ==> freeOrder[0] < endIndex;
      return false;
    }

    /** alloc(): the head of the free list, or else endIndex++ (growing first
        when endIndex has reached the capacity). The slot is handed out
        neither valid nor free. */
    method Alloc() returns (idx: int)
      requires Valid()
      modifies this
      ensures Layout(idx) && 0 <= idx < endIndex
      ensures idx == old(NextFreeIndex())
      ensures Contents() == old(Contents()) && validCount == old(validCount)
      ensures freeOrder == if old(freeOrder) == [] then [] else old(freeOrder[1..])
      ensures endIndex == old(endIndex) + (if old(freeOrder) == [] then 1 else 0)
    {
      if freeList.IsEmpty() {
        if endIndex == |values| {
          Grow();
        }
        idx := endIndex;
        LayoutTakeSpread(nodes, valids, freeList, freeOrder, endIndex, validCount);
        StoredSpread(valids, values, endIndex);
        hide SlotLayout, Stored;
        Install(values, nodes, valids, freeList, freeOrder, validCount, endIndex + 1);
      } else {
        idx := freeList.head;
        LayoutUnfree(nodes, valids, freeList, freeOrder, endIndex, validCount, 0);
        assert freeOrder[..0] + freeOrder[1..] == freeOrder[1..];
        var r := ListRemove(nodes, freeList, idx);
        hide SlotLayout, Stored, ListRemove;
        Install(values, r.0, valids, r.1, freeOrder[1..], validCount, endIndex);
      }
    }

    /** emplace(args...): construct a value in the slot alloc() hands out. */
    method Emplace(value: T) returns (index: int)
      requires Valid()
      modifies this
      ensures Valid() && IsValid(index)
      ensures index == old(NextFreeIndex()) && index !in old(Contents())
      ensures Contents() == old(Contents())[index := value]
      ensures validCount == old(validCount) + 1
    {
      index := Alloc();
      LayoutFill(nodes, valids, freeList, freeOrder, endIndex, validCount, index);
      StoredSet(valids, values, endIndex, index, value);
      hide SlotLayout, Stored;
      Install(values[index := value], nodes, valids[index := true], freeList, freeOrder, validCount + 1, endIndex);
    }

    /** erase(index): destroy the element, push its slot on the free list. */
    method Erase(index: int)
      requires Valid() && IsValid(index)
      modifies this
      ensures Valid() && !IsValid(index)
      ensures Contents() == old(Contents()) - {index}
      ensures validCount == old(validCount) - 1
      ensures freeOrder == [index] + old(freeOrder) && NextFreeIndex() == index
      ensures endIndex == old(endIndex) && Capacity() == old(Capacity())
    {
      LayoutErase(nodes, valids, freeList, freeOrder, endIndex, validCount, index);
      StoredClear(valids, values, endIndex, index);
      var r := ListInsert(nodes[index := Disconnected], freeList, index);
      hide SlotLayout, Stored, ListInsert;
      Install(values, r.0, valids[index := false], r.1, [index] + freeOrder, validCount - 1, endIndex);
    }

    /** One step of emplaceAt's loop: the slot at endIndex becomes a hole at
        the head of the free list. */
    method PushFree()
      requires Valid() && endIndex < Capacity()
      modifies this
      ensures Valid()
      ensures endIndex == old(endIndex) + 1 && freeOrder == [old(endIndex)] + old(freeOrder)
      ensures Contents() == old(Contents()) && validCount == old(validCount) && Capacity() == old(Capacity())
    {
      LayoutPushFree(nodes, valids, freeList, freeOrder, endIndex, validCount);
      StoredSpread(valids, values, endIndex);
      var r := ListInsert(nodes[endIndex := Disconnected], freeList, endIndex);
      hide SlotLayout, Stored, ListInsert;
      Install(values, r.0, valids, r.1, [endIndex] + freeOrder, validCount, endIndex + 1);
    }

    /** emplaceAt(index, args...): construct at a chosen index, destroying a
        value already there; the slots between the old endIndex and index
        become holes on the free list. */
    method EmplaceAt(index: int, value: T)
      requires Valid() && index >= 0
      modifies this
      ensures Valid() && IsValid(index)
      ensures Contents() == old(Contents())[index := value]
      ensures validCount == old(validCount) + (if index in old(Contents()) then 0 else 1)
      ensures endIndex == Max(old(endIndex), index + 1)
      ensures forall i | old(endIndex) <= i < index :: i in freeOrder
    {
      if IsValid(index) {
        Erase(index);
      }
      if index >= |values| {
        Reallocate(InsertCapacity(|values|, index + 1));
      }
      ExtendSpread(index);
      ConstructFree(index, value);
    }

    /** emplaceAt's loop: every slot from endIndex up to index becomes a hole
        on the free list. */
    method ExtendSpread(index: int)
      requires Valid() && 0 <= index < Capacity()
      modifies this
      ensures Valid() && endIndex == Max(old(endIndex), index + 1)
      ensures Contents() == old(Contents()) && validCount == old(validCount) && Capacity() == old(Capacity())
      ensures forall i | old(endIndex) <= i < index :: i in freeOrder
    {
      ghost var s0 := endIndex;
      while endIndex <= index
        invariant Valid() && index < Capacity()
        invariant s0 <= endIndex <= Max(s0, index + 1)
        invariant Contents() == old(Contents()) && validCount == old(validCount) && Capacity() == old(Capacity())
        invariant forall i | s0 <= i < endIndex :: i in freeOrder
        decreases index - endIndex
      {
        PushFree();
      }
    }

    /** The end of emplaceAt: unlink a hole from the free list and construct
        the value in it. */
    method ConstructFree(index: int, value: T)
      requires Valid() && 0 <= index < endIndex && !IsValid(index)
      modifies this
      ensures Valid() && IsValid(index)
      ensures Contents() == old(Contents())[index := value]
      ensures validCount == old(validCount) + 1 && endIndex == old(endIndex)
      ensures forall j | j in old(freeOrder) && j != index :: j in freeOrder
    {
      ghost var p :| 0 <= p < |freeOrder| && freeOrder[p] == index;
      LayoutUnfree(nodes, valids, freeList, freeOrder, endIndex, validCount, p);
      RemoveMembers(freeOrder, p);
      ghost var fo := freeOrder[..p] + freeOrder[p + 1..];
      var r := ListRemove(nodes, freeList, index);
      LayoutFill(r.0, valids, r.1, fo, endIndex, validCount, index);
      StoredSet(valids, values, endIndex, index, value);
      hide SlotLayout, Stored, ListRemove;
      Install(values[index := value], r.0, valids[index := true], r.1, fo, validCount + 1, endIndex);
    }

    /** firstIndex(): the first valid index, or endIndex when there is none. */
    method FirstIndex() returns (idx: int)
      requires Valid()
      ensures 0 <= idx <= endIndex && (idx < endIndex ==> IsValid(idx))
      ensures forall i | 0 <= i < idx :: !IsValid(i)
    {
      idx := 0;
      while idx < endIndex && !valids[idx]
        invariant 0 <= idx <= endIndex
        invariant forall i | 0 <= i < idx :: !valids[i]
      {
        idx := idx + 1;
      }
    }

    /** nextIndex(idx): the first valid index after idx, or endIndex; past
        endIndex it is just idx + 1. */
    method NextIndex(idx: int) returns (r: int)
      requires Valid() && idx >= -1
      ensures r > idx && (r < endIndex ==> IsValid(r))
      ensures forall i | idx < i < r :: !IsValid(i)
      ensures r > endIndex ==> r == idx + 1
      ensures idx + 1 <= endIndex ==> r <= endIndex
    {
      r := idx + 1;
      while r < endIndex && !valids[r]
        invariant idx < r && (idx + 1 <= endIndex ==> r <= endIndex) && (r > endIndex ==> r == idx + 1)
        invariant forall i | idx < i < r :: !valids[i]
      {
        r := r + 1;
      }
    }

  }


  /** compare(rhs) of two vectors of ints. */
  method Compare(a: IndexedVector<int>, b: IndexedVector<int>) returns (r: int)
    requires a.Valid() && b.Valid()
    ensures r == CompareSlots(a.View(), b.View())
    decreases if a.endIndex < b.endIndex then 1 else 0
  {
    if a.endIndex < b.endIndex {
      var s := Compare(b, a);
      CompareSlotsAntisymmetric(a.View(), b.View());
      return -s;
    }
    ghost var x, y := a.View(), b.View();
    var minIndex := Min(a.endIndex, b.endIndex);
    var n := 0;
    while n < minIndex
      invariant 0 <= n <= minIndex
      invariant CompareFrom(x, y, 0) == CompareFrom(x, y, n)
    {
      var isValid := a.valids[n];
      if isValid != b.valids[n] {
        return if isValid then 1 else -1;
      }
      if isValid && a.values[n] != b.values[n] {
        return if a.values[n] < b.values[n] then -1 else 1;
      }
      n := n + 1;
    }
    while n < a.endIndex
      invariant minIndex <= n <= a.endIndex
      invariant CompareFrom(x, y, 0) == CompareFrom(x, y, n)
    {
      if a.valids[n] {
        return 1;
      }
      n := n + 1;
    }
    return 0;
  }

  /** operator==: equal sizes and compare() == 0, which holds exactly when
      both store the same elements at the same indices. */
  method Equals(a: IndexedVector<int>, b: IndexedVector<int>) returns (r: bool)
    requires a.Valid() && b.Valid()
    ensures r <==> a.Contents() == b.Contents()
  {
    var c := Compare(a, b);
    CompareSlotsZeroIffSameContents(a.View(), b.View());
    a.ValidCountIsCount();
    b.ValidCountIsCount();
    r := a.validCount == b.validCount && c == 0;
  }
}
