// BaseVector of include/fwk/base_vector_impl.h: the untyped storage under
// Vector<T>. A buffer of `capacity` slots whose first `size` slots hold the
// elements; it grows by the capacity policy of src/base_vector.cpp and keeps
// its elements through every reallocation. Elements are modelled as values
// of a type T, so the Pod and non-Pod variants (memcpy/memmove versus the
// move-and-destroy callbacks) are the same operations here.
module BaseVector {

  // ---------------------------------------------------------------------------
  // Capacity policy

  /** `vectorGrowCapacity`: a first allocation of 64 bytes (at least one
      element), then growth by half, and doubling once the buffer passes 128 KiB. */
  function GrowCapacity(capacity: nat, objSize: nat): (r: nat)
    requires objSize > 0
    ensures r > capacity && r >= 1
    ensures capacity > 4096 * 32 / objSize ==> r == 2 * capacity
  {
    if capacity == 0 then (if objSize > 64 then 1 else 64 / objSize)
    else if capacity > 4096 * 32 / objSize then capacity * 2
    else (capacity * 3 + 1) / 2
  }

  /** `vectorInsertCapacity`: the grown capacity, or `minSize` when that is larger. */
  function InsertCapacity(capacity: nat, objSize: nat, minSize: int): (r: nat)
    requires objSize > 0
    ensures r >= minSize && r > capacity
    ensures r == GrowCapacity(capacity, objSize) || r == minSize
  {
    var cap := GrowCapacity(capacity, objSize);
    if cap > minSize then cap else minSize
  }

  lemma GrowCapacityExamples()
    ensures GrowCapacity(0, 1) == 64 && GrowCapacity(0, 4) == 16 && GrowCapacity(0, 100) == 1
    ensures GrowCapacity(64, 1) == 96 && GrowCapacity(131072, 1) == 196608
    ensures GrowCapacity(131073, 1) == 262146 && GrowCapacity(32769, 4) == 65538
  {
  }

  // ---------------------------------------------------------------------------
  // The per-thread buffer pool of pool-allocating vectors

  const PoolAllocSize := 128
  const PoolMaxSize := 32

  /** A heap buffer: an identity and its size in bytes. */
  datatype Buffer = Buffer(id: nat, bytes: nat)

  /** `t_pool_buf` / `t_pool_size`: a stack of spare buffers. */
  class Pool {
    var buffers: seq<Buffer>
    /** The identity the next fresh buffer gets. */
    var nextId: nat

    /** At most 32 spare buffers, each at least 128 bytes, none newer than `nextId`. */
    predicate Valid()
      reads this
    {
      |buffers| <= PoolMaxSize &&
      forall i | 0 <= i < |buffers| :: buffers[i].bytes >= PoolAllocSize && buffers[i].id < nextId
    }

    constructor()
      ensures Valid() && buffers == [] && nextId == 0
    {
      buffers := [];
      nextId := 0;
    }

    /** `poolAlloc`: a spare buffer for a small request, else a fresh one of at least 128 bytes. */
    method Alloc(size: nat) returns (b: Buffer)
      requires Valid()
      modifies this
      ensures Valid() && b.bytes >= size && b.bytes >= PoolAllocSize
      ensures size > PoolAllocSize || old(buffers) == [] ==>
        b == Buffer(old(nextId), if size > PoolAllocSize then size else PoolAllocSize) &&
        buffers == old(buffers) && nextId == old(nextId) + 1
      ensures size <= PoolAllocSize && old(buffers) != [] ==>
        b == old(buffers)[|old(buffers)| - 1] && buffers == old(buffers)[..|old(buffers)| - 1] &&
        nextId == old(nextId)
    {
      if size > PoolAllocSize || |buffers| == 0 {
        b := Buffer(nextId, if size > PoolAllocSize then size else PoolAllocSize);
        nextId := nextId + 1;
      } else {
        b := buffers[|buffers| - 1];
        buffers := buffers[..|buffers| - 1];
      }
    }

    /** `poolFree`: keeps a buffer released with a small size while there is room, else deletes it. */
    method Free(b: Buffer, size: nat) returns (kept: bool)
      requires Valid() && b.bytes >= PoolAllocSize && b.id < nextId
      modifies this
      ensures Valid() && nextId == old(nextId)
      ensures kept <==> size <= PoolAllocSize && |old(buffers)| < PoolMaxSize
      ensures buffers == if kept then old(buffers) + [b] else old(buffers)
    {
      if size > PoolAllocSize || |buffers| == PoolMaxSize {
        kept := false;
      } else {
        buffers := buffers + [b];
        kept := true;
      }
    }
  }

  // ---------------------------------------------------------------------------
  // The element buffer

  /** Moves `a[src..src + n]` to start at `dst >= src`, as `memmove` does. */
  method MoveRight<T>(a: array<T>, src: nat, dst: nat, n: nat)
    requires src <= dst && dst + n <= a.Length
    modifies a
    ensures a[dst..dst + n] == old(a[src..src + n])
    ensures a[..dst] == old(a[..dst]) && a[dst + n..] == old(a[dst + n..])
  {
    var k: nat := n;
    while k > 0
      invariant k <= n
      invariant a[dst + k..dst + n] == old(a[src + k..src + n])
      invariant a[..dst + k] == old(a[..dst + k]) && a[dst + n..] == old(a[dst + n..])
    {
      k := k - 1;
      assert a[src + k] == old(a[src + k]);
      a[dst + k] := a[src + k];
      assert a[dst + k..dst + n] == [old(a[src + k])] + old(a[src + k + 1..src + n]);
    }
  }

  /** The tail from `index` moved right by `count`, the part before `index` kept. */
  method OpenGap<T>(a: array<T>, index: nat, count: nat, size: nat)
    requires index <= size && size + count <= a.Length
    modifies a
    ensures a[..size + count][..index] == old(a[..size])[..index]
    ensures a[..size + count][index + count..] == old(a[..size])[index..]
  {
    MoveRight(a, index, index + count, size - index);
    assert a[..index] == a[..index + count][..index];
    assert a[..size + count][..index] == a[..index];
    assert a[..size + count][index + count..] == a[index + count..size + count];
  }

  /** Moves `a[src..src + n]` to start at `dst <= src`, as `memmove` does. */
  method MoveLeft<T>(a: array<T>, src: nat, dst: nat, n: nat)
    requires dst <= src && src + n <= a.Length
    modifies a
    ensures a[dst..dst + n] == old(a[src..src + n])
    ensures a[..dst] == old(a[..dst]) && a[src + n..] == old(a[src + n..])
  {
    for k := 0 to n
      invariant a[dst..dst + k] == old(a[src..src + k])
      invariant a[..dst] == old(a[..dst]) && a[dst + k..] == old(a[dst + k..])
    {
      assert a[src + k] == old(a[src + k]);
      a[dst + k] := a[src + k];
      assert a[dst..dst + k + 1] == old(a[src..src + k]) + [old(a[src + k])];
    }
  }

  class Vector<T(0)> {
    /** The allocation; its length is the capacity. */
    var data: array<T>
    var size: nat
    /** `sizeof(T)`, which the capacity policy needs. */
    const objSize: nat

    predicate Valid()
      reads this
    {
      objSize > 0 && size <= data.Length
    }

    function Capacity(): nat
      reads this
    {
      data.Length
    }

    /** The elements. */
    function Contents(): seq<T>
      requires Valid()
      reads this, data
    {
      data[..size]
    }

    /** `zero` / `alloc(obj_size, size, capacity)`: an empty vector of the given capacity. */
    constructor(objSize: nat, capacity: nat)
      requires objSize > 0
      ensures Valid() && Contents() == [] && Capacity() == capacity && this.objSize == objSize
      ensures fresh(data)
    {
      this.objSize := objSize;
      data := new T[capacity];
      size := 0;
    }

    /** `reallocate`: moves the elements into a larger buffer; never shrinks. */
    method Reallocate(newCapacity: nat)
      requires Valid()
      modifies this
      ensures Valid() && Contents() == old(Contents())
      ensures Capacity() == if newCapacity <= old(Capacity()) then old(Capacity()) else newCapacity
      ensures newCapacity <= old(Capacity()) ==> data == old(data)
      ensures data == old(data) || fresh(data)
    {
      if newCapacity <= data.Length {
        return;
      }
      var buffer := new T[newCapacity];
      forall i | 0 <= i < size {
        buffer[i] := data[i];
      }
      data := buffer;
    }

    /** `grow`: reallocation to the grown capacity. */
    method Grow()
      requires Valid()
      modifies this
      ensures Valid() && Contents() == old(Contents())
      ensures Capacity() == GrowCapacity(old(Capacity()), objSize)
      ensures data == old(data) || fresh(data)
    {
      Reallocate(GrowCapacity(data.Length, objSize));
    }

    /** `reserve`: room for at least `desired` elements. */
    method Reserve(desired: int)
      requires Valid()
      modifies this
      ensures Valid() && Contents() == old(Contents())
      ensures Capacity() == if desired > old(Capacity()) then InsertCapacity(old(Capacity()), objSize, desired) else old(Capacity())
      ensures data == old(data) || fresh(data)
    {
      if desired > data.Length {
        Reallocate(InsertCapacity(data.Length, objSize, desired));
      }
    }

    /** `resizePartial`: `newSize` elements; those that stay keep their values, new slots are unset. */
    method ResizePartial(newSize: nat)
      requires Valid()
      modifies this, data
      ensures Valid() && size == newSize
      ensures Capacity() == if newSize > old(Capacity()) then InsertCapacity(old(Capacity()), objSize, newSize) else old(Capacity())
      ensures newSize <= old(size) ==> Contents() == old(Contents())[..newSize]
      ensures newSize > old(size) ==> Contents()[..old(size)] == old(Contents())
      ensures data == old(data) || fresh(data)
    {
      if newSize > data.Length {
        Reallocate(InsertCapacity(data.Length, objSize, newSize));
      }
      size := newSize;
    }

    /** `insertPartial`: opens a gap of `count` unset slots at `index`. */
    method InsertPartial(index: nat, count: nat)
      requires Valid() && index <= size
      modifies this, data
      ensures Valid() && size == old(size) + count
      ensures Contents()[..index] == old(Contents())[..index]
      ensures Contents()[index + count..] == old(Contents())[index..]
      ensures Capacity() == if old(size) + count > old(Capacity()) then InsertCapacity(old(Capacity()), objSize, old(size) + count) else old(Capacity())
      ensures data == old(data) || fresh(data)
    {
      var newSize := size + count;
      if newSize > data.Length {
        Reallocate(InsertCapacity(data.Length, objSize, newSize));
      }
      var moveCount := size - index;
      if moveCount > 0 {
        OpenGap(data, index, count, size);
      }
      size := newSize;
    }

    /** `insert`: the values copied into the gap `insertPartial` opens. */
    method Insert(index: nat, values: seq<T>)
      requires Valid() && index <= size
      modifies this, data
      ensures Valid() && Contents() == old(Contents())[..index] + values + old(Contents())[index..]
      ensures data == old(data) || fresh(data)
    {
      ghost var before := Contents();
      InsertPartial(index, |values|);
      ghost var gap := Contents();
      forall i | 0 <= i < |values| {
        data[index + i] := values[i];
      }
      assert Contents()[..index] == gap[..index];
      assert Contents()[index + |values|..] == gap[index + |values|..];
      assert Contents() == Contents()[..index] + values + Contents()[index + |values|..];
    }

    /** `erase`: removes `count` elements at `index`, moving the tail left. */
    method Erase(index: nat, count: nat)
      requires Valid() && index + count <= size
      modifies this, data
      ensures Valid() && Contents() == old(Contents())[..index] + old(Contents())[index + count..]
      ensures Capacity() == old(Capacity()) && data == old(data)
    {
      ghost var before := Contents();
      var moveCount := size - (index + count);
      MoveLeft(data, index + count, index, moveCount);
      size := size - count;
      assert Contents() == Contents()[..index] + Contents()[index..];
    }

    /** `clear`: no elements; the buffer stays. */
    method Clear()
      requires Valid()
      modifies this
      ensures Valid() && Contents() == [] && data == old(data)
    {
      size := 0;
    }

    /** `assign`: the vector holds exactly `values`. */
    method Assign(values: seq<T>)
      requires Valid()
      modifies this, data
      ensures Valid() && Contents() == values
      ensures Capacity() == if |values| > old(Capacity()) then InsertCapacity(old(Capacity()), objSize, |values|) else old(Capacity())
      ensures data == old(data) || fresh(data)
    {
      size := 0;
      if |values| > data.Length {
        data := new T[InsertCapacity(data.Length, objSize, |values|)];
      }
      forall i | 0 <= i < |values| {
        data[i] := values[i];
      }
      size := |values|;
    }

    /** `swap`: exchanges buffers and sizes with another vector. */
    method Swap(other: Vector<T>)
      requires Valid() && other.Valid() && other.objSize == objSize
      modifies this, other
      ensures Valid() && other.Valid()
      ensures data == old(other.data) && size == old(other.size)
      ensures other.data == old(data) && other.size == old(size)
    {
      data, other.data := other.data, data;
      size, other.size := other.size, size;
    }
  }

  /** An insertion followed by the erasure of the same range gives the elements back. */
  lemma {:induction false} InsertThenErase<T>(xs: seq<T>, index: nat, values: seq<T>)
    requires index <= |xs|
    ensures var ys := xs[..index] + values + xs[index..];
      ys[..index] + ys[index + |values|..] == xs
  {
    var ys := xs[..index] + values + xs[index..];
    assert ys[..index] == xs[..index];
    assert ys[index + |values|..] == xs[index..];
  }
}
