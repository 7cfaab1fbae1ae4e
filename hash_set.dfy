// HashSet of include/fwk/hash_set.h: keys in an array beside a hash array,
// probed like HashMap with triangular steps over a power-of-two capacity.
module HashSetModel {
  import opened Probing
  import opened OpenAddressing

  /** The slot table invariant with the set of stored keys. */
  ghost predicate SetInv<K>(hs: seq<nat>, ks: seq<K>, hashOf: K -> nat,
                            elements: set<K>, slotOf: map<K, nat>, stepOf: map<K, nat>)
  {
    TableInv(hs, ks, hashOf, slotOf, stepOf) && elements == slotOf.Keys
  }

  /** A set has exactly as many keys as occupied slots, and no more than
      used slots. */
  lemma SetSize<K>(hs: seq<nat>, ks: seq<K>, hashOf: K -> nat,
                   elements: set<K>, slotOf: map<K, nat>, stepOf: map<K, nat>)
    requires SetInv(hs, ks, hashOf, elements, slotOf, stepOf)
    ensures |elements| == OccupiedCount(hs) <= NotUnusedCount(hs)
  {
    OccupiedAtMostNotUnused(hs);
    assert |slotOf.Keys| == |slotOf|;
  }

  lemma SetShape<K>(hs: seq<nat>, ks: seq<K>, hashOf: K -> nat,
                    elements: set<K>, slotOf: map<K, nat>, stepOf: map<K, nat>)
    requires SetInv(hs, ks, hashOf, elements, slotOf, stepOf)
    ensures |hs| == |ks| && (|hs| > 0 ==> IsPowerOfTwo(|hs|))
    ensures elements == slotOf.Keys
    ensures forall k :: k in elements ==> slotOf[k] < |hs| && Occupied(hs[slotOf[k]]) && ks[slotOf[k]] == k
  {
  }

  lemma SetEmpty<K>(hs: seq<nat>, ks: seq<K>, hashOf: K -> nat)
    requires |hs| == |ks| && (|hs| > 0 ==> IsPowerOfTwo(|hs|))
    requires forall i :: 0 <= i < |hs| ==> hs[i] == UnusedHash
    ensures SetInv(hs, ks, hashOf, {}, map[], map[])
    ensures NotUnusedCount(hs) == 0
  {
    EmptyTable(hs, ks, hashOf);
  }

  /** Constructing a new key in a free slot its probe sequence reaches. */
  lemma SetInsert<K>(hs: seq<nat>, ks: seq<K>, hashOf: K -> nat,
                     elements: set<K>, slotOf: map<K, nat>, stepOf: map<K, nat>,
                     key: K, slot: nat, step: nat)
    requires SetInv(hs, ks, hashOf, elements, slotOf, stepOf)
    requires key !in elements
    requires slot < |hs| && !Occupied(hs[slot])
    requires Reaches(hs, MaskedHash(hashOf(key)), slot, step)
    ensures SetInv(hs[slot := MaskedHash(hashOf(key))], ks[slot := key], hashOf,
                   elements + {key}, slotOf[key := slot], stepOf[key := step])
    ensures NotUnusedCount(hs[slot := MaskedHash(hashOf(key))]) ==
            NotUnusedCount(hs) + (if hs[slot] == UnusedHash then 1 else 0)
    ensures |elements + {key}| == |elements| + 1
  {
    InsertKeepsInv(hs, ks, hashOf, slotOf, stepOf, key, slot, step);
  }

  /** eraseNode: marking a stored key's slot deleted. */
  /** An occupied slot holds a stored key, recorded at that slot. */
  lemma SetSlot<K>(hs: seq<nat>, ks: seq<K>, hashOf: K -> nat,
                   elements: set<K>, slotOf: map<K, nat>, stepOf: map<K, nat>, slot: nat)
    requires SetInv(hs, ks, hashOf, elements, slotOf, stepOf)
    requires slot < |hs| && Occupied(hs[slot])
    ensures ks[slot] in elements && slotOf[ks[slot]] == slot
  {
  }

  lemma SetErase<K>(hs: seq<nat>, ks: seq<K>, hashOf: K -> nat,
                    elements: set<K>, slotOf: map<K, nat>, stepOf: map<K, nat>, key: K)
    requires SetInv(hs, ks, hashOf, elements, slotOf, stepOf)
    requires key in elements
    ensures SetInv(hs[slotOf[key] := DeletedHash], ks, hashOf,
                   elements - {key}, slotOf - {key}, stepOf - {key})
    ensures NotUnusedCount(hs[slotOf[key] := DeletedHash]) == NotUnusedCount(hs)
    ensures |elements - {key}| == |elements| - 1
  {
    EraseKeepsInv(hs, ks, hashOf, slotOf, stepOf, key);
  }

  /** The keys whose slots lie below n: what rehashing has moved after
      visiting n slots. */
  ghost function MovedKeys<K>(slotOf: map<K, nat>, n: nat): set<K>
  {
    set k | k in slotOf && slotOf[k] < n
  }

  /** Visiting one more slot moves its key when it is occupied, and only
      then; a key not yet moved leaves room below the set's size. */
  lemma MovedKeysStep<K>(hs: seq<nat>, ks: seq<K>, hashOf: K -> nat,
                         elements: set<K>, slotOf: map<K, nat>, stepOf: map<K, nat>, n: nat)
    requires SetInv(hs, ks, hashOf, elements, slotOf, stepOf)
    requires n < |hs|
    ensures Occupied(hs[n]) ==>
              ks[n] in elements && ks[n] !in MovedKeys(slotOf, n) &&
              hs[n] == MaskedHash(hashOf(ks[n])) &&
              |MovedKeys(slotOf, n)| < |elements| &&
              MovedKeys(slotOf, n + 1) == MovedKeys(slotOf, n) + {ks[n]}
    ensures !Occupied(hs[n]) ==> MovedKeys(slotOf, n + 1) == MovedKeys(slotOf, n)
  {
    SetShape(hs, ks, hashOf, elements, slotOf, stepOf);
    if Occupied(hs[n]) {
      assert ks[n] in slotOf && slotOf[ks[n]] == n && hs[n] == MaskedHash(hashOf(ks[n]));
      MovedKeyOccupied(slotOf, ks, n);
    } else {
      MovedKeyFree(slotOf, n);
    }
  }

  lemma MovedKeyOccupied<K>(slotOf: map<K, nat>, ks: seq<K>, n: nat)
    requires n < |ks| && ks[n] in slotOf && slotOf[ks[n]] == n
    requires forall k :: k in slotOf ==> slotOf[k] < |ks| && ks[slotOf[k]] == k
    ensures ks[n] !in MovedKeys(slotOf, n)
    ensures |MovedKeys(slotOf, n)| < |slotOf.Keys|
    ensures MovedKeys(slotOf, n + 1) == MovedKeys(slotOf, n) + {ks[n]}
  {
    var key := ks[n];
    var before, after := MovedKeys(slotOf, n), MovedKeys(slotOf, n + 1);
    assert before <= slotOf.Keys - {key};
    SubsetCard(before, slotOf.Keys - {key});
    forall k | k in after
      ensures k in before || k == key
    {
      if slotOf[k] == n {
        assert ks[slotOf[k]] == k;
      }
    }
  }

  lemma MovedKeyFree<K>(slotOf: map<K, nat>, n: nat)
    requires forall k :: k in slotOf ==> slotOf[k] != n
    ensures MovedKeys(slotOf, n + 1) == MovedKeys(slotOf, n)
  {
  }

  /** constructKey(idx, hash, key): the key and its hash written into one slot. */
  method ConstructKey<K>(hashes: array<nat>, keys: array<K>, idx: nat, h: nat, key: K)
    requires idx < hashes.Length == keys.Length
    requires hashes as object != keys
    modifies hashes, keys
    ensures hashes[..] == old(hashes[..])[idx := h]
    ensures keys[..] == old(keys[..])[idx := key]
  {
    hashes[idx] := h;
    keys[idx] := key;
  }

  /** eraseNode(idx): the slot's hash becomes deleted_hash. */
  method MarkDeleted(hashes: array<nat>, idx: nat)
    requires idx < hashes.Length
    modifies hashes
    ensures hashes[..] == old(hashes[..])[idx := DeletedHash]
  {
    hashes[idx] := DeletedHash;
  }

  /** allocateHashes(count) and the key buffer beside it. */
  method AllocateTable<K(0)>(capacity: nat) returns (hashes: array<nat>, keys: array<K>)
    ensures fresh(hashes) && fresh(keys)
    ensures hashes.Length == capacity && keys.Length == capacity && hashes as object != keys
    ensures forall i :: 0 <= i < capacity ==> hashes[i] == UnusedHash
  {
    hashes := new nat[capacity](_ => UnusedHash);
    keys := new K[capacity];
  }

  /** Placing one key not yet in a table that has room: it goes to the first
      unused slot of its probe sequence. */
  method PlaceKey<K>(hashes: array<nat>, keys: array<K>, hashOf: K -> nat,
                     ghost elements: set<K>, ghost slotOf: map<K, nat>, ghost stepOf: map<K, nat>, key: K)
    returns (ghost elements': set<K>, ghost slotOf': map<K, nat>, ghost stepOf': map<K, nat>)
    requires keys.Length == hashes.Length && hashes as object != keys
    requires IsPowerOfTwo(hashes.Length) && |elements| + 1 < hashes.Length
    requires SetInv(hashes[..], keys[..], hashOf, elements, slotOf, stepOf)
    requires NotUnusedCount(hashes[..]) == |elements|
    requires key !in elements
    modifies hashes, keys
    ensures elements' == elements + {key}
    ensures SetInv(hashes[..], keys[..], hashOf, elements', slotOf', stepOf')
    ensures NotUnusedCount(hashes[..]) == |elements'|
  {
    hide SetInv;
    PowerOfTwoPositive(hashes.Length);
    var h := MaskedHash(hashOf(key));
    var i;
    ghost var step;
    i, step := FindUnused(hashes, h);
    SetInsert(hashes[..], keys[..], hashOf, elements, slotOf, stepOf, key, i, step);
    ConstructKey(hashes, keys, i, h, key);
    elements', slotOf', stepOf' := elements + {key}, slotOf[key := i], stepOf[key := step];
  }

  /** One step of the rehash loop: the key in slot idx of the old table,
      when there is one, placed in the new table. */
  method RehashKeySlot<K>(hashes: array<nat>, keys: array<K>, hashOf: K -> nat,
                          ghost elements: set<K>, ghost slotOf: map<K, nat>, ghost stepOf: map<K, nat>,
                          newHashes: array<nat>, newKeys: array<K>,
                          ghost moved: set<K>, ghost newSlotOf: map<K, nat>, ghost newStepOf: map<K, nat>,
                          idx: nat)
    returns (ghost moved': set<K>, ghost newSlotOf': map<K, nat>, ghost newStepOf': map<K, nat>)
    requires SetInv(hashes[..], keys[..], hashOf, elements, slotOf, stepOf)
    requires idx < hashes.Length == keys.Length
    requires newKeys.Length == newHashes.Length && newHashes as object != newKeys
    requires IsPowerOfTwo(newHashes.Length) && |elements| < newHashes.Length
    requires newHashes != hashes && newKeys != keys && newHashes as object != keys && newKeys as object != hashes
    requires SetInv(newHashes[..], newKeys[..], hashOf, moved, newSlotOf, newStepOf)
    requires NotUnusedCount(newHashes[..]) == |moved|
    requires moved == MovedKeys(slotOf, idx)
    modifies newHashes, newKeys
    ensures SetInv(newHashes[..], newKeys[..], hashOf, moved', newSlotOf', newStepOf')
    ensures NotUnusedCount(newHashes[..]) == |moved'|
    ensures moved' == MovedKeys(slotOf, idx + 1)
  {
    MovedKeysStep(hashes[..], keys[..], hashOf, elements, slotOf, stepOf, idx);
    hide SetInv;
    hide MovedKeys;
    moved', newSlotOf', newStepOf' := moved, newSlotOf, newStepOf;
    if Occupied(hashes[idx]) {
      moved', newSlotOf', newStepOf' :=
        PlaceKey(newHashes, newKeys, hashOf, moved, newSlotOf, newStepOf, keys[idx]);
    }
  }

  /** rehash: every stored key placed, in slot order, at the first unused
      slot of its probe sequence in a fresh table. */
  method Rehash<K(0)>(hashes: array<nat>, keys: array<K>, hashOf: K -> nat,
                      ghost elements: set<K>, ghost slotOf: map<K, nat>, ghost stepOf: map<K, nat>,
                      newCapacity: nat)
    returns (newHashes: array<nat>, newKeys: array<K>, ghost newSlotOf: map<K, nat>, ghost newStepOf: map<K, nat>)
    requires SetInv(hashes[..], keys[..], hashOf, elements, slotOf, stepOf)
    requires IsPowerOfTwo(newCapacity) && |elements| < newCapacity
    ensures fresh(newHashes) && fresh(newKeys)
    ensures newHashes.Length == newCapacity && newKeys.Length == newCapacity && newHashes as object != newKeys
    ensures SetInv(newHashes[..], newKeys[..], hashOf, elements, newSlotOf, newStepOf)
    ensures NotUnusedCount(newHashes[..]) == |elements|
  {
    newHashes, newKeys := AllocateTable(newCapacity);
    SetEmpty(newHashes[..], newKeys[..], hashOf);
    newSlotOf, newStepOf := RehashKeysInto(hashes, keys, hashOf, elements, slotOf, stepOf, newHashes, newKeys);
  }

  /** The loop of rehash over an allocated, empty new table. */
  method RehashKeysInto<K>(hashes: array<nat>, keys: array<K>, hashOf: K -> nat,
                           ghost elements: set<K>, ghost slotOf: map<K, nat>, ghost stepOf: map<K, nat>,
                           newHashes: array<nat>, newKeys: array<K>)
    returns (ghost newSlotOf: map<K, nat>, ghost newStepOf: map<K, nat>)
    requires SetInv(hashes[..], keys[..], hashOf, elements, slotOf, stepOf)
    requires newKeys.Length == newHashes.Length && newHashes as object != newKeys
    requires IsPowerOfTwo(newHashes.Length) && |elements| < newHashes.Length
    requires newHashes != hashes && newKeys != keys && newHashes as object != keys && newKeys as object != hashes
    requires SetInv(newHashes[..], newKeys[..], hashOf, {}, map[], map[])
    requires NotUnusedCount(newHashes[..]) == 0
    modifies newHashes, newKeys
    ensures SetInv(newHashes[..], newKeys[..], hashOf, elements, newSlotOf, newStepOf)
    ensures NotUnusedCount(newHashes[..]) == |elements|
  {
    SetShape(hashes[..], keys[..], hashOf, elements, slotOf, stepOf);
    assert MovedKeys(slotOf, 0) == {};
    assert MovedKeys(slotOf, hashes.Length) == elements;
    hide SetInv;
    hide MovedKeys;
    newSlotOf, newStepOf := map[], map[];
    ghost var moved: set<K> := {};
    var idx := 0;
    while idx < hashes.Length
      invariant 0 <= idx <= hashes.Length
      invariant SetInv(newHashes[..], newKeys[..], hashOf, moved, newSlotOf, newStepOf)
      invariant NotUnusedCount(newHashes[..]) == |moved|
      invariant moved == MovedKeys(slotOf, idx)
    {
      moved, newSlotOf, newStepOf := RehashKeySlot(hashes, keys, hashOf, elements, slotOf, stepOf,
                                                   newHashes, newKeys, moved, newSlotOf, newStepOf, idx);
      idx := idx + 1;
    }
  }

  class HashSet<K(==,0)> {
    /** hash<u32>(key): the key's hash before masking. */
    const hashOf: K -> nat

    var hashes: array<nat>
    var keys: array<K>
    var size: nat
    var capacity: nat
    var numUsed: nat
    var usedLimit: nat

    /** The stored keys, and where each one sits. */
    ghost var elements: set<K>
    ghost var slotOf: map<K, nat>
    ghost var stepOf: map<K, nat>

    ghost predicate Valid()
      reads this, hashes, keys
    {
      hashes.Length == capacity && keys.Length == capacity && hashes as object != keys &&
      (capacity == 0 || capacity >= InitialCapacity) &&
      SetInv(hashes[..], keys[..], hashOf, elements, slotOf, stepOf) &&
      size == |elements| &&
      numUsed == NotUnusedCount(hashes[..]) &&
      usedLimit == UsedLimit(capacity) &&
      numUsed <= usedLimit
    }

    /** Take over a table whose arrays, counters and ghost description
        satisfy the set invariant. */
    method Install(newHashes: array<nat>, newKeys: array<K>, newSize: nat, newNumUsed: nat,
                   ghost newElements: set<K>, ghost newSlotOf: map<K, nat>, ghost newStepOf: map<K, nat>)
      requires newKeys.Length == newHashes.Length && newHashes as object != newKeys
      requires newHashes.Length == 0 || newHashes.Length >= InitialCapacity
      requires SetInv(newHashes[..], newKeys[..], hashOf, newElements, newSlotOf, newStepOf)
      requires newSize == |newElements| && newNumUsed == NotUnusedCount(newHashes[..])
      requires newNumUsed <= UsedLimit(newHashes.Length)
      modifies this
      ensures Valid()
      ensures hashes == newHashes && keys == newKeys
      ensures capacity == newHashes.Length && size == newSize && numUsed == newNumUsed
      ensures elements == newElements && slotOf == newSlotOf && stepOf == newStepOf
    {
      hide SetInv, NotUnusedCount, UsedLimit;
      hashes, keys, capacity, size, numUsed, usedLimit := newHashes, newKeys, newHashes.Length, newSize, newNumUsed, UsedLimit(newHashes.Length);
      elements, slotOf, stepOf := newElements, newSlotOf, newStepOf;
    }

    twostate predicate SameOrFreshArrays()
      reads this
    {
      (hashes == old(hashes) && keys == old(keys)) || (fresh(hashes) && fresh(keys))
    }

    /** HashSet(): no slots; the hash pointer refers to the single shared
        unused node, which lookup treats as capacity 0. */
    constructor (hashOf: K -> nat)
      ensures Valid() && fresh(hashes) && fresh(keys)
      ensures elements == {} && capacity == 0 && this.hashOf == hashOf
    {
      this.hashOf := hashOf;
      hashes := new nat[0];
      keys := new K[0];
      size, capacity, numUsed, usedLimit := 0, 0, 0, 0;
      elements, slotOf, stepOf := {}, map[], map[];
      new;
      SetEmpty(hashes[..], keys[..], hashOf);
    }

    /** grow(new_capacity): rehash into a fresh table; deleted slots vanish
        and the used count becomes the size. */
    method Grow(newCapacity: nat)
      requires Valid()
      requires IsPowerOfTwo(newCapacity) && newCapacity >= InitialCapacity && newCapacity >= capacity
      modifies this
      ensures Valid() && fresh(hashes) && fresh(keys)
      ensures elements == old(elements) && capacity == newCapacity && numUsed == size
    {
      SetSize(hashes[..], keys[..], hashOf, elements, slotOf, stepOf);
      UsedLimitMonotone(capacity, newCapacity);
      var newHashes, newKeys;
      ghost var newSlotOf, newStepOf;
      newHashes, newKeys, newSlotOf, newStepOf := Rehash(hashes, keys, hashOf, elements, slotOf, stepOf, newCapacity);
      Install(newHashes, newKeys, size, size, elements, newSlotOf, newStepOf);
    }

    /** emplace(key): grow first once the used slots reach the limit, then
        construct the key at the slot findForInsert picks unless it is
        already there. Returns the key's slot and whether it was added. */
    method Emplace(key: K) returns (idx: nat, inserted: bool)
      requires Valid()
      modifies this, hashes, keys
      ensures Valid() && SameOrFreshArrays()
      ensures inserted <==> key !in old(elements)
      ensures elements == if inserted then old(elements) + {key} else old(elements)
      ensures size == old(size) + (if inserted then 1 else 0)
      ensures idx < capacity && keys[idx] == key && Occupied(hashes[idx])
    {
      if numUsed >= usedLimit {
        SetSize(hashes[..], keys[..], hashOf, elements, slotOf, stepOf);
        GrowRaisesLimit(capacity);
        Grow(GrownCapacity(capacity));
      }
      ghost var step, tEnd;
      idx, step, tEnd := FindForInsert(hashes, keys, MaskedHash(hashOf(key)), key);
      InsertFindsSlot(hashes[..], keys[..], hashOf, slotOf, stepOf, key, idx, step, tEnd);
      if Occupied(hashes[idx]) {
        return idx, false;
      }
      ConstructAt(idx, step, key);
      inserted := true;
    }

    /** The construct step of emplace: count a used slot when it was
        unused, store the key and its hash, and grow the size. */
    method ConstructAt(idx: nat, ghost step: nat, key: K)
      requires Valid() && capacity > 0 && numUsed < usedLimit
      requires key !in elements
      requires idx < capacity && !Occupied(hashes[idx])
      requires Reaches(hashes[..], MaskedHash(hashOf(key)), idx, step)
      modifies this, hashes, keys
      ensures Valid()
      ensures elements == old(elements) + {key} && size == old(size) + 1
      ensures hashes == old(hashes) && keys == old(keys) && capacity == old(capacity)
      ensures keys[idx] == key && Occupied(hashes[idx])
    {
      hide SetInv;
      SetInsert(hashes[..], keys[..], hashOf, elements, slotOf, stepOf, key, idx, step);
      var h := MaskedHash(hashOf(key));
      var used := if hashes[idx] == UnusedHash then numUsed + 1 else numUsed;
      ConstructKey(hashes, keys, idx, h, key);
      Install(hashes, keys, size + 1, used, elements + {key}, slotOf[key := idx], stepOf[key := step]);
    }

    /** lookup(key): the key's slot, or capacity when it is absent. */
    method Lookup(key: K) returns (idx: nat)
      requires Valid()
      ensures key in elements ==> idx < capacity && Occupied(hashes[idx]) && keys[idx] == key
      ensures key !in elements ==> idx == capacity
    {
      ghost var t;
      idx, t := OpenAddressing.Lookup(hashes, keys, MaskedHash(hashOf(key)), key);
      if capacity > 0 {
        LookupFindsSlot(hashes[..], keys[..], hashOf, slotOf, stepOf, key, idx, t);
      } else {
        SetSize(hashes[..], keys[..], hashOf, elements, slotOf, stepOf);
      }
    }

    /** contains(key): whether find(key) is not the end. */
    method Contains(key: K) returns (r: bool)
      requires Valid()
      ensures r <==> key in elements
    {
      var idx := Lookup(key);
      r := idx < capacity;
    }

    /** erase(key): erase the node when lookup finds an occupied slot.
        Returns whether the key was present. */
    method Erase(key: K) returns (erased: bool)
      requires Valid()
      modifies this, hashes
      ensures Valid()
      ensures erased <==> key in old(elements)
      ensures elements == old(elements) - {key}
      ensures size == old(size) - (if erased then 1 else 0)
      ensures numUsed == old(numUsed) && capacity == old(capacity)
      ensures hashes == old(hashes) && keys == old(keys)
    {
      var idx := Lookup(key);
      if idx == capacity || !Occupied(hashes[idx]) {
        assert elements - {key} == elements;
        return false;
      }
      EraseNode(idx);
      return true;
    }

    /** eraseNode(idx): destroy the key in an occupied slot and mark the
        slot deleted. */
    method EraseNode(idx: nat)
      requires Valid() && idx < capacity && Occupied(hashes[idx])
      modifies this, hashes
      ensures Valid()
      ensures old(keys[idx]) in old(elements) && elements == old(elements) - {old(keys[idx])}
      ensures numUsed == old(numUsed) && capacity == old(capacity) && size == old(size) - 1
      ensures hashes == old(hashes) && keys == old(keys)
    {
      var key := keys[idx];
      SetSlot(hashes[..], keys[..], hashOf, elements, slotOf, stepOf, idx);
      SetErase(hashes[..], keys[..], hashOf, elements, slotOf, stepOf, key);
      ghost var hs, ks := hashes[..], keys[..];
      assert keys.Length == hashes.Length && hashes as object != keys;
      assert hashes.Length == 0 || hashes.Length >= InitialCapacity;
      assert size - 1 == |elements - {key}| && numUsed == NotUnusedCount(hs[idx := DeletedHash]);
      assert numUsed <= UsedLimit(hashes.Length);
      hide SetInv, Valid, NotUnusedCount, UsedLimit;
      MarkDeleted(hashes, idx);
      assert hashes[..] == hs[idx := DeletedHash] && keys[..] == ks;
      Install(hashes, keys, size - 1, numUsed, elements - {key}, slotOf - {key}, stepOf - {key});
    }

    /** clear: every slot unused, capacity kept. */
    method Clear()
      requires Valid()
      modifies this, hashes
      ensures Valid() && elements == {} && capacity == old(capacity) && numUsed == 0
      ensures hashes == old(hashes)
    {
      SetShape(hashes[..], keys[..], hashOf, elements, slotOf, stepOf);
      hide SetInv;
      var n := 0;
      while n < capacity
        invariant 0 <= n <= capacity
        invariant unchanged(this)
        invariant forall i :: 0 <= i < n ==> hashes[i] == UnusedHash
      {
        hashes[n] := UnusedHash;
        n := n + 1;
      }
      SetEmpty(hashes[..], keys[..], hashOf);
      Install(hashes, keys, 0, 0, {}, map[], map[]);
    }

    /** reserve(min_size): double the capacity, starting from 64 for an
        empty set, until it reaches min_size; grow when that is larger. */
    method Reserve(minSize: int)
      requires Valid()
      modifies this
      ensures Valid() && elements == old(elements)
      ensures capacity >= minSize && capacity >= old(capacity)
      ensures capacity == ReservedCapacity(old(capacity), minSize)
      ensures capacity == old(capacity) || capacity / 2 < minSize || (old(capacity) == 0 && capacity == InitialCapacity)
    {
      var newCapacity := ReserveCapacity(capacity, minSize);
      if newCapacity > capacity {
        Grow(newCapacity);
      }
    }

    /** keys(): the stored keys once each, in slot order (begin() to end()). */
    method Keys() returns (r: seq<K>)
      requires Valid()
      ensures r == InSlotOrder(hashes[..], keys[..], capacity)
      ensures |r| == |elements| && NoDuplicates(r) && forall k :: k in r <==> k in elements
    {
      r := CollectInSlotOrder(hashes, keys);
      KeysInSlotOrderAreStoredKeys(hashes[..], keys[..], hashOf, slotOf, stepOf);
      assert |elements| == |slotOf.Keys| == |slotOf|;
    }
  }
}
