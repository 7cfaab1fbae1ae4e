// HashMap of include/fwk/hash_map.h with the storage that keeps hashes
// (HashMapStoragePairedWithHashes), the default for keys that cannot hold
// intrusive markers. Keys and values sit in two arrays beside the hash array.
module HashMapModel {
  import opened Wrappers
  import opened Probing
  import opened OpenAddressing

  /** The slot table invariant plus the values: each stored key's value sits
      in the key's slot. */
  ghost predicate MapInv<K, V>(hs: seq<nat>, ks: seq<K>, vs: seq<V>, hashOf: K -> nat,
                               contents: map<K, V>, slotOf: map<K, nat>, stepOf: map<K, nat>)
  {
    TableInv(hs, ks, hashOf, slotOf, stepOf) && |vs| == |hs| &&
    contents.Keys == slotOf.Keys &&
    forall k :: k in contents ==> vs[slotOf[k]] == contents[k]
  }

  /** A map has exactly as many pairs as occupied slots, and no more than
      used slots. */
  lemma MapSize<K, V>(hs: seq<nat>, ks: seq<K>, vs: seq<V>, hashOf: K -> nat,
                      contents: map<K, V>, slotOf: map<K, nat>, stepOf: map<K, nat>)
    requires MapInv(hs, ks, vs, hashOf, contents, slotOf, stepOf)
    ensures |contents| == OccupiedCount(hs) <= NotUnusedCount(hs)
  {
    OccupiedAtMostNotUnused(hs);
    assert |contents| == |contents.Keys| == |slotOf.Keys| == |slotOf|;
  }

  lemma MapEmpty<K, V>(hs: seq<nat>, ks: seq<K>, vs: seq<V>, hashOf: K -> nat)
    requires |hs| == |ks| == |vs| && (|hs| > 0 ==> IsPowerOfTwo(|hs|))
    requires forall i :: 0 <= i < |hs| ==> hs[i] == UnusedHash
    ensures MapInv(hs, ks, vs, hashOf, map[], map[], map[])
    ensures NotUnusedCount(hs) == 0
  {
    EmptyTable(hs, ks, hashOf);
  }

  /** The table's shape: equal lengths, a power-of-two capacity, and every
      stored key's slot inside the table. */
  lemma MapShape<K, V>(hs: seq<nat>, ks: seq<K>, vs: seq<V>, hashOf: K -> nat,
                       contents: map<K, V>, slotOf: map<K, nat>, stepOf: map<K, nat>)
    requires MapInv(hs, ks, vs, hashOf, contents, slotOf, stepOf)
    ensures |hs| == |ks| == |vs| && (|hs| > 0 ==> IsPowerOfTwo(|hs|))
    ensures contents.Keys == slotOf.Keys
    ensures forall k :: k in contents ==> slotOf[k] < |hs| && Occupied(hs[slotOf[k]]) && ks[slotOf[k]] == k
  {
  }

  /** An occupied slot holds a stored key, its value and its masked hash. */
  lemma MapSlot<K, V>(hs: seq<nat>, ks: seq<K>, vs: seq<V>, hashOf: K -> nat,
                      contents: map<K, V>, slotOf: map<K, nat>, stepOf: map<K, nat>, slot: nat)
    requires MapInv(hs, ks, vs, hashOf, contents, slotOf, stepOf)
    requires slot < |hs| && Occupied(hs[slot])
    ensures ks[slot] in contents && slotOf[ks[slot]] == slot
    ensures contents[ks[slot]] == vs[slot] && hs[slot] == MaskedHash(hashOf(ks[slot]))
  {
  }

  /** The pairs of the keys whose slots lie below n: what rehashing has moved
      after visiting n slots. */
  ghost function Moved<K, V>(contents: map<K, V>, slotOf: map<K, nat>, n: nat): map<K, V>
    requires contents.Keys <= slotOf.Keys
  {
    map k | k in contents && slotOf[k] < n :: contents[k]
  }

  /** Visiting one more slot moves its pair when it is occupied, and only
      then; a pair not yet moved leaves room below the map's size. */
  lemma MovedStep<K, V>(hs: seq<nat>, ks: seq<K>, vs: seq<V>, hashOf: K -> nat,
                        contents: map<K, V>, slotOf: map<K, nat>, stepOf: map<K, nat>, n: nat)
    requires MapInv(hs, ks, vs, hashOf, contents, slotOf, stepOf)
    requires n < |hs|
    ensures Occupied(hs[n]) ==>
              ks[n] in contents && ks[n] !in Moved(contents, slotOf, n) &&
              contents[ks[n]] == vs[n] && hs[n] == MaskedHash(hashOf(ks[n])) &&
              |Moved(contents, slotOf, n)| < |contents| &&
              Moved(contents, slotOf, n + 1) == Moved(contents, slotOf, n)[ks[n] := vs[n]]
    ensures !Occupied(hs[n]) ==> Moved(contents, slotOf, n + 1) == Moved(contents, slotOf, n)
  {
    MapShape(hs, ks, vs, hashOf, contents, slotOf, stepOf);
    if Occupied(hs[n]) {
      MapSlot(hs, ks, vs, hashOf, contents, slotOf, stepOf, n);
      MovedOccupied(contents, slotOf, ks, n);
    } else {
      MovedFree(contents, slotOf, n);
    }
  }

  lemma MovedOccupied<K, V>(contents: map<K, V>, slotOf: map<K, nat>, ks: seq<K>, n: nat)
    requires contents.Keys == slotOf.Keys && n < |ks|
    requires ks[n] in contents && slotOf[ks[n]] == n
    requires forall k :: k in contents ==> slotOf[k] < |ks| && ks[slotOf[k]] == k
    ensures ks[n] !in Moved(contents, slotOf, n)
    ensures |Moved(contents, slotOf, n)| < |contents|
    ensures Moved(contents, slotOf, n + 1) == Moved(contents, slotOf, n)[ks[n] := contents[ks[n]]]
  {
    var key := ks[n];
    var before, after := Moved(contents, slotOf, n), Moved(contents, slotOf, n + 1);
    assert before.Keys <= contents.Keys - {key};
    SubsetCard(before.Keys, contents.Keys - {key});
    assert |before| == |before.Keys| && |contents| == |contents.Keys|;
    forall k | k in after
      ensures k in before || k == key
    {
      if slotOf[k] == n {
        assert ks[slotOf[k]] == k;
      }
    }
    assert after.Keys == before.Keys + {key};
  }

  lemma MovedFree<K, V>(contents: map<K, V>, slotOf: map<K, nat>, n: nat)
    requires contents.Keys == slotOf.Keys
    requires forall k :: k in contents ==> slotOf[k] != n
    ensures Moved(contents, slotOf, n + 1) == Moved(contents, slotOf, n)
  {
    assert Moved(contents, slotOf, n + 1).Keys == Moved(contents, slotOf, n).Keys;
  }

  /** Once every slot is visited, every pair is moved. */
  lemma MovedAll<K, V>(hs: seq<nat>, ks: seq<K>, vs: seq<V>, hashOf: K -> nat,
                       contents: map<K, V>, slotOf: map<K, nat>, stepOf: map<K, nat>)
    requires MapInv(hs, ks, vs, hashOf, contents, slotOf, stepOf)
    ensures Moved(contents, slotOf, |hs|) == contents
  {
  }

  /** Constructing a new pair in a free slot its probe sequence reaches. */
  lemma MapInsert<K, V>(hs: seq<nat>, ks: seq<K>, vs: seq<V>, hashOf: K -> nat,
                        contents: map<K, V>, slotOf: map<K, nat>, stepOf: map<K, nat>,
                        key: K, value: V, slot: nat, step: nat)
    requires MapInv(hs, ks, vs, hashOf, contents, slotOf, stepOf)
    requires key !in contents
    requires slot < |hs| && !Occupied(hs[slot])
    requires Reaches(hs, MaskedHash(hashOf(key)), slot, step)
    ensures MapInv(hs[slot := MaskedHash(hashOf(key))], ks[slot := key], vs[slot := value], hashOf,
                   contents[key := value], slotOf[key := slot], stepOf[key := step])
    ensures NotUnusedCount(hs[slot := MaskedHash(hashOf(key))]) ==
            NotUnusedCount(hs) + (if hs[slot] == UnusedHash then 1 else 0)
    ensures |contents[key := value]| == |contents| + 1
  {
    InsertKeepsInv(hs, ks, hashOf, slotOf, stepOf, key, slot, step);
    forall k | k in contents
      ensures slotOf[k] < |vs| && slotOf[k] != slot
    {
      assert Occupied(hs[slotOf[k]]);
    }
    ValuesInsert(vs, contents, slotOf, key, value, slot, vs[slot := value], contents[key := value], slotOf[key := slot]);
  }

  /** The values part of MapInsert: the new pair's value sits in its slot
      and no other key's slot is touched. */
  lemma ValuesInsert<K, V>(vs: seq<V>, contents: map<K, V>, slotOf: map<K, nat>, key: K, value: V, slot: nat,
                           vs': seq<V>, contents': map<K, V>, slotOf': map<K, nat>)
    requires contents.Keys == slotOf.Keys && key !in contents && slot < |vs|
    requires forall k | k in contents :: slotOf[k] < |vs| && slotOf[k] != slot && vs[slotOf[k]] == contents[k]
    requires vs' == vs[slot := value] && contents' == contents[key := value] && slotOf' == slotOf[key := slot]
    ensures contents'.Keys == slotOf'.Keys
    ensures forall k | k in contents' :: vs'[slotOf'[k]] == contents'[k]
    ensures |contents'| == |contents| + 1
  {
  }

  /** Marking a stored key's slot deleted. */
  lemma MapErase<K, V>(hs: seq<nat>, ks: seq<K>, vs: seq<V>, hashOf: K -> nat,
                       contents: map<K, V>, slotOf: map<K, nat>, stepOf: map<K, nat>, key: K)
    requires MapInv(hs, ks, vs, hashOf, contents, slotOf, stepOf)
    requires key in contents
    ensures MapInv(hs[slotOf[key] := DeletedHash], ks, vs, hashOf,
                   contents - {key}, slotOf - {key}, stepOf - {key})
    ensures NotUnusedCount(hs[slotOf[key] := DeletedHash]) == NotUnusedCount(hs)
    ensures |contents - {key}| == |contents| - 1
  {
    EraseKeepsInv(hs, ks, hashOf, slotOf, stepOf, key);
  }

  /** Writing a value into an occupied slot replaces that key's value. */
  lemma MapAssign<K, V>(hs: seq<nat>, ks: seq<K>, vs: seq<V>, hashOf: K -> nat,
                        contents: map<K, V>, slotOf: map<K, nat>, stepOf: map<K, nat>,
                        slot: nat, value: V)
    requires MapInv(hs, ks, vs, hashOf, contents, slotOf, stepOf)
    requires slot < |hs| && Occupied(hs[slot])
    ensures ks[slot] in contents
    ensures MapInv(hs, ks, vs[slot := value], hashOf, contents[ks[slot] := value], slotOf, stepOf)
    ensures |contents[ks[slot] := value]| == |contents|
  {
    forall k | k in contents && k != ks[slot]
      ensures slotOf[k] != slot
    {
    }
  }

  /** values() lists, slot by slot, the value of the key keys() lists at the
      same position. */
  lemma {:induction false} ValuesFollowKeys<K, V>(hs: seq<nat>, ks: seq<K>, vs: seq<V>, hashOf: K -> nat,
                                                   contents: map<K, V>, slotOf: map<K, nat>,
                                                   stepOf: map<K, nat>, n: nat)
    requires MapInv(hs, ks, vs, hashOf, contents, slotOf, stepOf)
    requires n <= |hs|
    ensures |InSlotOrder(hs, vs, n)| == |InSlotOrder(hs, ks, n)|
    ensures forall j :: 0 <= j < |InSlotOrder(hs, vs, n)| ==>
              InSlotOrder(hs, ks, n)[j] in contents &&
              InSlotOrder(hs, vs, n)[j] == contents[InSlotOrder(hs, ks, n)[j]]
  {
    if n > 0 {
      ValuesFollowKeys(hs, ks, vs, hashOf, contents, slotOf, stepOf, n - 1);
      if Occupied(hs[n - 1]) {
        assert ks[n - 1] in slotOf && slotOf[ks[n - 1]] == n - 1;
      }
    }
  }

  /** construct(idx, hash, key, value): the pair and its hash written into
      one slot. */
  method Construct<K, V>(hashes: array<nat>, keys: array<K>, values: array<V>, idx: nat, h: nat, key: K, value: V)
    requires idx < hashes.Length == keys.Length == values.Length
    requires hashes as object != keys && hashes as object != values && keys as object != values
    modifies hashes, keys, values
    ensures hashes[..] == old(hashes[..])[idx := h]
    ensures keys[..] == old(keys[..])[idx := key]
    ensures values[..] == old(values[..])[idx := value]
  {
    hashes[idx] := h;
    keys[idx] := key;
    values[idx] := value;
  }

  /** markDeleted / markUnused: one slot's hash overwritten. */
  method MarkSlot(hashes: array<nat>, idx: nat, h: nat)
    requires idx < hashes.Length
    modifies hashes
    ensures hashes[..] == old(hashes[..])[idx := h]
  {
    hashes[idx] := h;
  }

  /** allocate(new_capacity): a table of that many unused slots. */
  method Allocate<K(0), V(0)>(capacity: nat) returns (hashes: array<nat>, keys: array<K>, values: array<V>)
    ensures fresh(hashes) && fresh(keys) && fresh(values)
    ensures hashes.Length == capacity && keys.Length == capacity && values.Length == capacity
    ensures hashes as object != keys && hashes as object != values && keys as object != values
    ensures forall i :: 0 <= i < capacity ==> hashes[i] == UnusedHash
  {
    hashes := new nat[capacity](_ => UnusedHash);
    keys := new K[capacity];
    values := new V[capacity];
  }

  /** One step of the rehash loop: the pair in slot idx of the old table,
      when there is one, placed at the first unused slot of its probe
      sequence in the new table. */
  method RehashSlot<K, V>(hashes: array<nat>, keys: array<K>, values: array<V>, hashOf: K -> nat,
                          ghost contents: map<K, V>, ghost slotOf: map<K, nat>, ghost stepOf: map<K, nat>,
                          newHashes: array<nat>, newKeys: array<K>, newValues: array<V>,
                          ghost moved: map<K, V>, ghost newSlotOf: map<K, nat>, ghost newStepOf: map<K, nat>,
                          idx: nat)
    returns (ghost moved': map<K, V>, ghost newSlotOf': map<K, nat>, ghost newStepOf': map<K, nat>)
    requires MapInv(hashes[..], keys[..], values[..], hashOf, contents, slotOf, stepOf)
    requires idx < hashes.Length
    requires newKeys.Length == newHashes.Length && newValues.Length == newHashes.Length
    requires IsPowerOfTwo(newHashes.Length) && |contents| < newHashes.Length
    requires newHashes as object != newKeys && newHashes as object != newValues && newKeys as object != newValues
    requires newHashes != hashes && newKeys as object != keys && newValues as object != values
    requires newHashes as object != keys && newHashes as object != values && newKeys as object != hashes
    requires newKeys as object != values && newValues as object != hashes && newValues as object != keys
    requires MapInv(newHashes[..], newKeys[..], newValues[..], hashOf, moved, newSlotOf, newStepOf)
    requires NotUnusedCount(newHashes[..]) == |moved|
    requires moved == Moved(contents, slotOf, idx)
    modifies newHashes, newKeys, newValues
    ensures MapInv(newHashes[..], newKeys[..], newValues[..], hashOf, moved', newSlotOf', newStepOf')
    ensures NotUnusedCount(newHashes[..]) == |moved'|
    ensures moved' == Moved(contents, slotOf, idx + 1)
  {
    MovedStep(hashes[..], keys[..], values[..], hashOf, contents, slotOf, stepOf, idx);
    hide MapInv;
    hide Moved;
    moved', newSlotOf', newStepOf' := moved, newSlotOf, newStepOf;
    if Occupied(hashes[idx]) {
      moved', newSlotOf', newStepOf' :=
        Place(newHashes, newKeys, newValues, hashOf, moved, newSlotOf, newStepOf, keys[idx], values[idx]);
    }
  }

  /** Placing one pair not yet in a table that has room: it goes to the
      first unused slot of its probe sequence. */
  method Place<K, V>(hashes: array<nat>, keys: array<K>, values: array<V>, hashOf: K -> nat,
                     ghost contents: map<K, V>, ghost slotOf: map<K, nat>, ghost stepOf: map<K, nat>,
                     key: K, value: V)
    returns (ghost contents': map<K, V>, ghost slotOf': map<K, nat>, ghost stepOf': map<K, nat>)
    requires keys.Length == hashes.Length && values.Length == hashes.Length
    requires IsPowerOfTwo(hashes.Length) && |contents| + 1 < hashes.Length
    requires hashes as object != keys && hashes as object != values && keys as object != values
    requires MapInv(hashes[..], keys[..], values[..], hashOf, contents, slotOf, stepOf)
    requires NotUnusedCount(hashes[..]) == |contents|
    requires key !in contents
    modifies hashes, keys, values
    ensures contents' == contents[key := value]
    ensures MapInv(hashes[..], keys[..], values[..], hashOf, contents', slotOf', stepOf')
    ensures NotUnusedCount(hashes[..]) == |contents'|
  {
    PowerOfTwoPositive(hashes.Length);
    var h := MaskedHash(hashOf(key));
    var i;
    ghost var step;
    i, step := FindUnused(hashes, h);
    MapInsert(hashes[..], keys[..], values[..], hashOf, contents, slotOf, stepOf, key, value, i, step);
    hide MapInv;
    Construct(hashes, keys, values, i, h, key, value);
    contents', slotOf', stepOf' := contents[key := value], slotOf[key := i], stepOf[key := step];
  }

  /** The loop of rehash: every stored pair placed, in slot order, at the
      first unused slot of its probe sequence in a fresh table. */
  method Rehash<K(0), V(0)>(hashes: array<nat>, keys: array<K>, values: array<V>, hashOf: K -> nat,
                         ghost contents: map<K, V>, ghost slotOf: map<K, nat>, ghost stepOf: map<K, nat>,
                         newCapacity: nat)
    returns (newHashes: array<nat>, newKeys: array<K>, newValues: array<V>,
             ghost newSlotOf: map<K, nat>, ghost newStepOf: map<K, nat>)
    requires MapInv(hashes[..], keys[..], values[..], hashOf, contents, slotOf, stepOf)
    requires IsPowerOfTwo(newCapacity) && |contents| < newCapacity
    ensures fresh(newHashes) && fresh(newKeys) && fresh(newValues)
    ensures newHashes.Length == newCapacity && newKeys.Length == newCapacity && newValues.Length == newCapacity
    ensures newHashes as object != newKeys && newHashes as object != newValues && newKeys as object != newValues
    ensures MapInv(newHashes[..], newKeys[..], newValues[..], hashOf, contents, newSlotOf, newStepOf)
    ensures NotUnusedCount(newHashes[..]) == |contents|
  {
    newHashes, newKeys, newValues := Allocate(newCapacity);
    MapEmpty(newHashes[..], newKeys[..], newValues[..], hashOf);
    newSlotOf, newStepOf := RehashInto(hashes, keys, values, hashOf, contents, slotOf, stepOf,
                                       newHashes, newKeys, newValues);
  }

  /** The loop of rehash over an allocated, empty new table. */
  method RehashInto<K, V>(hashes: array<nat>, keys: array<K>, values: array<V>, hashOf: K -> nat,
                          ghost contents: map<K, V>, ghost slotOf: map<K, nat>, ghost stepOf: map<K, nat>,
                          newHashes: array<nat>, newKeys: array<K>, newValues: array<V>)
    returns (ghost newSlotOf: map<K, nat>, ghost newStepOf: map<K, nat>)
    requires MapInv(hashes[..], keys[..], values[..], hashOf, contents, slotOf, stepOf)
    requires newKeys.Length == newHashes.Length && newValues.Length == newHashes.Length
    requires IsPowerOfTwo(newHashes.Length) && |contents| < newHashes.Length
    requires newHashes as object != newKeys && newHashes as object != newValues && newKeys as object != newValues
    requires newHashes != hashes && newKeys as object != keys && newValues as object != values
    requires newHashes as object != keys && newHashes as object != values && newKeys as object != hashes
    requires newKeys as object != values && newValues as object != hashes && newValues as object != keys
    requires MapInv(newHashes[..], newKeys[..], newValues[..], hashOf, map[], map[], map[])
    requires NotUnusedCount(newHashes[..]) == 0
    modifies newHashes, newKeys, newValues
    ensures MapInv(newHashes[..], newKeys[..], newValues[..], hashOf, contents, newSlotOf, newStepOf)
    ensures NotUnusedCount(newHashes[..]) == |contents|
  {
    MapShape(hashes[..], keys[..], values[..], hashOf, contents, slotOf, stepOf);
    MovedAll(hashes[..], keys[..], values[..], hashOf, contents, slotOf, stepOf);
    assert Moved(contents, slotOf, 0) == map[];
    hide MapInv;
    hide Moved;
    newSlotOf, newStepOf := map[], map[];
    ghost var moved: map<K, V> := map[];
    var idx := 0;
    while idx < hashes.Length
      invariant 0 <= idx <= hashes.Length
      invariant MapInv(newHashes[..], newKeys[..], newValues[..], hashOf, moved, newSlotOf, newStepOf)
      invariant NotUnusedCount(newHashes[..]) == |moved|
      invariant moved == Moved(contents, slotOf, idx)
    {
      moved, newSlotOf, newStepOf := RehashSlot(hashes, keys, values, hashOf, contents, slotOf, stepOf,
                                                newHashes, newKeys, newValues, moved, newSlotOf, newStepOf, idx);
      idx := idx + 1;
    }
  }

  class HashMap<K(==,0), V(0)> {
    /** hash<u32>(key): the key's hash before masking. */
    const hashOf: K -> nat
    /** Value() or Policy::defaultValue(), used by operator[]. */
    const defaultValue: V

    var hashes: array<nat>
    var keys: array<K>
    var values: array<V>
    var size: nat
    var capacity: nat
    var numUsed: nat
    var usedLimit: nat

    /** The map's contents, the arrays' contents, and where each key sits. */
    ghost var contents: map<K, V>
    ghost var slotOf: map<K, nat>
    ghost var stepOf: map<K, nat>

    ghost predicate Valid()
      reads this, hashes, keys, values
    {
      hashes.Length == capacity && keys.Length == capacity && values.Length == capacity &&
      hashes as object != keys && hashes as object != values && keys as object != values &&
      (capacity == 0 || capacity >= InitialCapacity) &&
      MapInv(hashes[..], keys[..], values[..], hashOf, contents, slotOf, stepOf) &&
      size == |contents| &&
      numUsed == NotUnusedCount(hashes[..]) &&
      usedLimit == UsedLimit(capacity) &&
      numUsed <= usedLimit
    }

    /** Take over a table: arrays, counters and the ghost description of
        their contents, which together satisfy the map invariant. */
    method Install(newHashes: array<nat>, newKeys: array<K>, newValues: array<V>, newSize: nat, newNumUsed: nat,
                   ghost newContents: map<K, V>, ghost newSlotOf: map<K, nat>, ghost newStepOf: map<K, nat>)
      requires newKeys.Length == newHashes.Length && newValues.Length == newHashes.Length
      requires newHashes as object != newKeys && newHashes as object != newValues && newKeys as object != newValues
      requires newHashes.Length == 0 || newHashes.Length >= InitialCapacity
      requires MapInv(newHashes[..], newKeys[..], newValues[..], hashOf, newContents, newSlotOf, newStepOf)
      requires newSize == |newContents| && newNumUsed == NotUnusedCount(newHashes[..])
      requires newNumUsed <= UsedLimit(newHashes.Length)
      modifies this
      ensures Valid()
      ensures hashes == newHashes && keys == newKeys && values == newValues
      ensures capacity == newHashes.Length && size == newSize && numUsed == newNumUsed
      ensures contents == newContents && slotOf == newSlotOf && stepOf == newStepOf
    {
      hide MapInv, NotUnusedCount, UsedLimit;
      hashes, keys, values, capacity, size, numUsed, usedLimit := newHashes, newKeys, newValues, newHashes.Length, newSize, newNumUsed, UsedLimit(newHashes.Length);
      contents, slotOf, stepOf := newContents, newSlotOf, newStepOf;
    }

    /** The arrays are the ones at the start of the call or were allocated
        during it. */
    twostate predicate SameOrFreshArrays()
      reads this
    {
      (hashes == old(hashes) && keys == old(keys) && values == old(values)) ||
      (fresh(hashes) && fresh(keys) && fresh(values))
    }

    constructor (hashOf: K -> nat, defaultValue: V)
      ensures Valid() && fresh(hashes) && fresh(keys) && fresh(values)
      ensures contents == map[] && capacity == 0
      ensures this.hashOf == hashOf && this.defaultValue == defaultValue
    {
      this.hashOf := hashOf;
      this.defaultValue := defaultValue;
      hashes := new nat[0];
      keys := new K[0];
      values := new V[0];
      size, capacity, numUsed, usedLimit := 0, 0, 0, 0;
      contents, slotOf, stepOf := map[], map[], map[];
      new;
      MapEmpty(hashes[..], keys[..], values[..], hashOf);
    }

    /** grow(new_capacity): allocate an unused table and rehash every stored
        pair into it; the deleted slots disappear. */
    method Grow(newCapacity: nat)
      requires Valid()
      requires IsPowerOfTwo(newCapacity) && newCapacity >= InitialCapacity && newCapacity >= capacity
      modifies this
      ensures Valid() && fresh(hashes) && fresh(keys) && fresh(values)
      ensures contents == old(contents) && capacity == newCapacity && numUsed == size
    {
      MapSize(hashes[..], keys[..], values[..], hashOf, contents, slotOf, stepOf);
      UsedLimitMonotone(capacity, newCapacity);
      var newHashes, newKeys, newValues;
      ghost var newSlotOf, newStepOf;
      newHashes, newKeys, newValues, newSlotOf, newStepOf :=
        Rehash(hashes, keys, values, hashOf, contents, slotOf, stepOf, newCapacity);
      Install(newHashes, newKeys, newValues, size, size, contents, newSlotOf, newStepOf);
    }

    /** emplace(key, value): insert when the key is absent, growing first
        once the used slots reach the limit. Returns the key's slot and
        whether it was inserted; an existing value is left as it was. */
    method Emplace(key: K, value: V) returns (idx: nat, inserted: bool)
      requires Valid()
      modifies this, hashes, keys, values
      ensures Valid()
      ensures inserted <==> key !in old(contents)
      ensures contents == if inserted then old(contents)[key := value] else old(contents)
      ensures SameOrFreshArrays()
      ensures idx < capacity && keys[idx] == key && Occupied(hashes[idx]) && values[idx] == contents[key]
    {
      if numUsed >= usedLimit {
        MapSize(hashes[..], keys[..], values[..], hashOf, contents, slotOf, stepOf);
        GrowRaisesLimit(capacity);
        Grow(GrownCapacity(capacity));
      }
      ghost var step, tEnd;
      idx, step, tEnd := FindForInsert(hashes, keys, MaskedHash(hashOf(key)), key);
      InsertFindsSlot(hashes[..], keys[..], hashOf, slotOf, stepOf, key, idx, step, tEnd);
      if Occupied(hashes[idx]) {
        return idx, false;
      }
      InsertAt(idx, step, key, value);
      inserted := true;
    }

    /** The construct step shared by emplace and emplaceNew: count a used
        slot when it was unused, store the pair and grow the size. */
    method InsertAt(idx: nat, ghost step: nat, key: K, value: V)
      requires Valid() && capacity > 0 && numUsed < usedLimit
      requires key !in contents
      requires idx < capacity && !Occupied(hashes[idx])
      requires Reaches(hashes[..], MaskedHash(hashOf(key)), idx, step)
      modifies this, hashes, keys, values
      ensures Valid()
      ensures contents == old(contents)[key := value]
      ensures hashes == old(hashes) && keys == old(keys) && values == old(values) && capacity == old(capacity)
      ensures keys[idx] == key && Occupied(hashes[idx]) && values[idx] == value
    {
      hide MapInv;
      MapInsert(hashes[..], keys[..], values[..], hashOf, contents, slotOf, stepOf, key, value, idx, step);
      var h := MaskedHash(hashOf(key));
      var used := if hashes[idx] == UnusedHash then numUsed + 1 else numUsed;
      Construct(hashes, keys, values, idx, h, key, value);
      Install(hashes, keys, values, size + 1, used, contents[key := value], slotOf[key := idx], stepOf[key := step]);
    }

    /** operator[]: the slot holding the key, so that its value can be read
        or assigned, inserting the default value first when the key is
        absent. */
    method Index(key: K) returns (idx: nat)
      requires Valid()
      modifies this, hashes, keys, values
      ensures Valid()
      ensures contents == if key in old(contents) then old(contents) else old(contents)[key := defaultValue]
      ensures SameOrFreshArrays()
      ensures idx < capacity && keys[idx] == key && Occupied(hashes[idx]) && values[idx] == contents[key]
    {
      ghost var step, tEnd;
      idx, step, tEnd := FindForInsert(hashes, keys, MaskedHash(hashOf(key)), key);
      if capacity > 0 {
        InsertFindsSlot(hashes[..], keys[..], hashOf, slotOf, stepOf, key, idx, step, tEnd);
      }
      if idx == capacity || !Occupied(hashes[idx]) {
        // emplaceNew
        if idx == capacity || numUsed >= usedLimit {
          var inserted;
          idx, inserted := Emplace(key, defaultValue);
        } else {
          InsertAt(idx, step, key, defaultValue);
        }
      }
    }

    /** Writing a value through the reference operator[] returns. */
    method Assign(idx: nat, value: V)
      requires Valid() && idx < capacity && Occupied(hashes[idx])
      modifies this, values
      ensures Valid()
      ensures contents == old(contents[keys[idx] := value])
      ensures hashes == old(hashes) && keys == old(keys) && values == old(values) && capacity == old(capacity)
    {
      MapAssign(hashes[..], keys[..], values[..], hashOf, contents, slotOf, stepOf, idx, value);
      values[idx] := value;
      contents := contents[keys[idx] := value];
    }

    /** find(key) and lookup: the key's slot, or capacity when absent. */
    method Find(key: K) returns (idx: nat)
      requires Valid()
      ensures key in contents ==> idx < capacity && Occupied(hashes[idx]) && keys[idx] == key && values[idx] == contents[key]
      ensures key in contents ==> idx == slotOf[key]
      ensures key !in contents ==> idx == capacity
    {
      ghost var t;
      idx, t := Lookup(hashes, keys, MaskedHash(hashOf(key)), key);
      if capacity > 0 {
        LookupFindsSlot(hashes[..], keys[..], hashOf, slotOf, stepOf, key, idx, t);
      } else {
        MapSize(hashes[..], keys[..], values[..], hashOf, contents, slotOf, stepOf);
      }
    }

    /** maybeFind: the key's value when present. */
    method MaybeFind(key: K) returns (r: Option<V>)
      requires Valid()
      ensures r == if key in contents then Some(contents[key]) else None
    {
      var idx := Find(key);
      if idx == capacity {
        return None;
      }
      return Some(values[idx]);
    }

    /** erase(key): mark the key's slot deleted. Returns whether the key was
        present; the used slot count stays. */
    method Erase(key: K) returns (erased: bool)
      requires Valid()
      modifies this, hashes
      ensures Valid()
      ensures erased <==> key in old(contents)
      ensures contents == old(contents) - {key}
      ensures numUsed == old(numUsed) && capacity == old(capacity)
      ensures hashes == old(hashes) && keys == old(keys) && values == old(values)
    {
      var idx := Find(key);
      if idx == capacity || !Occupied(hashes[idx]) {
        assert contents - {key} == contents;
        return false;
      }
      EraseNode(idx);
      return true;
    }

    /** eraseNode(idx): destroy the pair in an occupied slot and mark the
        slot deleted. */
    method EraseNode(idx: nat)
      requires Valid() && idx < capacity && Occupied(hashes[idx])
      modifies this, hashes
      ensures Valid()
      ensures old(keys[idx]) in old(contents) && contents == old(contents) - {old(keys[idx])}
      ensures numUsed == old(numUsed) && capacity == old(capacity) && size == old(size) - 1
      ensures hashes == old(hashes) && keys == old(keys) && values == old(values)
    {
      var key := keys[idx];
      MapSlot(hashes[..], keys[..], values[..], hashOf, contents, slotOf, stepOf, idx);
      MapErase(hashes[..], keys[..], values[..], hashOf, contents, slotOf, stepOf, key);
      ghost var hs, ks, vs := hashes[..], keys[..], values[..];
      assert keys.Length == hashes.Length && values.Length == hashes.Length;
      assert hashes as object != keys && hashes as object != values && keys as object != values;
      assert hashes.Length == 0 || hashes.Length >= InitialCapacity;
      assert size - 1 == |contents - {key}| && numUsed == NotUnusedCount(hs[idx := DeletedHash]);
      assert numUsed <= UsedLimit(hashes.Length);
      hide MapInv, Valid, NotUnusedCount, UsedLimit;
      MarkSlot(hashes, idx, DeletedHash);
      assert hashes[..] == hs[idx := DeletedHash] && keys[..] == ks && values[..] == vs;
      Install(hashes, keys, values, size - 1, numUsed, contents - {key}, slotOf - {key}, stepOf - {key});
    }

    /** clear: every slot unused, capacity kept. */
    method Clear()
      requires Valid()
      modifies this, hashes
      ensures Valid() && contents == map[] && capacity == old(capacity) && numUsed == 0
      ensures hashes == old(hashes)
    {
      MapShape(hashes[..], keys[..], values[..], hashOf, contents, slotOf, stepOf);
      hide MapInv;
      ClearHashes(hashes);
      MapEmpty(hashes[..], keys[..], values[..], hashOf);
      Install(hashes, keys, values, 0, 0, map[], map[], map[]);
    }

    /** reserve(min_size): grow to the first doubling of the capacity that
        reaches min_size, when that is larger than the capacity. */
    method Reserve(minSize: int)
      requires Valid()
      modifies this
      ensures Valid() && contents == old(contents)
      ensures capacity >= minSize && capacity >= old(capacity)
      ensures capacity == ReservedCapacity(old(capacity), minSize)
    {
      var newCapacity := ReserveCapacity(capacity, minSize);
      if newCapacity > capacity {
        Grow(newCapacity);
      }
    }

    /** keys(): every stored key once, in slot order. */
    method Keys() returns (r: seq<K>)
      requires Valid()
      ensures r == InSlotOrder(hashes[..], keys[..], capacity)
      ensures |r| == |contents| && NoDuplicates(r) && forall k :: k in r <==> k in contents
    {
      r := CollectInSlotOrder(hashes, keys);
      KeysInSlotOrderAreStoredKeys(hashes[..], keys[..], hashOf, slotOf, stepOf);
      assert |contents| == |contents.Keys| == |slotOf.Keys| == |slotOf|;
    }

    /** values(): the stored values, the j-th being the value of the j-th key
        keys() returns. */
    method Values() returns (r: seq<V>)
      requires Valid()
      ensures r == InSlotOrder(hashes[..], values[..], capacity)
      ensures |r| == |contents| == |InSlotOrder(hashes[..], keys[..], capacity)|
      ensures forall j :: 0 <= j < |r| ==>
                InSlotOrder(hashes[..], keys[..], capacity)[j] in contents &&
                r[j] == contents[InSlotOrder(hashes[..], keys[..], capacity)[j]]
    {
      r := CollectInSlotOrder(hashes, values);
      ValuesFollowKeys(hashes[..], keys[..], values[..], hashOf, contents, slotOf, stepOf, capacity);
      KeysInSlotOrderAreStoredKeys(hashes[..], keys[..], hashOf, slotOf, stepOf);
      assert |contents| == |contents.Keys| == |slotOf.Keys| == |slotOf|;
    }
  }

  /** The first half of the sequence of src/tests/stuff.cpp's testHashMap:
      two keys emplaced, one found and one not, and an erased key that
      cannot be erased twice. */
  method HashMapScenarioErase(hashOf: string -> nat) returns (m: HashMap<string, int>, ok: bool)
    ensures fresh(m) && fresh(m.hashes) && fresh(m.keys) && fresh(m.values)
    ensures m.Valid() && m.defaultValue == 0
    ensures ok
  {
    var found;
    m, found := HashMapScenarioFind(hashOf);
    hide HashMap.Valid;
    var erased1 := m.Erase("foo");
    var erased2 := m.Erase("foo");
    var foundAfter := m.Find("foo");
    var lacksFoo := foundAfter == m.capacity;
    ok := found && erased1 && !erased2 && lacksFoo;
  }

  /** Its first steps: two keys emplaced, one found and one not. */
  method HashMapScenarioFind(hashOf: string -> nat) returns (m: HashMap<string, int>, ok: bool)
    ensures fresh(m) && fresh(m.hashes) && fresh(m.keys) && fresh(m.values)
    ensures m.Valid() && m.defaultValue == 0 && "foo" in m.contents
    ensures ok
  {
    hide HashMap.Valid;
    m := new HashMap<string, int>(hashOf, 0);
    var _, _ := m.Emplace("foo", 10);
    var _, _ := m.Emplace("bar", 20);
    var foundFoo := m.Find("foo");
    var hasFoo := foundFoo < m.capacity;
    var foundFooFoo := m.Find("foofoo");
    var lacksFooFoo := foundFooFoo == m.capacity;
    ok := hasFoo && lacksFooFoo;
  }

  /** The second half: a value assigned through operator[] that a later
      emplace of the same key leaves in place, whatever else the map
      holds. */
  method HashMapScenarioAssign(m: HashMap<string, int>) returns (ok: bool)
    requires m.Valid()
    modifies m, m.hashes, m.keys, m.values
    ensures ok
  {
    hide HashMap.Valid;
    var slot := m.Index("foobar");
    m.Assign(slot, 5);
    var _, inserted := m.Emplace("foobar", 10);
    var slot2 := m.Index("foobar");
    ok := !inserted && m.values[slot2] == 5;
  }

  method HashMapScenario(hashOf: string -> nat) returns (ok: bool)
    ensures ok
  {
    var m, ok1 := HashMapScenarioErase(hashOf);
    var ok2 := HashMapScenarioAssign(m);
    ok := ok1 && ok2;
  }
}
