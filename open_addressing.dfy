// The slot table shared by HashMap (storage with hashes) and HashSet: a hash
// array whose entries are a 31-bit key hash, the deleted marker or the unused
// marker, beside a key array. The probe loops of findForInsert, lookup and
// rehash are the same in include/fwk/hash_map.h and include/fwk/hash_set.h.
module OpenAddressing {
  import opened Probing

  const UnusedHash: nat := 0xffff_ffff
  const DeletedHash: nat := 0xffff_fffe
  const HashLimit: nat := 0x8000_0000
  const InitialCapacity: nat := 64

  /** hashFunc: the key's 32-bit hash with the top bit cleared. */
  function MaskedHash(rawHash: nat): (r: nat)
    ensures r < HashLimit && r != UnusedHash && r != DeletedHash
  {
    rawHash % HashLimit
  }

  /** A slot holds a key when its hash is below deleted_hash. */
  predicate Occupied(h: nat) { h < DeletedHash }

  predicate WellFormedHash(h: nat) { h < HashLimit || h == DeletedHash || h == UnusedHash }

  /** The default load factor 2.0f / 3.0f: the single-precision float
      nearest 2/3 is 11184811 / 2^24, a little above 2/3. */
  const LoadFactorNumerator: nat := 11184811
  const LoadFactorDenominator: nat := 0x100_0000

  /** m_used_limit = (int)(capacity * load_factor): the capacity is a power
      of two, so the float product is exact and the cast truncates it. */
  function UsedLimit(capacity: nat): (r: nat)
    ensures capacity > 0 ==> r < capacity
  {
    capacity * LoadFactorNumerator / LoadFactorDenominator
  }

  /** Number of slots that are not unused (m_num_used). */
  function NotUnusedCount(hs: seq<nat>): (r: nat)
    ensures r <= |hs|
  {
    if hs == [] then 0 else NotUnusedCount(hs[..|hs| - 1]) + (if hs[|hs| - 1] != UnusedHash then 1 else 0)
  }

  /** Number of occupied slots (m_size). */
  function OccupiedCount(hs: seq<nat>): (r: nat)
    ensures r <= |hs|
  {
    if hs == [] then 0 else OccupiedCount(hs[..|hs| - 1]) + (if Occupied(hs[|hs| - 1]) then 1 else 0)
  }

  lemma {:induction false} OccupiedAtMostNotUnused(hs: seq<nat>)
    ensures OccupiedCount(hs) <= NotUnusedCount(hs)
  {
    if hs != [] {
      OccupiedAtMostNotUnused(hs[..|hs| - 1]);
    }
  }

  /** Changing one slot changes each count by at most the slot's own change. */
  lemma {:induction false} CountsAfterUpdate(hs: seq<nat>, i: nat, h: nat)
    requires i < |hs|
    ensures NotUnusedCount(hs[i := h]) + (if hs[i] != UnusedHash then 1 else 0)
         == NotUnusedCount(hs) + (if h != UnusedHash then 1 else 0)
    ensures OccupiedCount(hs[i := h]) + (if Occupied(hs[i]) then 1 else 0)
         == OccupiedCount(hs) + (if Occupied(h) then 1 else 0)
  {
    var n := |hs| - 1;
    if i < n {
      assert hs[i := h][..n] == hs[..n][i := h];
      CountsAfterUpdate(hs[..n], i, h);
    } else {
      assert hs[i := h][..n] == hs[..n];
    }
  }

  /** Fewer used slots than slots means some slot is unused. */
  lemma {:induction false} SomeSlotUnused(hs: seq<nat>) returns (u: nat)
    requires NotUnusedCount(hs) < |hs|
    ensures u < |hs| && hs[u] == UnusedHash
  {
    var n := |hs| - 1;
    if hs[n] == UnusedHash {
      u := n;
    } else {
      u := SomeSlotUnused(hs[..n]);
    }
  }

  lemma {:induction false} AllUnusedCounts(hs: seq<nat>)
    requires forall i :: 0 <= i < |hs| ==> hs[i] == UnusedHash
    ensures NotUnusedCount(hs) == 0 && OccupiedCount(hs) == 0
  {
    if hs != [] {
      AllUnusedCounts(hs[..|hs| - 1]);
    }
  }

  /** A key hashed to `hash` sits at `slot`, found after `step` probes, and
      no probe before it meets an unused slot, so a search stopping at the
      first unused slot cannot miss it. */
  ghost predicate Reaches(hs: seq<nat>, hash: nat, slot: nat, step: nat)
    requires |hs| > 0
  {
    step < |hs| && ProbeIndex(hash, step, |hs|) == slot &&
    forall s :: 0 <= s < step ==> hs[ProbeIndex(hash, s, |hs|)] != UnusedHash
  }

  /** Every hash in the table is a masked key hash or a marker. */
  ghost predicate HashesWellFormed(hs: seq<nat>)
  {
    forall i :: 0 <= i < |hs| ==> WellFormedHash(hs[i])
  }

  /** Each stored key sits in its slot, beside its masked hash. */
  ghost predicate SlotsHoldKeys<K>(hs: seq<nat>, keys: seq<K>, hashOf: K -> nat, slotOf: map<K, nat>)
    requires |hs| == |keys|
  {
    forall k :: k in slotOf ==>
      slotOf[k] < |hs| && keys[slotOf[k]] == k && hs[slotOf[k]] == MaskedHash(hashOf(k))
  }

  /** Each stored key's search reaches its slot. */
  ghost predicate KeysReachable<K>(hs: seq<nat>, hashOf: K -> nat, slotOf: map<K, nat>, stepOf: map<K, nat>)
    requires |hs| > 0
  {
    forall k :: k in slotOf ==> k in stepOf && Reaches(hs, MaskedHash(hashOf(k)), slotOf[k], stepOf[k])
  }

  /** Each occupied slot holds a stored key. */
  ghost predicate OccupiedAreKeys<K>(hs: seq<nat>, keys: seq<K>, slotOf: map<K, nat>)
    requires |hs| == |keys|
  {
    forall i :: 0 <= i < |hs| && Occupied(hs[i]) ==> keys[i] in slotOf && slotOf[keys[i]] == i
  }

  /** The slot table invariant. slotOf maps each stored key to its slot and
      stepOf to the probe step at which its search reaches it. */
  ghost predicate TableInv<K>(hs: seq<nat>, keys: seq<K>, hashOf: K -> nat,
                              slotOf: map<K, nat>, stepOf: map<K, nat>)
  {
    |hs| == |keys| &&
    (|hs| > 0 ==> IsPowerOfTwo(|hs|)) &&
    HashesWellFormed(hs) &&
    slotOf.Keys == stepOf.Keys &&
    SlotsHoldKeys(hs, keys, hashOf, slotOf) &&
    (|hs| > 0 ==> KeysReachable(hs, hashOf, slotOf, stepOf)) &&
    OccupiedAreKeys(hs, keys, slotOf) &&
    |slotOf| == OccupiedCount(hs)
  }

  /** A freshly allocated table: every slot unused, no keys. */
  lemma EmptyTable<K>(hs: seq<nat>, keys: seq<K>, hashOf: K -> nat)
    requires |hs| == |keys| && (|hs| > 0 ==> IsPowerOfTwo(|hs|))
    requires forall i :: 0 <= i < |hs| ==> hs[i] == UnusedHash
    ensures TableInv(hs, keys, hashOf, map[], map[])
    ensures NotUnusedCount(hs) == 0
  {
    AllUnusedCounts(hs);
  }

  lemma InsertKeepsSlots<K>(hs: seq<nat>, keys: seq<K>, hashOf: K -> nat, slotOf: map<K, nat>,
                            key: K, slot: nat)
    requires |hs| == |keys| && SlotsHoldKeys(hs, keys, hashOf, slotOf)
    requires slot < |hs| && !Occupied(hs[slot])
    ensures SlotsHoldKeys(hs[slot := MaskedHash(hashOf(key))], keys[slot := key], hashOf, slotOf[key := slot])
  {
    forall k | k in slotOf && k != key
      ensures slotOf[k] != slot
    {
      assert Occupied(hs[slotOf[k]]);
    }
  }

  lemma InsertKeepsOccupied<K>(hs: seq<nat>, keys: seq<K>, hashOf: K -> nat, slotOf: map<K, nat>,
                               key: K, slot: nat)
    requires |hs| == |keys| && OccupiedAreKeys(hs, keys, slotOf)
    requires key !in slotOf
    requires slot < |hs| && !Occupied(hs[slot])
    ensures OccupiedAreKeys(hs[slot := MaskedHash(hashOf(key))], keys[slot := key], slotOf[key := slot])
  {
    var hs', keys', slotOf' := hs[slot := MaskedHash(hashOf(key))], keys[slot := key], slotOf[key := slot];
    forall i | 0 <= i < |hs'| && Occupied(hs'[i])
      ensures keys'[i] in slotOf' && slotOf'[keys'[i]] == i
    {
      if i != slot {
        assert Occupied(hs[i]) && keys'[i] == keys[i] && keys[i] in slotOf;
        assert keys[i] != key;
      }
    }
  }

  lemma InsertKeepsReach<K>(hs: seq<nat>, hashOf: K -> nat, slotOf: map<K, nat>, stepOf: map<K, nat>,
                            key: K, slot: nat, step: nat)
    requires |hs| > 0 && KeysReachable(hs, hashOf, slotOf, stepOf)
    requires slot < |hs|
    requires Reaches(hs, MaskedHash(hashOf(key)), slot, step)
    ensures KeysReachable(hs[slot := MaskedHash(hashOf(key))], hashOf, slotOf[key := slot], stepOf[key := step])
  {
    var hs' := hs[slot := MaskedHash(hashOf(key))];
    forall k | k in slotOf[key := slot]
      ensures k in stepOf[key := step]
      ensures Reaches(hs', MaskedHash(hashOf(k)), slotOf[key := slot][k], stepOf[key := step][k])
    {
      if k != key {
        ReachesWhenUnusedShrinks(hs, hs', MaskedHash(hashOf(k)), slotOf[k], stepOf[k]);
      } else {
        ReachesWhenUnusedShrinks(hs, hs', MaskedHash(hashOf(key)), slot, step);
      }
    }
  }

  /** Placing a new key in a free slot found by probing keeps the invariant. */
  lemma InsertKeepsInv<K>(hs: seq<nat>, keys: seq<K>, hashOf: K -> nat,
                          slotOf: map<K, nat>, stepOf: map<K, nat>, key: K, slot: nat, step: nat)
    requires TableInv(hs, keys, hashOf, slotOf, stepOf)
    requires key !in slotOf
    requires slot < |hs| && !Occupied(hs[slot])
    requires Reaches(hs, MaskedHash(hashOf(key)), slot, step)
    ensures TableInv(hs[slot := MaskedHash(hashOf(key))], keys[slot := key], hashOf,
                     slotOf[key := slot], stepOf[key := step])
    ensures NotUnusedCount(hs[slot := MaskedHash(hashOf(key))]) ==
            NotUnusedCount(hs) + (if hs[slot] == UnusedHash then 1 else 0)
  {
    var hs' := hs[slot := MaskedHash(hashOf(key))];
    CountsAfterUpdate(hs, slot, MaskedHash(hashOf(key)));
    InsertKeepsSlots(hs, keys, hashOf, slotOf, key, slot);
    InsertKeepsOccupied(hs, keys, hashOf, slotOf, key, slot);
    InsertKeepsReach(hs, hashOf, slotOf, stepOf, key, slot, step);
    assert HashesWellFormed(hs');
    assert |slotOf[key := slot]| == |slotOf| + 1;
  }

  /** Turning unused slots into used ones keeps every search path. */
  lemma ReachesWhenUnusedShrinks(hs: seq<nat>, hs': seq<nat>, hash: nat, slot: nat, step: nat)
    requires |hs| == |hs'| > 0
    requires forall i :: 0 <= i < |hs| && hs[i] != UnusedHash ==> hs'[i] != UnusedHash
    requires Reaches(hs, hash, slot, step)
    ensures Reaches(hs', hash, slot, step)
  {
  }

  lemma EraseKeepsReach<K>(hs: seq<nat>, hashOf: K -> nat, slotOf: map<K, nat>, stepOf: map<K, nat>,
                           key: K, slot: nat)
    requires |hs| > 0 && KeysReachable(hs, hashOf, slotOf, stepOf)
    requires slot < |hs|
    ensures KeysReachable(hs[slot := DeletedHash], hashOf, slotOf - {key}, stepOf - {key})
  {
    var hs' := hs[slot := DeletedHash];
    forall k | k in slotOf - {key}
      ensures Reaches(hs', MaskedHash(hashOf(k)), slotOf[k], stepOf[k])
    {
      ReachesWhenUnusedShrinks(hs, hs', MaskedHash(hashOf(k)), slotOf[k], stepOf[k]);
    }
  }

  lemma EraseKeepsOccupied<K>(hs: seq<nat>, keys: seq<K>, slotOf: map<K, nat>, key: K)
    requires |hs| == |keys| && OccupiedAreKeys(hs, keys, slotOf)
    requires key in slotOf && slotOf[key] < |hs| && keys[slotOf[key]] == key
    ensures OccupiedAreKeys(hs[slotOf[key] := DeletedHash], keys, slotOf - {key})
  {
  }

  /** Marking a key's slot deleted removes the key and keeps the invariant. */
  lemma EraseKeepsInv<K>(hs: seq<nat>, keys: seq<K>, hashOf: K -> nat,
                         slotOf: map<K, nat>, stepOf: map<K, nat>, key: K)
    requires TableInv(hs, keys, hashOf, slotOf, stepOf)
    requires key in slotOf
    ensures TableInv(hs[slotOf[key] := DeletedHash], keys, hashOf,
                     slotOf - {key}, stepOf - {key})
    ensures NotUnusedCount(hs[slotOf[key] := DeletedHash]) == NotUnusedCount(hs)
  {
    var slot := slotOf[key];
    var hs' := hs[slot := DeletedHash];
    CountsAfterUpdate(hs, slot, DeletedHash);
    EraseKeepsReach(hs, hashOf, slotOf, stepOf, key, slot);
    EraseKeepsOccupied(hs, keys, slotOf, key);
    assert HashesWellFormed(hs');
    assert SlotsHoldKeys(hs', keys, hashOf, slotOf - {key});
    assert |slotOf - {key}| == |slotOf| - 1;
  }

  /** Some step below capacity reaches an unused slot when one exists. */
  lemma UnusedStep(hs: seq<nat>, hash: nat) returns (tu: nat)
    requires |hs| > 0 && IsPowerOfTwo(|hs|)
    requires NotUnusedCount(hs) < |hs|
    ensures tu < |hs| && hs[ProbeIndex(hash, tu, |hs|)] == UnusedHash
  {
    var u := SomeSlotUnused(hs);
    ProbeCoversAll(hash, |hs|, u);
    tu :| 0 <= tu < |hs| && ProbeIndex(hash, tu, |hs|) == u;
  }

  /** No probe up to step t finds the key (compareKey fails). */
  ghost predicate NoMatchThrough<K>(hs: seq<nat>, keys: seq<K>, hash: nat, key: K, t: nat)
    requires |hs| == |keys| > 0
  {
    forall s :: 0 <= s <= t ==> !(hs[ProbeIndex(hash, s, |hs|)] == hash && keys[ProbeIndex(hash, s, |hs|)] == key)
  }

  /** No probe before step t meets an unused slot. */
  ghost predicate NoUnusedBefore(hs: seq<nat>, hash: nat, t: nat)
    requires |hs| > 0
  {
    forall s :: 0 <= s < t ==> hs[ProbeIndex(hash, s, |hs|)] != UnusedHash
  }

  /** Every probe before step t meets an occupied slot. */
  ghost predicate OccupiedBefore(hs: seq<nat>, hash: nat, t: nat)
    requires |hs| > 0
  {
    forall s :: 0 <= s < t ==> Occupied(hs[ProbeIndex(hash, s, |hs|)])
  }

  /** A search that meets an unused slot at step t without a match proves
      the key absent. */
  lemma SearchEndProvesAbsent<K>(hs: seq<nat>, keys: seq<K>, hashOf: K -> nat,
                                 slotOf: map<K, nat>, stepOf: map<K, nat>, key: K, t: nat)
    requires TableInv(hs, keys, hashOf, slotOf, stepOf) && |hs| > 0
    requires hs[ProbeIndex(MaskedHash(hashOf(key)), t, |hs|)] == UnusedHash
    requires NoMatchThrough(hs, keys, MaskedHash(hashOf(key)), key, t)
    ensures key !in slotOf
  {
  }

  /** A probe whose slot matches the hash and key is the key's slot. */
  lemma MatchIsSlot<K>(hs: seq<nat>, keys: seq<K>, hashOf: K -> nat,
                       slotOf: map<K, nat>, stepOf: map<K, nat>, key: K, i: nat)
    requires TableInv(hs, keys, hashOf, slotOf, stepOf)
    requires i < |hs| && hs[i] == MaskedHash(hashOf(key)) && keys[i] == key
    ensures key in slotOf && slotOf[key] == i
  {
  }

  /** A finished lookup, stated on the probe sequence: either the probe at
      step t matches the hash and the key, or it meets an unused slot with
      no match up to it. */
  ghost predicate LookupOutcome<K>(hs: seq<nat>, keys: seq<K>, hash: nat, key: K, idx: nat, t: nat)
    requires |hs| == |keys| > 0
  {
    t < |hs| &&
    (idx < |hs| ==> idx == ProbeIndex(hash, t, |hs|) && hs[idx] == hash && keys[idx] == key) &&
    (idx >= |hs| ==> idx == |hs| && hs[ProbeIndex(hash, t, |hs|)] == UnusedHash &&
                     NoMatchThrough(hs, keys, hash, key, t))
  }

  /** Under the table invariant, the outcome of a lookup is the key's slot,
      or capacity exactly when the key is absent. */
  lemma LookupFindsSlot<K>(hs: seq<nat>, keys: seq<K>, hashOf: K -> nat,
                           slotOf: map<K, nat>, stepOf: map<K, nat>, key: K, idx: nat, t: nat)
    requires TableInv(hs, keys, hashOf, slotOf, stepOf) && |hs| > 0
    requires LookupOutcome(hs, keys, MaskedHash(hashOf(key)), key, idx, t)
    ensures key in slotOf ==> idx == slotOf[key]
    ensures key !in slotOf ==> idx == |hs|
  {
    if idx < |hs| {
      MatchIsSlot(hs, keys, hashOf, slotOf, stepOf, key, idx);
    } else {
      SearchEndProvesAbsent(hs, keys, hashOf, slotOf, stepOf, key, t);
    }
  }

  /** lookup: follow the probe sequence from the hash's home slot until the
      hash and key match or an unused slot ends the search. An empty table
      (capacity 0) behaves as a single unused slot. */
  method Lookup<K(==)>(hashes: array<nat>, keys: array<K>, hash: nat, key: K) returns (idx: nat, ghost t: nat)
    requires keys.Length == hashes.Length
    requires hashes.Length > 0 ==> IsPowerOfTwo(hashes.Length) && NotUnusedCount(hashes[..]) < hashes.Length
    ensures hashes.Length == 0 ==> idx == 0
    ensures hashes.Length > 0 ==> LookupOutcome(hashes[..], keys[..], hash, key, idx, t)
  {
    var capacity := hashes.Length;
    t := 0;
    if capacity == 0 {
      return 0, 0;
    }
    ghost var hs, ks := hashes[..], keys[..];
    idx := hash % capacity;
    assert idx == ProbeIndex(hash, 0, capacity);
    if hashes[idx] == hash && keys[idx] == key {
      return idx, 0;
    }
    ghost var tu := UnusedStep(hs, hash);
    var numProbes := 1;
    while hashes[idx] != UnusedHash
      invariant t <= tu && numProbes == t + 1 && idx == ProbeIndex(hash, t, capacity)
      invariant NoUnusedBefore(hs, hash, t)
      invariant NoMatchThrough(hs, ks, hash, key, t)
      decreases tu - t
    {
      ProbeStep(hash, t, capacity);
      idx := (idx + numProbes) % capacity;
      numProbes := numProbes + 1;
      t := t + 1;
      if hashes[idx] == hash && keys[idx] == key {
        return idx, t;
      }
    }
    return capacity, t;
  }

  /** A finished findForInsert, stated on the probe sequence: the slot at
      step `step` either matches the hash and the key, or holds no key and
      every probe before it is occupied, while the search went on to an
      unused slot at step tEnd with no match up to it. */
  ghost predicate InsertOutcome<K>(hs: seq<nat>, keys: seq<K>, hash: nat, key: K, idx: nat, step: nat, tEnd: nat)
    requires |hs| == |keys| > 0
  {
    step < |hs| && idx == ProbeIndex(hash, step, |hs|) &&
    (Occupied(hs[idx]) ==> hs[idx] == hash && keys[idx] == key) &&
    (!Occupied(hs[idx]) ==> OccupiedBefore(hs, hash, step) && tEnd < |hs| &&
                            hs[ProbeIndex(hash, tEnd, |hs|)] == UnusedHash &&
                            NoMatchThrough(hs, keys, hash, key, tEnd))
  }

  /** The outcomes findForInsert can return: a matching slot, ... */
  lemma MatchOutcome<K>(hs: seq<nat>, keys: seq<K>, hash: nat, key: K, idx: nat, t: nat)
    requires |hs| == |keys| > 0 && t < |hs| && idx == ProbeIndex(hash, t, |hs|)
    requires hs[idx] == hash && keys[idx] == key && Occupied(hash)
    ensures InsertOutcome(hs, keys, hash, key, idx, t, t)
  {
  }

  /** ... the first deleted slot met before the first unused one, ... */
  lemma DeletedOutcome<K>(hs: seq<nat>, keys: seq<K>, hash: nat, key: K, idx: nat, freeIdx: nat, freeStep: nat, t: nat)
    requires |hs| == |keys| > 0 && freeStep <= t < |hs| && idx == ProbeIndex(hash, t, |hs|)
    requires freeIdx == ProbeIndex(hash, freeStep, |hs|) && hs[freeIdx] == DeletedHash
    requires OccupiedBefore(hs, hash, freeStep) && hs[idx] == UnusedHash
    requires NoMatchThrough(hs, keys, hash, key, t)
    ensures InsertOutcome(hs, keys, hash, key, freeIdx, freeStep, t)
  {
  }

  /** ... or the first unused slot. */
  lemma UnusedOutcome<K>(hs: seq<nat>, keys: seq<K>, hash: nat, key: K, idx: nat, t: nat)
    requires |hs| == |keys| > 0 && t < |hs| && idx == ProbeIndex(hash, t, |hs|)
    requires OccupiedBefore(hs, hash, t) && hs[idx] == UnusedHash
    requires NoMatchThrough(hs, keys, hash, key, t)
    ensures InsertOutcome(hs, keys, hash, key, idx, t, t)
  {
  }

  /** Under the table invariant, findForInsert returns the key's slot when
      the key is stored, and otherwise a free slot its probe sequence
      reaches. */
  lemma InsertFindsSlot<K>(hs: seq<nat>, keys: seq<K>, hashOf: K -> nat,
                           slotOf: map<K, nat>, stepOf: map<K, nat>, key: K, idx: nat, step: nat, tEnd: nat)
    requires TableInv(hs, keys, hashOf, slotOf, stepOf) && |hs| > 0
    requires InsertOutcome(hs, keys, MaskedHash(hashOf(key)), key, idx, step, tEnd)
    ensures key in slotOf <==> Occupied(hs[idx])
    ensures key in slotOf ==> idx == slotOf[key]
    ensures key !in slotOf ==> Reaches(hs, MaskedHash(hashOf(key)), idx, step)
  {
    if Occupied(hs[idx]) {
      MatchIsSlot(hs, keys, hashOf, slotOf, stepOf, key, idx);
    } else {
      SearchEndProvesAbsent(hs, keys, hashOf, slotOf, stepOf, key, tEnd);
    }
  }

  /** findForInsert: the first slot along the probe sequence that matches
      the key, or else the first deleted slot met before the first unused
      one, or else that unused one. Capacity 0 answers 0. */
  method FindForInsert<K(==)>(hashes: array<nat>, keys: array<K>, hash: nat, key: K)
    returns (idx: nat, ghost step: nat, ghost tEnd: nat)
    requires keys.Length == hashes.Length
    requires hashes.Length > 0 ==> IsPowerOfTwo(hashes.Length) && NotUnusedCount(hashes[..]) < hashes.Length
    requires HashesWellFormed(hashes[..]) && Occupied(hash)
    ensures hashes.Length == 0 ==> idx == 0
    ensures hashes.Length > 0 ==> InsertOutcome(hashes[..], keys[..], hash, key, idx, step, tEnd)
  {
    var capacity := hashes.Length;
    step, tEnd := 0, 0;
    if capacity == 0 {
      return 0, 0, 0;
    }
    ghost var hs, ks := hashes[..], keys[..];
    idx := hash % capacity;
    assert idx == ProbeIndex(hash, 0, capacity);
    if hashes[idx] == hash && keys[idx] == key {
      MatchOutcome(hs, ks, hash, key, idx, 0);
      return idx, 0, 0;
    }
    var freeIdx: int := if hashes[idx] == DeletedHash then idx else -1;
    ghost var freeStep: nat := 0;
    ghost var tu := UnusedStep(hs, hash);
    ghost var t: nat := 0;
    var numProbes := 1;
    assert NoUnusedBefore(hs, hash, 0) && OccupiedBefore(hs, hash, 0);
    assert NoMatchThrough(hs, ks, hash, key, 0);
    hide NoUnusedBefore, NoMatchThrough, OccupiedBefore, InsertOutcome, ProbeIndex;
    while hashes[idx] != UnusedHash
      invariant t <= tu && numProbes == t + 1 && idx == ProbeIndex(hash, t, capacity)
      invariant NoUnusedBefore(hs, hash, t)
      invariant NoMatchThrough(hs, ks, hash, key, t)
      invariant freeIdx == -1 ==> OccupiedBefore(hs, hash, t) && hs[idx] != DeletedHash
      invariant freeIdx != -1 ==> freeStep <= t && freeIdx == ProbeIndex(hash, freeStep, capacity) &&
                                  hs[freeIdx] == DeletedHash && OccupiedBefore(hs, hash, freeStep)
      decreases tu - t
    {
      assert freeIdx == -1 ==> Occupied(hs[idx]) by {
        assert WellFormedHash(hs[idx]);
      }
      NoUnusedExtend(hs, hash, t);
      if freeIdx == -1 {
        OccupiedExtend(hs, hash, t);
      }
      NoUnusedBound(hs, hash, t + 1, tu);
      ProbeStep(hash, t, capacity);
      idx := (idx + numProbes) % capacity;
      numProbes := numProbes + 1;
      t := t + 1;
      if hashes[idx] == hash && keys[idx] == key {
        MatchOutcome(hs, ks, hash, key, idx, t);
        return idx, t, t;
      }
      NoMatchExtend(hs, ks, hash, key, t - 1);
      if hashes[idx] == DeletedHash && freeIdx == -1 {
        freeIdx := idx;
        freeStep := t;
      }
    }
    if freeIdx != -1 {
      DeletedOutcome(hs, ks, hash, key, idx, freeIdx, freeStep, t);
      return freeIdx, freeStep, t;
    }
    UnusedOutcome(hs, ks, hash, key, idx, t);
    return idx, t, t;
  }

  /** The probe runs one step further past a slot in use ... */
  lemma NoUnusedExtend(hs: seq<nat>, hash: nat, t: nat)
    requires |hs| > 0 && NoUnusedBefore(hs, hash, t) && hs[ProbeIndex(hash, t, |hs|)] != UnusedHash
    ensures NoUnusedBefore(hs, hash, t + 1)
  {
  }

  /** ... past an occupied one ... */
  lemma OccupiedExtend(hs: seq<nat>, hash: nat, t: nat)
    requires |hs| > 0 && OccupiedBefore(hs, hash, t) && Occupied(hs[ProbeIndex(hash, t, |hs|)])
    ensures OccupiedBefore(hs, hash, t + 1)
  {
  }

  /** ... and past a slot that does not match the key. */
  lemma NoMatchExtend<K>(hs: seq<nat>, keys: seq<K>, hash: nat, key: K, t: nat)
    requires |hs| == |keys| > 0 && NoMatchThrough(hs, keys, hash, key, t)
    requires var i := ProbeIndex(hash, t + 1, |hs|); !(hs[i] == hash && keys[i] == key)
    ensures NoMatchThrough(hs, keys, hash, key, t + 1)
  {
  }

  /** A probe that has met no unused slot has not passed an unused one. */
  lemma NoUnusedBound(hs: seq<nat>, hash: nat, n: nat, tu: nat)
    requires |hs| > 0 && NoUnusedBefore(hs, hash, n) && hs[ProbeIndex(hash, tu, |hs|)] == UnusedHash
    ensures n <= tu
  {
  }

  /** The probe loop of rehash: the first unused slot along the probe
      sequence of a hash. */
  method FindUnused(hashes: array<nat>, hash: nat) returns (idx: nat, ghost step: nat)
    requires hashes.Length > 0 && IsPowerOfTwo(hashes.Length)
    requires NotUnusedCount(hashes[..]) < hashes.Length
    ensures step < hashes.Length && idx == ProbeIndex(hash, step, hashes.Length)
    ensures hashes[idx] == UnusedHash
    ensures forall s :: 0 <= s < step ==> hashes[ProbeIndex(hash, s, hashes.Length)] != UnusedHash
  {
    var capacity := hashes.Length;
    idx := hash % capacity;
    assert idx == ProbeIndex(hash, 0, capacity);
    ghost var tu := UnusedStep(hashes[..], hash);
    step := 0;
    var numProbes := 1;
    while hashes[idx] != UnusedHash
      invariant step <= tu && numProbes == step + 1 && idx == ProbeIndex(hash, step, capacity)
      invariant forall s :: 0 <= s < step ==> hashes[ProbeIndex(hash, s, capacity)] != UnusedHash
      decreases tu - step
    {
      ProbeStep(hash, step, capacity);
      idx := (idx + numProbes) % capacity;
      numProbes := numProbes + 1;
      step := step + 1;
    }
  }

  /** The entries (keys or values) of the occupied slots among the first n,
      in slot order: the order in which iteration, keys() and values() visit
      them. */
  function InSlotOrder<T>(hs: seq<nat>, entries: seq<T>, n: nat): seq<T>
    requires n <= |hs| == |entries|
  {
    if n == 0 then []
    else InSlotOrder(hs, entries, n - 1) + (if Occupied(hs[n - 1]) then [entries[n - 1]] else [])
  }

  /** The loop of clear(): every slot marked unused. */
  method ClearHashes(hashes: array<nat>)
    modifies hashes
    ensures forall i :: 0 <= i < hashes.Length ==> hashes[i] == UnusedHash
  {
    var n := 0;
    while n < hashes.Length
      invariant 0 <= n <= hashes.Length
      invariant forall i :: 0 <= i < n ==> hashes[i] == UnusedHash
    {
      if hashes[n] != UnusedHash {
        hashes[n] := UnusedHash;
      }
      n := n + 1;
    }
  }

  /** The loop of keys() and values(): the entries of the occupied slots,
      in slot order. */
  method CollectInSlotOrder<T>(hashes: array<nat>, entries: array<T>) returns (r: seq<T>)
    requires entries.Length == hashes.Length
    ensures r == InSlotOrder(hashes[..], entries[..], hashes.Length)
  {
    r := [];
    var n := 0;
    while n < hashes.Length
      invariant 0 <= n <= hashes.Length
      invariant r == InSlotOrder(hashes[..], entries[..], n)
    {
      if Occupied(hashes[n]) {
        r := r + [entries[n]];
      }
      n := n + 1;
    }
  }

  predicate NoDuplicates<T(==)>(s: seq<T>)
  {
    forall i, j :: 0 <= i < j < |s| ==> s[i] != s[j]
  }

  lemma {:induction false} KeysInSlotOrderPrefix<K>(hs: seq<nat>, keys: seq<K>, hashOf: K -> nat,
                                                     slotOf: map<K, nat>, n: nat)
    requires |hs| == |keys| && SlotsHoldKeys(hs, keys, hashOf, slotOf) && OccupiedAreKeys(hs, keys, slotOf)
    requires n <= |hs|
    ensures |InSlotOrder(hs, keys, n)| == OccupiedCount(hs[..n])
    ensures forall k :: k in InSlotOrder(hs, keys, n) <==> k in slotOf && slotOf[k] < n
    ensures NoDuplicates(InSlotOrder(hs, keys, n))
  {
    if n > 0 {
      KeysInSlotOrderPrefix(hs, keys, hashOf, slotOf, n - 1);
      assert hs[..n][..n - 1] == hs[..n - 1];
      var prefix := InSlotOrder(hs, keys, n - 1);
      if Occupied(hs[n - 1]) {
        assert keys[n - 1] !in prefix;
      }
    }
  }

  /** The slot-order key list holds every stored key exactly once. */
  lemma KeysInSlotOrderAreStoredKeys<K>(hs: seq<nat>, keys: seq<K>, hashOf: K -> nat,
                                        slotOf: map<K, nat>, stepOf: map<K, nat>)
    requires TableInv(hs, keys, hashOf, slotOf, stepOf)
    ensures |InSlotOrder(hs, keys, |hs|)| == |slotOf|
    ensures forall k :: k in InSlotOrder(hs, keys, |hs|) <==> k in slotOf
    ensures NoDuplicates(InSlotOrder(hs, keys, |hs|))
  {
    KeysInSlotOrderPrefix(hs, keys, hashOf, slotOf, |hs|);
    assert hs[..|hs|] == hs;
  }

  /** The next capacity of grow(): 64 for an empty map, else double. */
  function GrownCapacity(capacity: nat): nat
  {
    if capacity == 0 then InitialCapacity else capacity * 2
  }

  lemma InitialCapacityIsPowerOfTwo()
    ensures IsPowerOfTwo(InitialCapacity)
  {
    assert IsPowerOfTwo(1) && IsPowerOfTwo(2) && IsPowerOfTwo(4) && IsPowerOfTwo(8);
    assert IsPowerOfTwo(16) && IsPowerOfTwo(32);
  }

  /** Growing raises the used limit, so a grown map has room for one more
      used slot. */
  lemma GrowRaisesLimit(capacity: nat)
    requires capacity == 0 || (IsPowerOfTwo(capacity) && capacity >= InitialCapacity)
    ensures IsPowerOfTwo(GrownCapacity(capacity)) && GrownCapacity(capacity) >= InitialCapacity
    ensures UsedLimit(GrownCapacity(capacity)) > UsedLimit(capacity)
  {
    InitialCapacityIsPowerOfTwo();
    if capacity > 0 {
      assert (capacity * 2) / 2 == capacity;
    }
  }

  lemma UsedLimitMonotone(a: nat, b: nat)
    requires a <= b
    ensures UsedLimit(a) <= UsedLimit(b)
  {
  }

  /** c doubled until it reaches minSize. */
  function Doubled(c: nat, minSize: int): nat
    requires c > 0
    decreases minSize - c
  {
    if c >= minSize then c else Doubled(c * 2, minSize)
  }

  /** The capacity reserve(min_size) settles on: 64 for an empty table, else
      the current capacity, doubled until it reaches min_size. */
  function ReservedCapacity(capacity: nat, minSize: int): nat
  {
    Doubled(if capacity == 0 then InitialCapacity else capacity, minSize)
  }

  /** reserve: the capacity doubles from 64 (or from the current capacity)
      until it reaches min_size. */
  method ReserveCapacity(capacity: nat, minSize: int) returns (newCapacity: nat)
    requires capacity == 0 || IsPowerOfTwo(capacity)
    ensures newCapacity == ReservedCapacity(capacity, minSize)
    ensures IsPowerOfTwo(newCapacity)
    ensures newCapacity >= minSize
    ensures newCapacity >= capacity && newCapacity >= (if capacity == 0 then InitialCapacity else capacity)
    ensures newCapacity / 2 < minSize || newCapacity == (if capacity == 0 then InitialCapacity else capacity)
  {
    newCapacity := if capacity == 0 then InitialCapacity else capacity;
    InitialCapacityIsPowerOfTwo();
    ghost var start := newCapacity;
    while newCapacity < minSize
      invariant IsPowerOfTwo(newCapacity) && newCapacity >= start
      invariant newCapacity == start || newCapacity / 2 < minSize
      invariant Doubled(newCapacity, minSize) == Doubled(start, minSize)
      decreases minSize - newCapacity
    {
      assert (2 * newCapacity) / 2 == newCapacity;
      newCapacity := newCapacity * 2;
    }
  }
}
