# libfwk and its dependency tools, modelled in Dafny

libfwk is a C++ framework library: containers (open-addressing hash maps and
sets, vectors with holes threaded by a free list, intrusive index lists, a
raw vector buffer), a bitmap slab allocator, text helpers (UTF-8/UTF-32
transcoding, string views, tokenizing, the `%` placeholder formatter, a
whitespace token parser), file paths, exact integer arithmetic (128-bit
integers, integer boxes, the integer Delaunay predicates), an immutable
graph in compressed sparse row form, the Vulkan format tables and the
bit-packed identifiers of the profiler and of the Vulkan layer. Beside the
library sit two Python tools, `tools/configure.py` and its older copy
`tools/install_deps.py`, that read a `dependencies.json` manifest and decide
which packages are downloaded from a cache or built with Conan or CMake.

Each core source file is one Dafny module, with these exceptions.
tools/configure.py is split over ConfigureModel, ConfigureRecipes,
ManifestJson and ManifestPatterns. src/math/int128.cpp is split over
Int128Model, Int128Limbs and Int128Digit. src/str.cpp is split over Strings
and Utf, and src/geom/immutable_graph.cpp over ImmutableGraphModel and
ImmutableGraphCycles. VulkanBase models include/fwk/vulkan_base.h and
VulkanFormats src/vulkan_base.cpp. OpenAddressing and Probing hold what the
hash map and the hash set share, StringOrder is Python's ordering of strings,
used by both tools, and Seqs, Wrappers and Words are general helpers. Code
that changes state in place is modelled by classes over arrays and sequences
(HashMap, HashSet, SparseVector, IndexedVector, LinkedVector, BitVector,
SlabAllocator, the vector buffer and its pool, FilePath, TextFormatter,
TextParser, Tokenizer, UInt128, Int128) whose methods are proved against
specification functions; expression-level code is modelled by functions and
lemmas. The Python tools are modelled on values: JSON is a datatype, the
regular expressions of the manifest are recognizers proved equal to the
languages they denote, and the file system, the network, hashing and
subprocesses are parameters. Integers are unbounded; machine words are subset
types of `int` or bit-vectors, and their wrap-around is written out where the
source relies on it.

## Model

| member | source | states |
|---|---|---|
| PerfBase.IdLessAsWrittenIsReflexive | include/fwk/perf_base.h:33 | as written, every PointId and ExecId is "less" than itself, and two different ids are never ordered |
| PerfBase.PointIdLessIsStrictTotalOrder | include/fwk/perf_base.h:33 | the intended operator< on PointId is irreflexive, transitive and total on distinct ids |
| PerfBase.ExecIdLessIsStrictTotalOrder | include/fwk/perf_base.h:48 | the same for ExecId |
| PerfBase.ValueMaskIsTwoToThe45MinusOne | include/fwk/perf_base.h:57 | value_mask is 2^45 - 1 |
| PerfBase.MakeSample | include/fwk/perf_base.h:59-62 | the Sample constructor's accessors recover the masked value, the type ordinal and the id |
| PerfBase.SmallValueRoundTrip | include/fwk/perf_base.h:59-66 | a value below 2^45 reads back unchanged |
| PerfBase.Sample.SetValue | include/fwk/perf_base.h:64 | setValue replaces the 45 value bits with the new value masked to 45 bits |
| PerfBase.SetValueKeepsType | include/fwk/perf_base.h:64-67 | setValue leaves type() unchanged |
| PerfBase.SetValueKeepsId | include/fwk/perf_base.h:64-68 | setValue leaves id() unchanged |
| PerfBase.EncodeSampleId | include/fwk/perf_base.h:232-234 | the encoded id taken modulo 4 is the scope type |
| PerfBase.DecodeSampleId | include/fwk/perf_base.h:235-237 | the decoded pair satisfies id * 4 + type == encoded, with type below 4 |
| PerfBase.SampleIdRoundTrip | include/fwk/perf_base.h:232-237 | decodeSampleId(encodeSampleId(i, t)) == (i, t) for ids below 2^30 |
| PerfBase.SampleIdWrapsAboveTwoToThe30 | include/fwk/perf_base.h:232-237 | an id of 2^30 or more comes back reduced modulo 2^30, so the round trip fails |
| FwkBase.ListInsertCorrect | include/fwk_base.h:1015-1028 | listInsert puts idx at the head of a well-formed list, which stays well-formed with order [idx] + old order |
| FwkBase.ListRemoveCorrect | include/fwk_base.h:1030-1050 | listRemove unlinks the element at position p, leaving a well-formed list of the other elements in order, with the element's links reset |
| FwkBase.ListFrame | include/fwk_base.h:1015-1050 | a list keeps its shape when only nodes outside it change |
| FwkBase.FreeListAllocFresh | include/fwk_base.h:1052-1063 | with an empty free list, freeListAlloc appends a new node and returns its index |
| FwkBase.FreeListAllocPop | include/fwk_base.h:1052-1063 | with a non-empty free list, freeListAlloc returns its head and removes it from the free list |
| FwkBase.LinkedVector.constructor | include/fwk_base.h:1066-1110 | a new LinkedVector has no elements and empty active and free lists |
| FwkBase.LinkedVector.Size | include/fwk_base.h:1073 | size() counts active and free elements together |
| FwkBase.LinkedVector.Alloc | include/fwk_base.h:1076-1081 | alloc reuses the free list's head, or appends when it is empty, and puts the index at the head of the active list |
| FwkBase.LinkedVector.Free | include/fwk_base.h:1083-1088 | free moves an active index from its place in the active list to the head of the free list |
| FwkBase.LinkedVector.Head | include/fwk_base.h:1093 | head() is the first active index, or -1 |
| FwkBase.LinkedVector.Tail | include/fwk_base.h:1094 | tail() is the last active index, or -1 |
| FwkBase.LinkedVector.Next | include/fwk_base.h:1090 | next(idx) is the following active index in list order, or -1 |
| FwkBase.LinkedVector.Prev | include/fwk_base.h:1091 | prev(idx) is the preceding active index in list order, or -1 |
| FwkBase.SplitCount | include/fwk_base.h:1066-1110 | the active and free lists together hold every element exactly once |
| FwkBase.WithBitReadsBack | include/fwk_base.h:904-906 | after Bit::operator= the bit reads back as the value written |
| FwkBase.WithBitKeepsOthers | include/fwk_base.h:904-906 | Bit::operator= changes no other bit |
| FwkBase.BitVector.constructor | include/fwk_base.h:914 | a new BitVector has the requested size |
| FwkBase.BitVector.Set | include/fwk_base.h:929 | writing bit idx makes it read back as the value and leaves every other bit as it was |
| HashSetModel.HashSet.constructor | include/fwk/hash_set.h:44 | an empty set of capacity 0 |
| HashSetModel.HashSet.Emplace | include/fwk/hash_set.h:113-128 | emplace inserts exactly when the key is absent, returns false for a duplicate, and raises size by one only on insertion |
| HashSetModel.HashSet.Lookup | include/fwk/hash_set.h:257-273 | lookup returns the key's slot when present and capacity when absent |
| HashSetModel.HashSet.Contains | include/fwk/hash_set.h:73 | contains is true exactly for stored keys |
| HashSetModel.HashSet.Erase | include/fwk/hash_set.h:130-137 | erase returns true exactly when the key was present, and removes it |
| HashSetModel.HashSet.EraseNode | include/fwk/hash_set.h:311-316 | eraseNode removes the slot's key, lowers size by one and keeps the used count |
| HashSetModel.HashSet.Clear | include/fwk/hash_set.h:159-166 | clear empties the set and keeps its capacity |
| HashSetModel.HashSet.Reserve | include/fwk/hash_set.h:168-174 | reserve keeps the elements and sets the capacity to the start capacity (64 for an empty set) doubled until it reaches min_size; it never shrinks |
| HashSetModel.HashSet.Grow | include/fwk/hash_set.h:202-219 | grow keeps the elements in a table of the new capacity, with no deleted slots |
| HashSetModel.Rehash | include/fwk/hash_set.h:275-292 | rehash places every stored key into a fresh table of the new capacity |
| HashSetModel.HashSet.Keys | include/fwk/hash_set.h:187 | keys() lists each stored key once, in slot order |
| HashMapModel.HashMap.constructor | include/fwk/hash_map.h:119 | an empty map of capacity 0 |
| HashMapModel.HashMap.Index | include/fwk/hash_map.h:148-154 | operator[] keeps a present key's value and inserts the default value for an absent key |
| HashMapModel.HashMap.Emplace | include/fwk/hash_map.h:195-209 | emplace inserts the pair exactly when the key is absent and otherwise changes nothing |
| HashMapModel.HashMap.Erase | include/fwk/hash_map.h:211-218 | erase returns true exactly when the key was present and removes it |
| HashMapModel.HashMap.EraseNode | include/fwk/hash_map.h:426-431 | eraseNode removes the slot's pair; used count and capacity stay |
| HashMapModel.HashMap.Find | include/fwk/hash_map.h:377-393 | find and lookup return the key's slot, holding its value, or capacity when absent |
| HashMapModel.HashMap.MaybeFind | include/fwk/hash_map.h:240-243 | maybeFind is the key's value exactly when the key is present |
| HashMapModel.HashMap.Clear | include/fwk/hash_map.h:245-253 | clear empties the map and keeps its capacity |
| HashMapModel.HashMap.Reserve | include/fwk/hash_map.h:255-261 | reserve keeps the contents and sets the capacity to the start capacity (64 for an empty map) doubled until it reaches min_size; it never shrinks |
| HashMapModel.HashMap.Grow | include/fwk/hash_map.h:319-332 | grow keeps the contents in a table of the new capacity |
| HashMapModel.Rehash | include/fwk/hash_map.h:395-416 | rehash moves every pair into a fresh table of the new capacity |
| HashMapModel.HashMap.Keys | include/fwk/hash_map.h:280-288 | keys() lists each stored key once, in slot order |
| HashMapModel.HashMap.Values | include/fwk/hash_map.h:270-278 | values() lists the values in the same slot order as keys(), each the value of the key at the same position |
| HashMapModel.HashMapScenario | include/fwk/hash_map.h:195-243 | emplace, find, operator[] and erase on a concrete map give the answers the source promises |
| Probing.ProbeInjective | include/fwk/hash_map.h:354-375 | with a power-of-two capacity, the triangular probe sequence visits distinct slots at distinct steps below capacity |
| Probing.ProbeCoversAll | include/fwk/hash_map.h:354-375 | from any hash, the probe sequence reaches every slot within capacity steps, so the probing loops end |
| OpenAddressing.InsertKeepsInv | include/fwk/hash_map.h:195-209 | placing a new key in a free slot found by probing keeps every stored key reachable along its probe path |
| OpenAddressing.EraseKeepsInv | include/fwk/hash_map.h:426-431 | marking a key's slot deleted removes that key and keeps every other key reachable |
| OpenAddressing.Lookup | include/fwk/hash_map.h:377-393 | lookup stops at the key's slot when it is stored and at the first unused slot otherwise |
| OpenAddressing.FindForInsert | include/fwk/hash_map.h:354-375 | findForInsert returns the key's slot, or else the first deleted slot before the first unused one, or else that unused slot |
| OpenAddressing.FindUnused | include/fwk/hash_map.h:395-416 | the rehash probe returns the first unused slot on the key's probe path |
| OpenAddressing.KeysInSlotOrderAreStoredKeys | include/fwk/hash_map.h:280-288 | the keys met in slot order are the stored keys, each once |
| OpenAddressing.GrowRaisesLimit | include/fwk/hash_map.h:318 | grow() gives a power-of-two capacity of at least initial_capacity with a larger used limit |
| OpenAddressing.UsedLimit | include/fwk/hash_map.h:328 | the used limit is the power-of-two capacity times the float 2.0f / 3.0f (11184811 / 2^24), truncated, and stays below the capacity |
| OpenAddressing.ReserveCapacity | include/fwk/hash_map.h:256-258 | the loop of reserve returns the start capacity (64 when it is 0) doubled until it reaches min_size, which is a power of two, at least min_size and the start capacity, that is the start capacity itself or whose half is below min_size |
| SparseVectorModel.GrowCapacity | include/fwk/sparse_vector.h:249-252 | growCapacity is larger than the capacity and at least the initial size |
| SparseVectorModel.GrowCapacityExamples | include/fwk/sparse_vector.h:249-252 | capacities grow 0, 8, 12, 18 |
| SparseVectorModel.InsertCapacity | include/fwk/sparse_vector.h:254-257 | insertCapacity is at least min_size and larger than the capacity, and is growCapacity or min_size |
| SparseVectorModel.SparseVector.constructor | include/fwk/sparse_vector.h:40 | an empty vector with no slots |
| SparseVectorModel.SparseVector.FromVector | include/fwk/sparse_vector.h:62-72 | the vector's elements at indices 0 .. n - 1, all valid, with capacity n |
| SparseVectorModel.SparseVector.IsValid | include/fwk/sparse_vector.h:119 | valid(index) holds exactly for indices that hold an element |
| SparseVectorModel.SparseVector.NextFreeIndex | include/fwk/sparse_vector.h:181 | the free list's head, or spread when the list is empty |
| SparseVectorModel.SparseVector.Clear | include/fwk/sparse_vector.h:108-116 | no elements, no slots, capacity 0 |
| SparseVectorModel.SparseVector.Reallocate | include/fwk/sparse_vector.h:298-308 | reallocate keeps the elements, spread and free list, with capacity the larger of old and new |
| SparseVectorModel.SparseVector.Grow | include/fwk/sparse_vector.h:310 | grow keeps the elements and sets capacity to growCapacity |
| SparseVectorModel.SparseVector.Reserve | include/fwk/sparse_vector.h:118 | reserve keeps the elements and leaves capacity at least the requested size |
| SparseVectorModel.SparseVector.Alloc | include/fwk/sparse_vector.h:312-321 | alloc hands out nextFreeIndex() as the slot to construct into, changing no element |
| SparseVectorModel.SparseVector.Emplace | include/fwk/sparse_vector.h:121-127 | emplace stores the value at nextFreeIndex(), an index that held no element, and changes no other element |
| SparseVectorModel.SparseVector.Erase | include/fwk/sparse_vector.h:150-157 | erase removes exactly that index's element and lowers size by one |
| SparseVectorModel.SparseVector.EmplaceAt | include/fwk/sparse_vector.h:130-147 | emplaceAt stores the value at the given index, replacing any element there, and raises size only when the index was empty |
| SparseVectorModel.SparseVector.FirstIndex | include/fwk/sparse_vector.h:159-164 | firstIndex is the smallest valid index, or spread when there is none |
| SparseVectorModel.SparseVector.NextIndex | include/fwk/sparse_vector.h:173-178 | nextIndex is the next valid index after idx, or spread |
| SparseVectorModel.SparseVector.LastIndex | include/fwk/sparse_vector.h:165-172 | lastIndex is the largest valid index, or spread when empty |
| SparseVectorModel.Compare | include/fwk/sparse_vector.h:229-245 | compare returns the slot-by-slot comparison of the two vectors' valid flags and values |
| SparseVectorModel.CompareSlotsAntisymmetric | include/fwk/sparse_vector.h:229-245 | compare(a, b) == -compare(b, a) |
| SparseVectorModel.CompareSlotsZeroIffSameContents | include/fwk/sparse_vector.h:229-245 | compare is 0 exactly when the two vectors hold the same elements at the same indices |
| SparseVectorModel.Equals | include/fwk/sparse_vector.h:223-225 | operator== holds exactly when the two vectors hold the same elements at the same indices |
| IndexedVectorModel.IndexedVector.FromVector | include/fwk/indexed_vector.h:53-63 | the vector's elements at indices 0 .. n - 1, all valid |
| IndexedVectorModel.IndexedVector.IsValid | include/fwk/indexed_vector.h:109 | valid(index) holds exactly for indices that hold an element |
| IndexedVectorModel.IndexedVector.NextFreeIndex | include/fwk/indexed_vector.h:163 | the free list's head, or endIndex when the list is empty |
| IndexedVectorModel.IndexedVector.Clear | include/fwk/indexed_vector.h:98-106 | no elements, no slots, capacity 0 |
| IndexedVectorModel.IndexedVector.Reallocate | include/fwk/indexed_vector.h:276-286 | reallocate keeps the elements, end index and free list |
| IndexedVectorModel.IndexedVector.Grow | include/fwk/indexed_vector.h:288 | grow keeps the elements and sets capacity to growCapacity |
| IndexedVectorModel.IndexedVector.Reserve | include/fwk/indexed_vector.h:108 | reserve keeps the elements and leaves capacity at least the requested size |
| IndexedVectorModel.IndexedVector.Alloc | include/fwk/indexed_vector.h:290-299 | alloc hands out nextFreeIndex(), changing no element |
| IndexedVectorModel.IndexedVector.Emplace | include/fwk/indexed_vector.h:111-117 | emplace stores the value at nextFreeIndex(), an index that held no element |
| IndexedVectorModel.IndexedVector.Erase | include/fwk/indexed_vector.h:139-146 | erase removes exactly that index's element and lowers the valid count by one |
| IndexedVectorModel.IndexedVector.EmplaceAt | include/fwk/indexed_vector.h:120-136 | emplaceAt stores the value at the index, replacing any element there |
| IndexedVectorModel.IndexedVector.FirstIndex | include/fwk/indexed_vector.h:148-153 | firstIndex is the smallest valid index, or endIndex |
| IndexedVectorModel.IndexedVector.NextIndex | include/fwk/indexed_vector.h:155-160 | nextIndex is the next valid index after idx, or endIndex |
| IndexedVectorModel.Compare | include/fwk/indexed_vector.h:212-228 | compare returns the slot-by-slot comparison of valid flags and values |
| IndexedVectorModel.Equals | include/fwk/indexed_vector.h:206-208 | operator== holds exactly when the two vectors hold the same elements at the same indices |
| SlabAllocatorModel.FindNBits | src/slab_allocator.cpp:30-38 | findNBits returns the first position that starts a run of at least n set bits, or -1 when there is none |
| SlabAllocatorModel.FindOne | src/slab_allocator.cpp:53-56 | for one slab, allocSlabs picks the first free slab of the zone, which is its first fit |
| SlabAllocatorModel.FindShort | src/slab_allocator.cpp:57-73 | for 2 to 64 slabs, the word-by-word search (inside one word, else across the boundary with the next) returns the first offset from which n slabs are free, and -1 exactly when the zone has no such run |
| SlabAllocatorModel.FindLong | src/slab_allocator.cpp:74-94 | for more than 64 slabs, the search from each word's top free slabs returns the first offset from which n slabs are free, and -1 exactly when the zone has no such run |
| SlabAllocatorModel.FindPlace | src/slab_allocator.cpp:45-101 | the zone loop of allocSlabs returns the first zone holding n free slabs in a row, at its first fit; -1 only when no zone holds such a run |
| SlabAllocatorModel.FitNeedsFree | src/slab_allocator.cpp:48-49 | a zone holding n free slabs in a row has a free count of at least n, so skipping zones by their count loses no run |
| SlabAllocatorModel.FirstFreeFits | src/slab_allocator.cpp:53-56 | the first free slab is the first fit of a single slab |
| SlabAllocatorModel.ShortWordEmpty | src/slab_allocator.cpp:59-73 | when neither findNBits inside word g nor the boundary test with word g + 1 succeeds, no run of n free slabs starts in word g |
| SlabAllocatorModel.InWordFirst | src/slab_allocator.cpp:62-73 | the run findNBits finds inside word g is the first one starting in that word |
| SlabAllocatorModel.BelowTop | src/slab_allocator.cpp:63-67 | with no run inside word g, no run starts in the word below its leading free slabs, so the boundary offset 64 - cur_space is the first one |
| SlabAllocatorModel.SpanAfter | src/slab_allocator.cpp:80-86 | the inner loop counts free slabs from the word's top free slabs on, and reaches n whenever n slabs from there are free |
| SlabAllocatorModel.LongWord | src/slab_allocator.cpp:76-90 | for more than 64 slabs a run starting in word g starts no lower than its leading free slabs, and one starting there exists whenever any run starts in the word |
| SlabAllocatorModel.FullWord | src/slab_allocator.cpp:60-61 | a word with every slab taken, which the search skips, starts no free run |
| SlabAllocatorModel.BeforeFirstGroup | src/slab_allocator.cpp:58 | the words before the first group not flagged full start no free run, so the search may begin there |
| SlabAllocatorModel.NotFullGroupExists | src/slab_allocator.cpp:51-54 | a zone with a free slab has a group not flagged full, so findFirstBit(not_full_groups) is defined |
| SlabAllocatorModel.SlabAllocator.constructor | src/slab_allocator.cpp:14-23 | no zones; slabs per zone is zone_size / slab_size and groups per zone a 64th of that |
| SlabAllocatorModel.SlabAllocator.AddZone | src/slab_allocator.cpp:111-119 | addZone appends a zone with every slab free, every group empty and none full |
| SlabAllocatorModel.SlabAllocator.FillSlabs | src/slab_allocator.cpp:121-154 | fillSlabs marks exactly slabs offset to offset + n - 1 taken and recomputes the free count and the empty and full flags |
| SlabAllocatorModel.SlabAllocator.ClearSlabs | src/slab_allocator.cpp:156-190 | clearSlabs marks exactly those slabs free and recomputes the count and flags |
| SlabAllocatorModel.FillKeepsZoneValid | src/slab_allocator.cpp:121-154 | filling free slabs keeps the invariant verifySlabs checks |
| SlabAllocatorModel.ClearKeepsZoneValid | src/slab_allocator.cpp:156-190 | clearing taken slabs keeps that invariant |
| SlabAllocatorModel.ClearUndoesFill | src/slab_allocator.cpp:121-190 | clearSlabs after fillSlabs of the same free range restores the zone |
| SlabAllocatorModel.SlabAllocator.AllocSlabs | src/slab_allocator.cpp:40-109 | allocSlabs takes n slabs at the first fit of the first zone that holds n free slabs in a row; every zone before it holds none; only when no zone does is a zone added and its first n slabs taken; the slabs become taken, every other slab and zone is unchanged and the invariant is kept |
| SlabAllocatorModel.VerifyZone | src/slab_allocator.cpp:218-248 | the per-zone loop reports nothing exactly when the zone's count and flags agree with its bits |
| SlabAllocatorModel.SlabAllocator.VerifySlabs | src/slab_allocator.cpp:218-248 | verifySlabs succeeds exactly when every zone's count and flags agree with its bits |
| Strings.CompareAsWritten | src/str.cpp:87-90 | Str::compare as written: strncmp over the common length, then the sizes; CompareAsWrittenStopsAtNul and CompareAsWrittenNulFree state where it differs from Compare and where it agrees |
| Strings.Compare | src/str.cpp:87-90 | the corrected comparison: every byte of the common length (memcmp), then the sizes; CompareOrder proves it a total order whose zero means equal views |
| Strings.CompareAsWrittenStopsAtNul | src/str.cpp:87-90 | as written, "a\0b" and "a\0c" are different views that compare equal, because strncmp stops at the NUL |
| Strings.CompareAsWrittenNulFree | src/str.cpp:87-90 | on NUL-free text the comparison as written and the corrected one agree |
| Strings.CompareOrder | src/str.cpp:87-90 | the corrected compare is antisymmetric, zero exactly for equal strings, and negative exactly for the lexicographic order with shorter prefixes first |
| Strings.EqualIsEquality | src/str.cpp:87-90 | operator== over the corrected compare is string equality |
| Strings.Strncasecmp | src/str.cpp:92-100 | strncasecmp returns -1, 0 or 1 |
| Strings.CompareIgnoreCase | src/str.cpp:92-100 | compareIgnoreCase compares the bytes lowered with tolower, then the sizes; CompareIgnoreCaseLowered equates it with the as-written comparison of the lowered views |
| Strings.CompareIgnoreCaseLowered | src/str.cpp:92-100 | compareIgnoreCase is the comparison of the lower-cased strings |
| Strings.StartsWith | src/str.cpp:102-104 | startsWith: the view is long enough and its prefix is the pattern; StartsWithIff states it as a concatenation |
| Strings.StartsWithIff | src/str.cpp:102-104 | startsWith holds exactly when the string is the prefix followed by something |
| Strings.EndsWith | src/str.cpp:106-109 | endsWith: the view is long enough and its suffix is the pattern; EndsWithIff states it as a concatenation |
| Strings.EndsWithIff | src/str.cpp:106-109 | endsWith holds exactly when the string is something followed by the suffix |
| Strings.RemovePrefix | src/str.cpp:436-442 | removePrefix strips the prefix exactly when the string starts with it, and reports whether it did |
| Strings.RemoveSuffix | src/str.cpp:428-434 | removeSuffix strips the suffix exactly when the string ends with it, and reports whether it did |
| Strings.Find | src/str.cpp:111-116 | find(c) is the first position of c, or -1 exactly when c does not occur |
| Strings.RFind | src/str.cpp:118-123 | rfind(c) is the last position of c, or -1 exactly when c does not occur |
| Strings.FindStr | src/str.cpp:13-25 | find(Str) is the first offset where the needle occurs, or -1 exactly when it occurs nowhere |
| Strings.HashStateConcat | src/str.cpp:128-133 | the hash loop over a + b continues from its state after a |
| Strings.Hash | src/str.cpp:128-133 | hash() folds the high half of the loop's 32-bit state into the low half |
| Strings.LimitSizeBack | src/str.cpp:66-75 | limitSizeBack returns the string when it fits, else its first max_size bytes with the suffix written over their end |
| Strings.LimitSizeFront | src/str.cpp:77-85 | limitSizeFront returns the string when it fits, else its last max_size bytes with the prefix written over their start |
| Strings.LimitSizeExamples | src/str.cpp:66-85 | "random text" limited to 8 gives "... text" at the front and "rando..." at the back |
| Strings.Tokenizer.constructor | src/str.cpp:158-166 | a tokenizer at the start of the text |
| Strings.Tokenizer.Next | src/str.cpp:158-166 | next() returns the text up to the next delimiter and moves past it |
| Strings.Tokenize | src/str.cpp:139-146 | tokenize returns the tokens of the text between delimiters, without a final empty token |
| Strings.TokensJoin | src/str.cpp:139-146 | joining the tokens with the delimiter gives back the text, up to one trailing delimiter |
| Strings.TokensNoDelim | src/str.cpp:139-146 | no token contains the delimiter |
| Strings.SplitLines | src/str.cpp:148-154 | splitLines tokenizes on LF and drops one trailing CR from each line |
| Strings.SplitLinesExample | src/str.cpp:148-154 | "foo\r\nbar\nmeh\n\n" splits into "foo", "bar", "meh", "" |
| Strings.ToLower | src/str.cpp:395-399 | toLower maps every byte through tolower |
| Strings.ToUpper | src/str.cpp:401-405 | toUpper maps every byte through toupper |
| Strings.CaseMapping | src/str.cpp:395-405 | lower-casing leaves no upper-case letter and is idempotent over upper-casing |
| Strings.EscapeString | src/str.cpp:407-426 | escapeString renders each byte as a backslash pair, itself, or a three-digit octal escape |
| Strings.UnescapeEscaped | src/str.cpp:407-426 | the escaped text reads back as the original, so escaping loses nothing |
| Utf.EncodeCodePoint | src/str.cpp:207-239 | one code point takes 1 to 4 bytes by range, one byte exactly for ASCII |
| Utf.Encode | src/str.cpp:379-393 | the encoding fails exactly when some code point is a surrogate or above 0x10FFFF |
| Utf.Utf8Length | src/str.cpp:187-205 | ucs4_to_utf8_length is the encoding's size, or 0 when a code point is rejected |
| Utf.Ucs4ToUtf8 | src/str.cpp:207-239 | the bytes written encode the code points consumed; failure means a rejected code point, partial means the next one does not fit |
| Utf.ToUtf8 | src/str.cpp:379-393 | toUTF8 returns the encoding, or none when a code point is rejected |
| Utf.Decode | src/str.cpp:273-353 | toUTF32: the code points of well-formed UTF-8, or none; DecodeStep, DecodeEncode and EncodeDecode state that it inverts Encode |
| Utf.DecodeStep | src/str.cpp:273-353 | one decoding step is truncated exactly when the lead byte announces more bytes than remain |
| Utf.Utf32Length | src/str.cpp:241-265 | utf8_to_ucs4_length counts the lead bytes, or is 0 when a lead is rejected or the last sequence is cut short |
| Utf.Utf8ToUcs4 | src/str.cpp:273-353 | the code points written, followed by the decoding of the rest, are the decoding of the whole input |
| Utf.ToUtf32 | src/str.cpp:363-377 | toUTF32 returns the decoding, or none for invalid input |
| Utf.DecodeEncode | src/str.cpp:363-393 | decoding the encoding of accepted code points gives them back |
| Utf.EncodeStepDecoded | src/str.cpp:273-353 | a decoded sequence is the encoding of its code point, so no surrogate, out-of-range value or overlong form is accepted |
| Utf.EncodeDecode | src/str.cpp:363-393 | toUTF8(toUTF32(s)) == s for valid UTF-8 |
| Utf.CodePointLengthAsWritten | src/str.cpp:267-271 | utf8CodePointLength as written, whose lead test lets 0x80 through; CodePointLengthOfContinuation exhibits it |
| Utf.CodePointLengthOfContinuation | src/str.cpp:267-271 | as written, the continuation byte 0x80 is reported as the lead of a two-byte sequence |
| Utf.CodePointLength | src/str.cpp:267-271 | corrected, every lead byte gives its sequence length and every continuation byte none |
| Utf.CodePointLengthFix | src/str.cpp:267-271 | the two versions differ on the byte 0x80 alone |
| Int128Model.Wrap128 | src/math/int128.cpp:35-66 | the arithmetic wraps into the int128 range, to the value congruent modulo 2^128 |
| Int128Model.TruncDivMod | src/math/int128.cpp:231-325 | the C++ truncating division: a == q b + r, the magnitude of r below that of b, and r takes the dividend's sign |
| Int128Model.Int128.constructor | include/fwk/math/int128.h:40 | the default value is zero |
| Int128Model.Int128.FromI64 | include/fwk/math/int128.h:41-50 | an int64_t keeps its value, its sign extended into the high half |
| Int128Model.Int128.Halves | include/fwk/math/int128.h:51-54 | the two halves stored, read as high * 2^64 + low |
| Int128Model.Int128.Negate | include/fwk/math/int128.h:75-82 | negate() yields the negated value, wrapped |
| Int128Model.NegateWords | include/fwk/math/int128.h:75-82 | complementing both halves, adding one and carrying gives minus the value, wrapped |
| Int128Model.Int128.MulAssign | src/math/int128.cpp:35-66 | *= leaves the product of both operands modulo 2^128 |
| Int128Model.MulAssignValue | src/math/int128.cpp:35-66 | the halves the limb products produce hold the wrapped product |
| Int128Model.Int128.Mul | src/math/int128.cpp:68-72 | operator* returns a new value holding the wrapped product |
| Int128Model.MagnitudeLimbsAsWritten | src/math/int128.cpp:83-121 | as written, the limbs of the magnitude, which keep a leading zero limb at the magnitude UINT32_MAX |
| Int128Model.MagnitudeLimbs | src/math/int128.cpp:83-121 | the magnitude's limbs, most significant first, at most four, with no leading zero |
| Int128Model.FillInArrayLeadingZero | src/math/int128.cpp:108 | for the magnitude 0xFFFF_FFFF the as-written bound gives [0, 0xFFFF_FFFF], the intended one [0xFFFF_FFFF] |
| Int128Model.FillInArrayDiffers | src/math/int128.cpp:108 | the two bounds disagree only at the magnitude UINT32_MAX |
| Int128Model.Int128.FillInArray | src/math/int128.cpp:83-121 | fillInArray writes the magnitude's limbs without a leading zero and returns their count and the sign |
| Int128Limbs.Fls | src/math/int128.cpp:127-134 | fls is the position of the highest set bit: x < 2^bitpos and, for nonzero x, 2^(bitpos-1) <= x |
| Int128Limbs.ShiftArrayLeft | src/math/int128.cpp:142-149 | the limbs are replaced by their left shift, filled from the next limb; the rest of the array is unchanged |
| Int128Limbs.ShiftArrayRight | src/math/int128.cpp:157-164 | the limbs are replaced by their right shift, filled from the previous limb; the rest of the array is unchanged |
| Int128Limbs.ShiftLeftValue | src/math/int128.cpp:142-149 | the left shift multiplies the value by 2^bits, less the bits pushed out of the leading limb |
| Int128Limbs.ShiftRightDiv | src/math/int128.cpp:157-164 | the right shift divides the value by 2^bits |
| Int128Model.FixDivisionSigns | src/math/int128.cpp:170-178 | the quotient is negated when the signs differed, the remainder when the dividend was negative |
| Int128Model.BuildFromArray | src/math/int128.cpp:183-209 | buildFromArray gives the int128 whose limbs are the array's, wrapped |
| Int128Model.SingleDivide | src/math/int128.cpp:214-229 | division by a one-limb divisor gives the truncated quotient and the remainder with the dividend's sign |
| Int128Model.Normalize | src/math/int128.cpp:256-261 | both operands are shifted left by the same number of bits, no bit of either is lost, and the divisor's leading limb gets its top bit set |
| Int128Model.DivideDigit | src/math/int128.cpp:264-313 | as intended, one digit of the long division: the window holds digit * divisor plus what is left, and what is left is below the divisor at that position, so the digit is the exact quotient digit |
| Int128Model.DivideDigits | src/math/int128.cpp:264-314 | the digit loop leaves the quotient's limbs and, in the dividend, the remainder of the normalized operands |
| Int128Model.LongDivide | src/math/int128.cpp:253-325 | the general case yields the truncated quotient and the signed remainder |
| Int128Model.Int128.Divide | src/math/int128.cpp:231-325 | divide returns the truncated quotient, wrapped, and stores the remainder with the dividend's sign |
| Int128Model.Int128.DivOperatorAsWritten | src/math/int128.cpp:327-331 | as written, operator/ returns its right operand |
| Int128Model.Int128.DivOperator | src/math/int128.cpp:327-331 | as intended, operator/ returns the truncated quotient |
| Int128Model.DivOperatorDiffers | src/math/int128.cpp:327-331 | for 7 / 2 the as-written operator returns 2, not the quotient 3 |
| Int128Model.Int128.ModOperator | src/math/int128.cpp:333-336 | operator% returns the remainder divide computes |
| Int128Model.MaximumValueAsWritten | src/math/int128.cpp:32 | as written, maximumValue is 0xF000_0000_0000_0000 below the largest int128, so one more is still an int128 |
| Int128Model.MaximumValue | src/math/int128.cpp:32 | as intended, no int128 is larger than maximumValue |
| Int128Model.MinimumValue | src/math/int128.cpp:33 | no int128 is smaller than minimumValue |
| Int128Digit.RefinedBelow | src/math/int128.cpp:275-284 | the refinement loop only ever lowers the guess |
| Int128Digit.GuessDigit | src/math/int128.cpp:264-284 | the first guess from the two leading limbs, UINT32_MAX when they agree, then lowered while the next limbs show it too large, with `rhat` kept in 32 bits and the loop left once it wraps, is GuessAsWritten |
| Int128Digit.DigitAsWritten | src/math/int128.cpp:264-311 | the digit step as written leaves a window value within the window's width |
| Int128Digit.Subtracted | src/math/int128.cpp:286-298 | the window less guess * divisor, modulo the window's width, lies within that width |
| Int128Digit.DigitAsWrittenExact | src/math/int128.cpp:264-311 | when the refined guess is the window's true digit and the window is below divisor * 2^32, the step as written gives that digit and the window's remainder |
| Int128Digit.WriteLimb | src/math/int128.cpp:291 | one limb is written and every other limb kept |
| Int128Digit.SubtractLimb | src/math/int128.cpp:288-296 | one subtraction pass: limb less guess times the divisor limb less the carry in equals the new limb less the carry out times 2^32, the carry out at most 2^32 |
| Int128Digit.SubtractStep | src/math/int128.cpp:288-296 | one subtraction pass extends the loop's invariant by one limb |
| Int128Digit.SubtractPass | src/math/int128.cpp:288-296 | one subtraction pass on the array keeps the loop's invariant and the limbs outside the window |
| Int128Digit.SubtractMultiple | src/math/int128.cpp:287-296 | the subtraction loop leaves the low limbs less guess * divisor, with `mult` the amount carried to the leading limb; the leading limb and the rest of the array are unchanged |
| Int128Digit.SubtractWindow | src/math/int128.cpp:287-298 | the subtraction leaves the window less guess * divisor modulo its width, `mult` is the floored borrow out of the low limbs, and the leading limb grows exactly when its low 32 bits exceed the old leading limb |
| Int128Digit.SubtractOutcome | src/math/int128.cpp:287-298 | what the subtraction loop and the leading limb leave is Subtracted, and the borrow test is the test DigitAsWritten makes |
| Int128Digit.AddLimb | src/math/int128.cpp:304-309 | one add-back pass: divisor limb, limb and carry give the new limb and a carry of at most one |
| Int128Digit.AddStep | src/math/int128.cpp:304-309 | one add-back pass extends the loop's invariant by one limb |
| Int128Digit.AddPass | src/math/int128.cpp:304-309 | one add-back pass on the array keeps the loop's invariant and the limbs outside the window |
| Int128Digit.AddBack | src/math/int128.cpp:303-309 | the add-back loop adds the divisor to the low limbs, `carry` holding what goes to the leading limb |
| Int128Digit.Restore | src/math/int128.cpp:303-310 | the add-back leaves the window plus the divisor, modulo the window's width |
| Int128Digit.AddBackOutcome | src/math/int128.cpp:303-310 | the limbs the add-back leaves hold the subtracted window plus the divisor, modulo the width |
| Int128Digit.DigitKept | src/math/int128.cpp:301 | without a borrow DigitAsWritten keeps the guess and the subtracted window |
| Int128Digit.DigitRestored | src/math/int128.cpp:301-311 | with a borrow DigitAsWritten lowers the guess by one and adds the divisor back |
| Int128Digit.DivideDigitAsWritten | src/math/int128.cpp:264-313 | one digit of divide as written on the arrays: the returned guess and the window left are DigitAsWritten of the old window, and the limbs outside the window are unchanged |
| Int128Digit.DigitLoopAsWritten | src/math/int128.cpp:264-314 | the digit loop as written gives one digit per window and leaves a dividend of the same length |
| Int128Digit.LimbsOfValue | src/math/int128.cpp:264-314 | the limbs of a window's value are the window's limbs |
| Int128Digit.DigitLoopStep | src/math/int128.cpp:264-314 | one pass of the digit loop on the arrays is one step of DigitLoopAsWritten |
| Int128Digit.DigitLoopEnd | src/math/int128.cpp:264 | past the last window the loop stops with no digits |
| Int128Digit.DivideDigitsAsWritten | src/math/int128.cpp:264-314 | the digit loop on the arrays leaves the digits and the dividend limbs DigitLoopAsWritten gives |
| Int128Digit.ExampleLimbs | src/math/int128.cpp:83-121 | 0x80000000_80000000_00000005 and 0x80000000_FFFFFFFF have the limbs [0x80000000, 0x80000000, 5] and [0x80000000, 0xFFFFFFFF] |
| Int128Digit.ExampleGuess | src/math/int128.cpp:264-284 | at the window [0x80000000, 0x80000000, 5] the guess as written is 0xFFFFFFFD |
| Int128Digit.DigitZero | src/math/int128.cpp:264-311 | the window [0, 0x80000000, 0x80000000] gives the digit 0 and is kept |
| Int128Digit.NothingSubtracted | src/math/int128.cpp:286-298 | with the guess 0 nothing is borrowed and the window is kept |
| Int128Digit.DigitTooSmall | src/math/int128.cpp:264-311 | the window [0x80000000, 0x80000000, 5] gives the digit 0xFFFFFFFD and leaves 0x1_00000004_00000002 |
| Int128Digit.TooSmallParts | src/math/int128.cpp:286-298 | at that window the subtraction borrows 0x7FFFFFFF, below the leading limb, so nothing is added back |
| Int128Digit.ExampleFirst | src/math/int128.cpp:264-314 | the first window of the example is one loop step with the digit 0 |
| Int128Digit.ExampleSecond | src/math/int128.cpp:264-314 | the second window gives 0xFFFFFFFD and the loop ends |
| Int128Digit.ExampleLoop | src/math/int128.cpp:264-314 | the digit loop as written on the example gives the digits [0, 0xFFFFFFFD] and leaves [0, 1, 4, 2] |
| Int128Digit.ExampleValues | src/math/int128.cpp:264-314 | the example's true quotient is 0xFFFFFFFF and what the loop leaves exceeds the divisor |
| Int128Digit.ExampleQuotient | src/math/int128.cpp:264-314 | 0x80000000_80000000_00000005 / 0x80000000_FFFFFFFF is 0xFFFFFFFF, and 0x1_00000004_00000002 exceeds the divisor |
| Int128Digit.DivisionExample | src/math/int128.cpp:275-284 | on 0x80000000_80000000_00000005 / 0x80000000_FFFFFFFF the digit loop as written gives the digit 0xFFFFFFFD, where the true digit is 0xFFFFFFFF, and leaves a remainder larger than the divisor |
| Int128Digit.SmallRadix | src/math/int128.cpp:264-314 | the radices of one to three limbs are 2^32, 2^64 and 2^96 |
| UInt128Model.UInt128.constructor | include/fwk/math/uint128.h:32 | the value of the two halves given |
| UInt128Model.UInt128.FromSigned | include/fwk/math/uint128.h:34-36 | a signed integer becomes its value modulo 2^128, the high half its sign extension |
| UInt128Model.UInt128.FromUnsigned | include/fwk/math/uint128.h:38-40 | an unsigned integer keeps its value |
| UInt128Model.UInt128.IsNonZero | include/fwk/math/uint128.h:48 | operator bool holds exactly for a nonzero value |
| UInt128Model.UInt128.Low64 | include/fwk/math/uint128.h:82 | Uint128Low64 is the value modulo 2^64 |
| UInt128Model.UInt128.High64 | include/fwk/math/uint128.h:83 | Uint128High64 is the value divided by 2^64 |
| UInt128Model.UInt128.Equal | include/fwk/math/uint128.h:85 | operator== on the halves is equality of values |
| UInt128Model.UInt128.Less | include/fwk/math/uint128.h:88-90 | operator< on the halves, high first, is the order of values |
| UInt128Model.UInt128.LessEq | include/fwk/math/uint128.h:94-96 | operator<= on the halves is the order of values |
| UInt128Model.JoinOrder | include/fwk/math/uint128.h:88-99 | comparing the high halves, then the low halves, orders the values |
| UInt128Model.UInt128.AddAssign | include/fwk/math/uint128.h:205-212 | += leaves the sum modulo 2^128, the low halves' carry moved into the high half |
| UInt128Model.UInt128.SubAssign | include/fwk/math/uint128.h:214-220 | -= leaves the difference modulo 2^128, with a borrow from the high half |
| UInt128Model.UInt128.ShiftLeftAssign | include/fwk/math/uint128.h:169-185 | <<= by an amount below 128 multiplies by 2^amount modulo 2^128, in both the below-64 and the 64-and-above case |
| UInt128Model.UInt128.ShiftRightAssign | include/fwk/math/uint128.h:187-203 | >>= by an amount below 128 divides by 2^amount, in both cases |
| UInt128Model.UInt128.MulAssign | include/fwk/math/uint128.h:222-245 | *= leaves the product modulo 2^128, from the 32-bit limbs of both operands |
| UInt128Model.UInt128.Increment | include/fwk/math/uint128.h:259-262 | prefix ++ adds one modulo 2^128 |
| UInt128Model.UInt128.Decrement | include/fwk/math/uint128.h:264-267 | prefix -- subtracts one modulo 2^128 |
| UInt128Model.Negate | include/fwk/math/uint128.h:119-127 | unary minus is two's complement: x + (-x) is 0 modulo 2^128 |
| UInt128Model.Complement | include/fwk/math/uint128.h:133-135 | operator~ gives 2^128 - 1 - x |
| BoxModel.ValidBoxRange | include/fwk/math/box.h:13-18 | validBoxRange holds exactly when min <= max in every dimension |
| BoxModel.IsEmptyRange | include/fwk/math/box.h:49-54 | emptyRange holds exactly when min >= max in some dimension |
| BoxModel.ContainsPoint | include/fwk/math/box.h:140-145 | contains(point) holds exactly when the point lies within min and max, both ends included |
| BoxModel.CornersInside | include/fwk/math/box.h:140-145 | a valid box holds its corners; an invalid box holds no point |
| BoxModel.Intersection | include/fwk/math/box.h:185-189 | the intersection is absent exactly when its corners are not a valid range, and valid when present |
| BoxModel.IntersectionPoints | include/fwk/math/box.h:185-189 | the intersection holds exactly the points common to both boxes; an absent one means no common point |
| BoxModel.IntersectionOrEmpty | include/fwk/math/box.h:175-182 | intersectionOrEmpty is a box of the same dimension: the intersection when it is not empty, else the default box; IntersectionOrEmptyOverlap ties it to overlaps |
| BoxModel.IntersectionOrEmptyOverlap | include/fwk/math/box.h:175-182 | intersectionOrEmpty is the intersection when the boxes overlap, else the default box |
| BoxModel.Overlaps | include/fwk/math/box.h:284-287 | overlaps: the intersection is a box and is not empty; OverlapsCoordinates states it per coordinate |
| BoxModel.OverlapsCoordinates | include/fwk/math/box.h:284-287 | overlaps holds exactly when the boxes share an open interval in every dimension |
| BoxModel.Touches | include/fwk/math/box.h:293-296 | touches: the intersection is a box and is empty; TouchesCoordinates states it per coordinate |
| BoxModel.TouchesCoordinates | include/fwk/math/box.h:293-296 | touches holds exactly when the boxes share a value in every dimension and only one value in some |
| BoxModel.OverlapsOrTouches | include/fwk/math/box.h:284-296 | no two boxes both overlap and touch, and the intersection exists exactly when one of the two holds |
| BoxModel.ContainsBox | include/fwk/math/box.h:147 | contains(box): the box equals its intersection with this one; ContainsBoxCoordinates and ContainsBoxPoints state it by coordinates and by points |
| BoxModel.ContainsBoxCoordinates | include/fwk/math/box.h:147 | contains(box) holds for a valid box exactly when its corners lie within the other's |
| BoxModel.ContainsBoxPoints | include/fwk/math/box.h:147 | every point of a contained box is a point of the containing one |
| BoxModel.Inset | include/fwk/math/box.h:206-209 | inset re-sorts the moved corners, so its result is valid whatever the amounts |
| BoxModel.InsetOrdered | include/fwk/math/box.h:206-209 | when the moved corners stay ordered, inset is exactly the moved box |
| BoxModel.InsetWithin | include/fwk/math/box.h:206-209 | insetting by non-negative amounts that keep the corners ordered stays inside the box |
| BoxModel.InsetPastMiddle | include/fwk/math/box.h:206-209 | [0, 10] inset by 8 on both sides is [2, 8] |
| BoxModel.Enlarge | include/fwk/math/box.h:213 | enlarge is the inset by the negated amounts and stays a valid box of the same dimension; EnlargeContains states that it holds the original box |
| BoxModel.EnlargeContains | include/fwk/math/box.h:213 | enlarge by non-negative amounts moves the corners outwards and contains the box |
| BoxModel.Enclose | include/fwk/math/box.h:262-264 | enclose(lhs, rhs) is a box of the same dimension from the minima and maxima; EncloseSmallest states that it is the smallest box holding both |
| BoxModel.EncloseSmallest | include/fwk/math/box.h:262-264 | enclose(a, b) contains both valid boxes, and every box that contains both contains it |
| BoxModel.EnclosePoint | include/fwk/math/box.h:270-272 | enclose(box, point) is a box of the same dimension grown to the point; EnclosePointContains states that it holds the box and the point |
| BoxModel.EnclosePointContains | include/fwk/math/box.h:270-272 | enclose(box, point) holds the point and, for a valid box, the box |
| BoxModel.EncloseNotEmpty | include/fwk/math/box.h:266-268 | encloseNotEmpty gives the other box when one is empty, else their enclosure |
| BoxModel.EnclosePoints | include/fwk/math/box.h:241-253 | enclose(points) is the default box for no points, else the smallest box holding every point: each corner coordinate is some point's |
| BoxModel.EncloseFoldContains | include/fwk/math/box.h:310-324 | encloseRange of valid boxes is valid and contains each of them |
| VulkanBase.UnitSize | include/fwk/vulkan_base.h:240-245 | a color format's unit size is 4 exactly for the block formats, else 1 |
| VulkanBase.DepthBits | include/fwk/vulkan_base.h:264-266 | depthBits is 0, 16, 24 or 32 |
| VulkanBase.StencilBits | include/fwk/vulkan_base.h:267 | stencilBits is 0 or 8 |
| VulkanBase.DepthNumericFormat | include/fwk/vulkan_base.h:268-270 | the depth numeric format is sfloat or unorm |
| VulkanBase.DepthStencilBitsMatchNames | include/fwk/vulkan_base.h:256-270 | the bit tricks of depthBits, stencilBits and hasDepth give the bits each format name announces, and only the 32-bit formats are sfloat |
| VulkanBase.DefaultLayout | include/fwk/vulkan_base.h:258-262 | defaultLayout is the stencil layout exactly without depth, the depth-stencil layout exactly with both, the depth layout exactly with depth alone |
| VulkanBase.MakeMemoryBlockId | include/fwk/vulkan_base.h:298-300 | the packed id reads back its type, domain, zone id and block identifier, is valid unless invalid, and needs freeing exactly for slab and unmanaged blocks |
| VulkanBase.DefaultMemoryBlockId | include/fwk/vulkan_base.h:301 | the default id is not valid and needs no freeing |
| VulkanBase.AttachmentSyncDeterminedByFields | include/fwk/vulkan_base.h:382-387 | the six accessors of VAttachmentSync cover the whole word: equal fields mean equal syncs |
| VulkanBase.AttachmentDeterminedByFields | include/fwk/vulkan_base.h:403-414 | format bits, type, sample count and sync determine a VAttachment |
| VulkanFormats.CDiv | src/vulkan_base.cpp:24-40 | C++ integer division truncates toward zero |
| VulkanFormats.PrimitiveCount | src/vulkan_base.cpp:24-40 | primitiveCount per topology: the vertex count for points, a truncating division by 2 or 3 for line and triangle lists, one or two less (never below zero) for strips and fans; PrimitiveCountIsLargestFit states what the count means |
| VulkanFormats.PrimitiveCountIsLargestFit | src/vulkan_base.cpp:24-40 | primitiveCount is the largest number of primitives of the topology whose vertices fit in the count |
| VulkanFormats.FormatInfosAsWritten | src/vulkan_base.cpp:67-196 | the format table as written, one entry per format in format order |
| VulkanFormats.FormatInfos | src/vulkan_base.cpp:67-196 | the format table with the BC6H entries on their own base format |
| VulkanFormats.BlockFormatsHaveBlockBases | src/vulkan_base.cpp:201-202 | a color format is a block format exactly when its base format is, and both report the same unit size |
| VulkanFormats.BaseFormatOf | src/vulkan_base.cpp:201 | baseFormat reads the base of the format's table entry; UnitSizeOfBaseFromTable and MakeFormatRoundTrip state what the table gives |
| VulkanFormats.UnitByteSize | src/vulkan_base.cpp:216-217 | unitByteSize of a format is base_unit_size at its base format; Bc6hByteSizeAsWritten gives the BC6H case of the table as written |
| VulkanFormats.UnitSizeOfBaseFromTable | include/fwk/vulkan_base.h:154-159 | every base format has formats in the table; its unit size is 4 exactly when the table's formats on that base are BCn block formats, 1 exactly when none is, and each of those formats has its base's unit size |
| VulkanFormats.ImageBlockSize | src/vulkan_base.cpp:219-222 | imageBlockSize keeps the pixel size for pixel formats and rounds up to whole 4x4 blocks for block formats; ImageBlockSizeCovers states the fewest blocks covering the extent |
| VulkanFormats.ImageBlockSizeCovers | src/vulkan_base.cpp:219-222 | block formats cover the pixel extent with the fewest 4x4 blocks; other formats keep the pixel size |
| VulkanFormats.ImageByteSize | src/vulkan_base.cpp:224-227 | imageByteSize is blocks along x times blocks along y times the bytes of a unit; ImageByteSizeExamples and CompatibilityIsEquivalence state its values and that compatible formats agree on it |
| VulkanFormats.ImageByteSizeExamples | src/vulkan_base.cpp:224-227 | imageByteSize is blocks along x times blocks along y times the unit's bytes: rgba8 3x5 is 60, bc1 5x4 is 16, bc7 4x4 is 16 |
| VulkanFormats.AreCompatible | src/vulkan_base.cpp:229-231 | areCompatible: equal unit sizes and equal bytes per unit; CompatibilityIsEquivalence proves it an equivalence that never mixes block and pixel formats |
| VulkanFormats.CompatibilityIsEquivalence | src/vulkan_base.cpp:229-231 | areCompatible is an equivalence that never mixes block and non-block formats, and compatible formats take the same bytes |
| VulkanFormats.MakeFormatIn | src/vulkan_base.cpp:204-214 | the lower_bound over the table followed by the scan returns only an index whose entry has the base and numeric format asked for |
| VulkanFormats.MakeFormat | src/vulkan_base.cpp:204-214 | a format makeFormat returns has the requested base and numeric format |
| VulkanFormats.MakeFormatRoundTrip | src/vulkan_base.cpp:204-214 | makeFormat(baseFormat(f), numericFormat(f)) gives back f for every color format |
| VulkanFormats.MakeFormatNoneMeansAbsent | src/vulkan_base.cpp:204-214 | makeFormat returns none only for pairs that no format has |
| VulkanFormats.Bc6hByteSizeAsWritten | src/vulkan_base.cpp:191-192 | as written, the BC6H entries report the 8-byte BC1 unit instead of the 16 bytes of bc6h_rgb |
| VulkanFormats.Bc6hLookupAsWritten | src/vulkan_base.cpp:191-192 | as written, makeFormat finds neither BC6H format, and the BC6H unit equals the BC1 unit |
| VulkanFormats.Bc6hSearchAsWritten | src/vulkan_base.cpp:204-214 | on the table as written, the search for bc6h_rgb ends on an entry of another base |
| ImmutableGraphModel.CountVerts | src/geom/immutable_graph.cpp:16-21 | without a vertex count, the graph has one vertex more than the greatest endpoint |
| ImmutableGraphModel.CountEdges | src/geom/immutable_graph.cpp:23-31 | each vertex counts the edges that leave it and the edges that enter it |
| ImmutableGraphModel.ComputeOffsets | src/geom/immutable_graph.cpp:33-42 | each vertex's block starts after the blocks of the lower vertices, outgoing ids first, then incoming ids |
| ImmutableGraphModel.Fill | src/geom/immutable_graph.cpp:44-50 | every edge id lands in the outgoing part of its start's block and the incoming part of its end's block, in edge order |
| ImmutableGraphModel.Build | src/geom/immutable_graph.cpp:15-53 | the constructor builds a valid CSR layout over the given edges, with the given vertex count or one more than the greatest endpoint |
| ImmutableGraphModel.EdgesFrom | src/geom/immutable_graph.cpp:112-116 | edgesFrom is exactly the ids of the edges leaving the vertex, in edge order |
| ImmutableGraphModel.EdgesTo | src/geom/immutable_graph.cpp:118-122 | edgesTo is exactly the ids of the edges entering the vertex, in edge order |
| ImmutableGraphModel.EdgesAt | src/geom/immutable_graph.cpp:124-128 | edges(v) is the outgoing ids followed by the incoming ids |
| ImmutableGraphModel.FindEdge | src/geom/immutable_graph.cpp:103-110 | findEdge returns the first edge from one vertex to the other, and none exactly when there is no such edge |
| ImmutableGraphModel.IsUndirected | src/geom/immutable_graph.cpp:198-200 | isUndirected holds exactly when every edge's reverse is an edge |
| ImmutableGraphModel.MissingTwinsMembers | src/geom/immutable_graph.cpp:190-196 | the added edges are exactly the reverses of edges whose reverse is absent |
| ImmutableGraphModel.MissingTwinsDistinct | src/geom/immutable_graph.cpp:190-196 | without duplicate edges, no added edge appears twice |
| ImmutableGraphModel.AsUndirected | src/geom/immutable_graph.cpp:190-196 | asUndirected keeps the edges, appends the missing reverses, keeps the vertices, and the result is symmetric and valid |
| ImmutableGraphModel.DuplicateOf | src/geom/immutable_graph.cpp:83-90 | another edge with the same endpoints is found exactly when one exists |
| ImmutableGraphModel.HasEdgeDuplicates | src/geom/immutable_graph.cpp:82-92 | hasEdgeDuplicates holds exactly when two edges have the same endpoints |
| ImmutableGraphModel.TreeRoots | src/geom/immutable_graph.cpp:357-360 | treeRoots is the increasing list of exactly the vertices without incoming edges |
| ImmutableGraphCycles.CycleFromWalk | src/geom/immutable_graph.cpp:328-331 | an edge from the end of a walk back to a vertex on it closes a cycle |
| ImmutableGraphCycles.NoCycleFromRank | src/geom/immutable_graph.cpp:301-343 | a ranking that every edge lowers rules out cycles |
| ImmutableGraphCycles.HasCycles | src/geom/immutable_graph.cpp:301-343 | the depth-first search returns true exactly when the graph has a directed cycle |
| ImmutableGraphCycles.IsForest | src/geom/immutable_graph.cpp:345-355 | isForest holds exactly when there is no cycle and no vertex has more than one incoming edge |
| DelaunayModel.IsPositiveConvexQuad | src/geom/delaunay.cpp:72-85 | the test holds exactly when all four turns of the quad are nonzero and of one sign |
| DelaunayModel.RotatedConvex | src/geom/delaunay.cpp:72-85 | the test does not depend on the starting vertex |
| DelaunayModel.ReversedConvex | src/geom/delaunay.cpp:72-85 | the test does not depend on the direction of the walk |
| DelaunayModel.ConvexExamples | src/geom/delaunay.cpp:159-163 | the square and the skewed quad of the test are positive convex |
| DelaunayModel.SelfCrossingExample | src/geom/delaunay.cpp:165-166 | the self-crossing quad of the test is not |
| DelaunayModel.StraightAngleExample | src/geom/delaunay.cpp:168-169 | nor is the quad with a straight angle |
| DelaunayModel.InsideCircumcircle | src/geom/delaunay.cpp:88-106 | insideCircumcircle: the circumcircle determinant of the four points is positive; CircumcircleSymmetry, CircumcircleTranslation and CornerNotInside state its properties |
| DelaunayModel.CircumcircleSymmetry | src/geom/delaunay.cpp:88-106 | starting the triangle at another corner keeps the determinant; reversing it negates the determinant |
| DelaunayModel.CircumcircleTranslation | src/geom/delaunay.cpp:88-106 | moving all four points by one offset keeps the determinant |
| DelaunayModel.CornerNotInside | src/geom/delaunay.cpp:88-106 | a corner of the triangle lies on its circumcircle |
| DelaunayModel.CircumcircleExamples | src/geom/delaunay.cpp:171-172 | the fourth corner of the square is not inside the circle through the others; the centre is |
| DelaunayModel.LeftTransitive | src/geom/delaunay.cpp:108-126 | among vectors left of vec1, turning further counter-clockwise is transitive, so the running maximum is a maximum |
| DelaunayModel.RightTransitive | src/geom/delaunay.cpp:128-146 | the same for vectors right of vec1 and clockwise turns |
| DelaunayModel.SelectCCWMaxAngle | src/geom/delaunay.cpp:108-126 | the result is -1 exactly when no vector is left of vec1, else a vector left of vec1 from which no other such vector turns further counter-clockwise |
| DelaunayModel.SelectCWMaxAngle | src/geom/delaunay.cpp:128-146 | the mirror image: right of vec1, no other turning further clockwise |
| DelaunayModel.CCWExample | src/geom/delaunay.cpp:174-175 | for the test's six vectors the counter-clockwise maximum is index 2 |
| DelaunayModel.CWExample | src/geom/delaunay.cpp:174-176 | and the clockwise maximum is index 3 |
| DelaunayModel.AreaTermsShoelace | src/geom/delaunay.cpp:148-157 | the sum of the source's middle-vertex terms equals the shoelace sum, twice the signed area |
| DelaunayModel.PolygonArea | src/geom/delaunay.cpp:148-157 | polygonArea is half the absolute shoelace sum, rounded down |
| DelaunayModel.SquareArea | src/geom/delaunay.cpp:178-179 | the 10 by 10 square has area 100 |
| AlgorithmModel.MinMax | include/fwk/algorithm.h:39-51 | minMax gives two elements of the range that bound every element, or the zero pair for an empty range |
| AlgorithmModel.IndexOf | include/fwk/algorithm.h:92-97 | indexOf is the first index holding the value, or -1 exactly when it does not occur |
| AlgorithmModel.Sort | include/fwk/algorithm.h:142-145 | the sort is sorted and a permutation of the input |
| AlgorithmModel.Unique | include/fwk/algorithm.h:138-140 | makeUnique (std::unique and the erase) keeps the first of each run of equal neighbours and never lengthens the vector; UniqueSorted and UniqueLength state its result on sorted input |
| AlgorithmModel.UniqueSorted | include/fwk/algorithm.h:142-145 | dropping repeated neighbours of a sorted sequence leaves each value once, in increasing order |
| AlgorithmModel.UniqueLength | include/fwk/algorithm.h:142-145 | dropping repeated neighbours keeps the length exactly when no two neighbours are equal |
| AlgorithmModel.SortedUnique | include/fwk/algorithm.h:142-153 | makeSortedUnique and sortedUnique give a strictly increasing sequence of exactly the input's values |
| AlgorithmModel.IncreasingDetermined | include/fwk/algorithm.h:142-153 | a strictly increasing sequence is determined by its values, so that result is unique |
| AlgorithmModel.SortedUniqueExample | src/tests/stuff.cpp:287 | seven values with four distinct sort to the four distinct values |
| AlgorithmModel.DistinctNoRepeats | include/fwk/algorithm.h:121-125 | distinct holds exactly when no value occurs twice |
| AlgorithmModel.Difference | include/fwk/algorithm.h:161-171 | the merge of std::set_difference over sorted ranges; DifferenceSpec states its elements and order |
| AlgorithmModel.DifferenceSpec | include/fwk/algorithm.h:161-171 | the merge of two sorted inputs is sorted and holds each value as often as the first input has it beyond the second |
| AlgorithmModel.Intersection | include/fwk/algorithm.h:174-184 | the merge of std::set_intersection over sorted ranges; IntersectionSpec states its elements and order |
| AlgorithmModel.IntersectionSpec | include/fwk/algorithm.h:174-184 | the merge is sorted and holds each value as often as both inputs have it |
| AlgorithmModel.Union | include/fwk/algorithm.h:186-195 | the merge of std::set_union over sorted ranges, taking equal heads from the first range; UnionSpec states its elements and order |
| AlgorithmModel.UnionSpec | include/fwk/algorithm.h:186-195 | the merge is sorted and holds each value as often as the larger of its counts |
| AlgorithmModel.SetDifference | include/fwk/algorithm.h:161-171 | setDifference sorts both inputs and returns the sorted multiset difference |
| AlgorithmModel.SetIntersection | include/fwk/algorithm.h:174-184 | setIntersection returns the sorted multiset intersection |
| AlgorithmModel.SetUnion | include/fwk/algorithm.h:186-195 | setUnion returns the sorted union, each value with its larger count |
| AlgorithmModel.Filter | include/fwk/algorithm.h:286-299 | the elements kept by the predicate, in their order, never more than the input; FilterMembers, FilterCounts, FilterConcat and FilterIdempotent state what is kept |
| AlgorithmModel.FilterMembers | include/fwk/algorithm.h:286-299 | an element is kept exactly when it occurs and satisfies the predicate |
| AlgorithmModel.FilterCounts | include/fwk/algorithm.h:286-299 | each kept value keeps its count |
| AlgorithmModel.FilterConcat | include/fwk/algorithm.h:286-299 | filtering keeps the relative order |
| AlgorithmModel.FilterIdempotent | include/fwk/algorithm.h:286-299 | filtering twice changes nothing more |
| AlgorithmModel.MakeFiltered | include/fwk/algorithm.h:286-299 | makeFiltered leaves, in place, exactly the kept elements in their order, and cuts the vector to them |
| AlgorithmModel.MoveKept | include/fwk/algorithm.h:294-296 | the second loop moves the kept elements after the first rejected one forward, in order, so the prefix is the filtered sequence |
| AlgorithmModel.RemoveEqual | include/fwk/algorithm.h:342-347 | removeEqual drops every occurrence of the value, keeps the other elements' counts and returns the number of occurrences |
| AlgorithmModel.RemoveEqualOrder | include/fwk/algorithm.h:342-347 | the kept elements stay in their order |
| BaseVector.GrowCapacity | src/base_vector.cpp:16-22 | the grown capacity is larger than the old one and doubles above the 128 KiB threshold |
| BaseVector.GrowCapacityExamples | src/base_vector.cpp:16-22 | the first allocation takes 64 bytes' worth of elements (at least one), later ones grow by half, large ones double |
| BaseVector.InsertCapacity | src/base_vector.cpp:24-27 | vectorInsertCapacity is the grown capacity, or the needed size when that is larger |
| BaseVector.Pool.constructor | include/fwk/base_vector_impl.h:22-35 | the pool starts without spare buffers |
| BaseVector.Pool.Alloc | include/fwk/base_vector_impl.h:22-27 | poolAlloc hands out the last spare buffer for a small request, else a fresh buffer of at least 128 bytes |
| BaseVector.Pool.Free | include/fwk/base_vector_impl.h:29-35 | poolFree keeps a small buffer exactly while the pool has room, else deletes it |
| BaseVector.MoveRight | include/fwk/base_vector_impl.h:107-119 | a memmove to a higher address copies the range and keeps the rest |
| BaseVector.MoveLeft | include/fwk/base_vector_impl.h:134-144 | a memmove to a lower address copies the range and keeps the rest |
| BaseVector.Vector.constructor | include/fwk/base_vector_impl.h:44-52 | alloc gives an empty vector of the given capacity |
| BaseVector.Vector.Reallocate | include/fwk/base_vector_impl.h:61-69 | reallocate keeps the elements and only ever enlarges the buffer |
| BaseVector.Vector.Grow | include/fwk/base_vector_impl.h:71-73 | grow keeps the elements and takes the grown capacity |
| BaseVector.Vector.Reserve | include/fwk/base_vector_impl.h:164-169 | reserve keeps the elements and makes room for the desired count, by the insert-capacity policy |
| BaseVector.Vector.ResizePartial | include/fwk/base_vector_impl.h:76-85 | resizePartial sets the size, keeps the surviving elements and grows by the insert-capacity policy |
| BaseVector.Vector.InsertPartial | include/fwk/base_vector_impl.h:107-119 | insertPartial opens a gap of count slots at index: the elements before stay, those after move up by count |
| BaseVector.Vector.Insert | include/fwk/base_vector_impl.h:122-126 | insert puts the values at index between the two parts of the old contents |
| BaseVector.Vector.Erase | include/fwk/base_vector_impl.h:134-144 | erase removes count elements at index and keeps the buffer |
| BaseVector.Vector.Clear | include/fwk/base_vector_impl.h:128-131 | clear leaves no element and keeps the buffer |
| BaseVector.Vector.Assign | include/fwk/base_vector_impl.h:100-104 | assign leaves exactly the given values |
| BaseVector.Vector.Swap | include/fwk/base_vector_impl.h:54-58 | swap exchanges the buffers and sizes of the two vectors |
| BaseVector.InsertThenErase | include/fwk/base_vector_impl.h:107-144 | erasing the range just inserted gives the elements back |
| FileSystem.Divide | src/io/file_system.cpp:63-83 | divide appends the path's elements: its root, then every non-empty run between separators |
| FileSystem.PartsJoined | src/io/file_system.cpp:63-83 | names joined with '/' divide back into the same names |
| FileSystem.StepAsWritten | src/io/file_system.cpp:85-95 | one step of simplify as written, which pops the root at ".."; RootParentAsWritten exhibits it |
| FileSystem.Step | src/io/file_system.cpp:85-95 | one element of simplify: "." is dropped, ".." removes a preceding name and is dropped at the root, other elements are pushed |
| FileSystem.Simplify | src/io/file_system.cpp:85-95 | the simplify loop computes the simplified element list |
| FileSystem.SimplifiedNormal | src/io/file_system.cpp:85-95 | a simplified list has no ".", and ".." only at its start |
| FileSystem.SimplifyFromFixed | src/io/file_system.cpp:85-95 | simplifying a normal list changes nothing, so simplify is idempotent |
| FileSystem.RootParentAsWritten | src/io/file_system.cpp:85-95 | as written, "/.." divides into the root and "..", and the ".." removes the root, leaving "." |
| FileSystem.RootParent | src/io/file_system.cpp:85-95 | with ".." at the root dropped, FilePath("/..") is "/" |
| FileSystem.RenderedLength | src/io/file_system.cpp:97-137 | the first loop of construct adds up the length of the text the elements make |
| FileSystem.WriteElements | src/io/file_system.cpp:97-137 | the second loop of construct writes every element and a '/' after each name but the last |
| FileSystem.DividedRender | src/io/file_system.cpp:63-137 | divide takes apart exactly what construct writes |
| FileSystem.RenderCanonical | src/io/file_system.cpp:97-137 | the text construct writes is a path of its own: constructing it again gives the same text |
| FileSystem.CanonIdempotent | src/io/file_system.cpp:50-55 | FilePath(FilePath(s)) is FilePath(s) |
| FileSystem.CanonAbsolute | src/io/file_system.cpp:50-55 | a path is absolute exactly when the text it was made from is |
| FileSystem.FilePath.Current | src/io/file_system.cpp:61 | the default path is "." |
| FileSystem.FilePath.Copy | src/io/file_system.cpp:60 | the copy has the same text |
| FileSystem.FilePath.constructor | src/io/file_system.cpp:50-55 | FilePath(s) holds the canonical text of s |
| FileSystem.FilePath.Construct | src/io/file_system.cpp:97-137 | construct stores the text of the simplified elements |
| FileSystem.FilePath.FileName | src/io/file_system.cpp:139-144 | fileName is the text after the last '/', or the whole path |
| FileSystem.FilePath.Append | src/io/file_system.cpp:225-235 | /= stores the canonical join of both paths' elements |
| FileSystem.FilePath.Join | src/io/file_system.cpp:219-223 | / returns a new path holding the canonical join |
| FileSystem.JoinPaths | src/io/file_system.cpp:225-235 | the path a / b; JoinCanonical states that it is canonical |
| FileSystem.JoinCanonical | src/io/file_system.cpp:225-235 | joining with a relative path gives a path of its own |
| FileSystem.FilePath.Parent | src/io/file_system.cpp:210 | parent is the path joined with ".." |
| FileSystem.FilePath.Absolute | src/io/file_system.cpp:202-204 | absolute keeps an absolute path and joins a relative one to the current directory |
| FileSystem.TildeRest | src/io/file_system.cpp:213-217 | the text after "~/" is not absolute, so it may be joined to home |
| FileSystem.FilePath.ReplaceTildePrefix | src/io/file_system.cpp:213-217 | "~/x" becomes home / x; other paths are kept |
| FileSystem.SharedPrefix | src/io/file_system.cpp:168-171 | the first loop of relative finds the length of the shared prefix |
| FileSystem.CommonPrefix | src/io/file_system.cpp:168-171 | the shared prefix is where the two element lists first differ |
| FileSystem.RelativePath | src/io/file_system.cpp:156-180 | the path c.relative(r); RelativeElements states its elements and RelativeJoin that r / c.relative(r) is c for absolute canonical paths |
| FileSystem.RelativeElements | src/io/file_system.cpp:168-175 | relative's loops give ".." for each remaining reference element, then the remaining elements of the path |
| FileSystem.FilePath.Relative | src/io/file_system.cpp:156-180 | relative stores the constructed relative elements |
| FileSystem.RelativeJoin | src/io/file_system.cpp:156-180 | for absolute paths, ref / path.relative(ref) is path again |
| FileSystem.SharedPrefixLoop | src/io/file_system.cpp:187-200 | the loop of isRelative tells whether the two lists agree up to the shorter length |
| FileSystem.FilePath.IsRelative | src/io/file_system.cpp:187-200 | isRelative holds exactly when one path's elements start the other's |
| FileSystem.FileNameExtension | src/io/file_system.cpp:259-265 | the extension is absent exactly when the file name has no '.', and holds neither '.' nor '/' |
| FileSystem.FileNameStem | src/io/file_system.cpp:267-273 | the stem holds no '/' |
| FileSystem.StemAndExtension | src/io/file_system.cpp:259-273 | the stem, a '.' and the extension make up the file name |
| FileSystem.ExtensionExample | src/tests/stuff.cpp:77-80 | "foo.xx/name.bar.xx" has the extension "xx" |
| FileSystem.StemExample | src/tests/stuff.cpp:77-80 | and the stem "name.bar" |
| FileSystem.NoExtensionExample | src/tests/stuff.cpp:77-80 | "aaa" has no extension |
| FileSystem.StemAfterDirectoryExample | src/tests/stuff.cpp:77-80 | "abc/aaa.xyz" has the stem "aaa" |
| Format.FirstPlaceholder | src/format.cpp:255-260 | the first '%' at or after the start that no backslash precedes, or the end |
| Format.PiecesCount | src/format.cpp:79-119 | the literal pieces between placeholders are one more than the placeholders countPercents counts |
| Format.CountPercents | src/format.cpp:79-88 | the loop of countPercents returns the number of placeholders |
| Format.TextFormatter.constructor | src/format.cpp:60-64 | a new formatter of the given capacity holds the empty text and the given options |
| Format.TextFormatter.Reserve | src/format.cpp:69-72 | reserve grows the buffer to vectorInsertCapacity(size, 1, capacity) only when capacity exceeds it, keeping the text |
| Format.TextFormatter.Clear | src/format.cpp:74-77 | clear leaves the empty text and the same buffer |
| Format.CopyInto | src/format.cpp:181 | memcpy puts the text at the offset and keeps what is before it |
| Format.TextFormatter.Write | src/format.cpp:173-186 | operator<<(Str) appends the text, growing the buffer when the text and its NUL do not fit |
| Format.TextFormatter.WriteChar | src/format.cpp:191-197 | operator<<(char) appends the character, and nothing for NUL |
| Format.TextFormatter.WriteBool | src/format.cpp:247 | operator<<(bool) appends "true" or "false" |
| Format.PrintInto | src/format.cpp:157 | vsnprintf writes what fits of the text and a NUL into the room after the offset |
| Format.TextFormatter.StdFormat | src/format.cpp:153-171 | stdFormat appends the rendered text, growing the buffer and retrying until it fits |
| Format.DecimalText | src/format.cpp:223-246 | the %d text of an integer is never empty |
| Format.TextFormatter.WriteInteger | src/format.cpp:223-246 | the integer writers append the decimal text of the value |
| Format.StripZeros | src/format.cpp:202-204 | the backward loop drops exactly the trailing zeros |
| Format.StripZerosPoint | src/format.cpp:202-206 | the point stops the zeros to strip |
| Format.TextFormatter.WriteReal | src/format.cpp:199-221 | operator<<(double) and operator<<(float) append the %f text, then cut trailing zeros and a trailing point |
| Format.TrimFixed | src/format.cpp:199-221 | for a %f text "p.f": the zeros of the fraction go, then the point when the fraction is gone, and p stays whole |
| Format.RealExample | src/tests/stuff.cpp:49 | 12.500000 is written as 12.5 |
| Format.RealExampleWhole | src/format.cpp:199-209 | 100.000000 is written as 100 |
| Format.TextFormatter.Trim | src/format.cpp:249-253 | trim drops the last count characters, or all of them |
| Format.TextFormatter.WriteTail | src/format.cpp:114-118 | the tail loop of append_ appends the text with each backslash before '%' removed |
| Format.TextFormatter.NextElement | src/format.cpp:255-270 | nextElement appends the unescaped text up to the first placeholder and returns what follows it |
| Format.TextFormatter.WriteEscaped | src/format.cpp:261-264 | at an escaped '%' it writes the text before the backslash and '%', and goes on |
| Format.TextFormatter.WriteElement | src/format.cpp:266-269 | at a placeholder or the end it writes the text before it |
| Format.ElementEscaped | src/format.cpp:261-264 | the recursion of nextElement at an escaped '%' continues the same element |
| Format.TextFormatter.WriteValue | src/format.cpp:107-112 | a value argument writes the element before its placeholder, then the value |
| Format.TextFormatter.WriteArgument | src/format.cpp:107-112 | an option argument changes the options and writes nothing |
| Format.TextFormatter.Format | src/format.cpp:90-119 | append_ appends the pieces of the format interleaved with the values' texts, and applies every option |
| Format.StrFormat | src/format.cpp:128-135 | strFormat gives the pieces of the format interleaved with the values' texts |
| Format.Escape | src/format.cpp:19-25 | the escaped text is at least as long |
| Format.EscapePercents | src/format.cpp:19-25 | an escaped text has no placeholder |
| Format.UnescapeEscape | src/format.cpp:19-25 | unescaping the escaped text gives it back |
| Format.EscapedIsLiteral | src/format.cpp:19-25 | an escaped text formats to itself with no arguments |
| Format.ExamplePieces | src/tests/stuff.cpp:52 | "\%%\%%\%" has the pieces "%", "%" and "%" |
| Format.FormatExample | src/tests/stuff.cpp:52 | format("\%%\%%\%", "foo", "bar") is "%foo%bar%" |
| Format.TextFormatter.WriteItem | src/format.cpp:366-371 | one item of formatSpan is written, with the separator unless it is the last |
| Format.TextFormatter.WriteSpaced | src/format.cpp:366-371 | the loop of formatSpan writes the items with the separator between them |
| Format.TextFormatter.FormatSpan | src/format.cpp:361-374 | formatSpan writes the items between brackets and with ", " when the options are structured, and with " " otherwise |
| Parse.SkipSpace | src/parse.cpp:85-86 | the first position at or after the start that is not white space, every position before it white space |
| Parse.ElementEnd | src/parse.cpp:88-89 | the end of the run of characters that are neither white space nor NUL |
| Parse.SkipSpaces | src/parse.cpp:70-71 | the loop skipping white space stops at that position |
| Parse.ScanElement | src/parse.cpp:74-75 | the loop over an element stops at its end |
| Parse.SkipSpaceIdempotent | src/parse.cpp:91-92 | skipping white space twice is skipping it once |
| Parse.ElementsSkip | src/parse.cpp:97-102 | white space before the text changes none of its elements |
| Parse.ElementsAreElements | src/parse.cpp:81-95 | every element is non-empty and holds neither white space nor NUL |
| Parse.SplitElements | src/parse.cpp:81-95 | parseElement returns the first element and leaves the others; it returns the empty text only when none is left |
| Parse.SkipElements | src/parse.cpp:97-102 | leading white space belongs to no element |
| Parse.ElementsOfJoin | src/parse.cpp:81-95 | elements joined with single spaces are read back in order |
| Parse.SpacedJoin | src/format.cpp:366-371 | the items as formatSpan writes them are the items joined with the separator |
| Parse.PlainSpanParses | src/format.cpp:361-374 | the elements of formatSpan's plain output are the items written, when each is an element |
| Parse.SixElements | src/tests/stuff.cpp:138 | six words separated by single spaces are six elements |
| Parse.CountExample | src/tests/stuff.cpp:138 | "1 2 aa bb cc 4d" holds six elements |
| Parse.TextParser.constructor | src/parse.cpp:81 | a parser starts at the whole text with no error raised |
| Parse.TextParser.CountElements | src/parse.cpp:66-79 | countElements returns the number of elements left and consumes nothing |
| Parse.TextParser.ParseElement | src/parse.cpp:81-95 | parseElement returns the next element, is empty exactly when none is left, and leaves the elements after it |
| Parse.TextParser.AdvanceWhitespace | src/parse.cpp:97-102 | advanceWhitespace drops the leading white space and keeps every element |
| Parse.CompareIgnoreCaseZero | src/parse.cpp:121-123 | compareIgnoreCase is 0 exactly when the lower-cased texts are equal |
| Parse.BoolOfIff | src/parse.cpp:118-131 | true is "true" in any case or "1"; false is "false" in any case or "0"; anything else is nothing |
| Parse.BoolRoundTrip | src/format.cpp:247 | the formatter's "true" and "false" parse back to the same value |
| Parse.BoolExample | src/tests/stuff.cpp:183 | "foobar" is no bool, "TRUE" is true |
| Parse.TextParser.ParseBool | src/parse.cpp:118-131 | operator>>(bool&) yields the bool of the next element, and raises and yields false for anything else |
| Parse.DigitValue | src/parse.cpp:37-40 | a digit or letter has its value below 36 |
| Parse.DigitRun | src/parse.cpp:37-40 | the run of digits of the base strtol reads ends at the first other character |
| Parse.SubjectOf | src/parse.cpp:37-40 | strtol with base 0: an optional sign, then "0x" for hexadecimal, a leading 0 for octal, or decimal |
| Parse.StrToL | src/parse.cpp:37-39 | strtol gives a long, consumes no more than the text, and saturates with ERANGE |
| Parse.StrToUL | src/parse.cpp:38-40 | strtoul gives an unsigned long, negating a negative subject modulo 2^64, and saturates with ERANGE |
| Parse.Truncate | src/parse.cpp:63 | the cast T(value) keeps a value of the type, and a value that fits is unchanged |
| Parse.RangedAsWritten | src/parse.cpp:53-64 | parseSingleRanged as written: no error means the conversion consumed the whole element, and the result is within the type |
| Parse.EmptyElementAsWritten | src/parse.cpp:53-64 | as written, an empty element parses as 0 with no error |
| Parse.ParseRanged | src/parse.cpp:53-64 | the corrected parse agrees with the source on every non-empty element, keeps the result within the type, and raises on the empty element |
| Parse.EmptyElementRaises | src/parse.cpp:48-49 | with nothing left the corrected parse raises a parse error, as parseSingle does |
| Parse.StrToLDecimal | src/parse.cpp:37-39 | strtol reads back every long the formatter writes, consuming all of it |
| Parse.StrToULDecimal | src/parse.cpp:38-40 | strtoul reads back every unsigned long the formatter writes |
| Parse.RangedRoundTrip | src/parse.cpp:143-181 | every value of every integer type, written by the formatter, parses back with no error |
| Parse.RangedOutOfRange | src/parse.cpp:61-62 | a value the formatter writes that does not fit the type, read with strtol, is out of range |
| Parse.IntOutOfRange | src/tests/stuff.cpp:184 | "10000000000" is out of range for int |
| Parse.ShortOutOfRange | src/tests/stuff.cpp:185 | "32768" is out of range for short |
| Parse.UnsignedShortNegative | src/tests/stuff.cpp:186 | "-1" is out of range for unsigned short, which is read with strtol |
| Parse.LongLongExample | src/tests/stuff.cpp:187 | "1000000000000" is the long long 1000000000000 |
| Parse.TrailingCharacters | src/tests/stuff.cpp:182 | "2a" is not an int |
| Parse.TextParser.ParseInteger | src/parse.cpp:143-181 | operator>> for each integer type is the ranged parse of the next element, and raises on its error |
| Parse.TakeElements | src/parse.cpp:187-197 | n successive parseElement calls return n texts |
| Parse.TakeElementsElements | src/parse.cpp:187-209 | they are the first n elements in order, an empty text for each one missing, and the rest is left |
| Parse.TakeElementsMissing | src/parse.cpp:187-209 | some text is empty exactly when fewer than n elements are left |
| Parse.TextParser.ParseNotEmpty | src/parse.cpp:187-209 | parseNotEmpty fills the span with the next elements and raises exactly when fewer are left |
| ManifestPatterns.Split | tools/configure.py:556 | str.split gives at least one piece, and no piece holds the separator |
| ManifestPatterns.SplitGlue | tools/configure.py:556 | splitting a + sep + b cuts at the first separator when a has none |
| ManifestPatterns.JoinSplit | tools/configure.py:556 | joining the pieces of a split gives back the text |
| ManifestPatterns.SplitJoin | tools/configure.py:556 | splitting joined separator-free pieces gives back the pieces |
| ManifestPatterns.SplitTwo | tools/configure.py:556 | "name:version" splits into name and version when neither holds ':' |
| ManifestPatterns.SplitThree | tools/configure.py:520 | "a:b:c" splits into three pieces when none holds ':' |
| ManifestPatterns.VersionAvoidsColon | tools/configure.py:393 | a version holds no ':', so a pin splits at the right places |
| ManifestPatterns.VersionIff | tools/configure.py:393 | the version recognizer accepts exactly \d+(\.\d+)*(-\d+)? |
| ManifestPatterns.BuildNameIff | tools/configure.py:399 | the build-name recognizer accepts exactly an optional windows or linux, ':', release or debug, ':', and an optional [a-z][a-z0-9-]* suffix |
| ManifestPatterns.BuildNameComplete | tools/configure.py:399 | an optional platform, a build type and an optional suffix make a build name |
| ManifestPatterns.GithubProjectIff | tools/configure.py:386 | the project recognizer accepts exactly owner/name of [A-Za-z0-9_.-]+ |
| ManifestPatterns.NameVersionIff | tools/configure.py:402 | name:version is recognized exactly as the pattern says |
| ManifestPatterns.NameVersionHashIff | tools/configure.py:403 | name:version:hash with sixteen lower-case hex digits is recognized exactly |
| ManifestPatterns.NameVersionQueryIff | tools/configure.py:404 | name:version:query is recognized exactly |
| ManifestPatterns.MatchesIff | tools/configure.py:372-408 | every recognizer accepts exactly the full matches of its pattern |
| ManifestPatterns.PinPieces | tools/configure.py:1033 | a valid pin is rebuilt from its three split pieces, a name, a version and a hash |
| ManifestPatterns.PinOf | tools/configure.py:403 | a valid name, version and hash make a pin |
| ManifestPatterns.PinNeedsHash | tools/configure.py:392 | colon-free pieces form a pin only with a valid hash |
| ManifestPatterns.VersionExample | tools/configure.py:393 | "1.3.1" is a version |
| ManifestPatterns.PinExample | tools/configure.py:403 | "zlib:1.3.1:0123456789abcdef" is a pin |
| ManifestPatterns.UpperHexRefused | tools/configure.py:392 | upper-case hex digits are refused |
| ManifestJson.Get | tools/configure.py:468 | dict.get finds nothing exactly when no entry has the key, and otherwise an entry's value |
| ManifestJson.GetCons | tools/configure.py:468 | the first entry with the key wins |
| ManifestJson.Keys | tools/configure.py:573 | the keys of a dictionary, in order |
| ManifestJson.Iterate | tools/configure.py:636-638 | a for loop visits list items, object keys or string characters, and fails on anything else |
| ManifestJson.Invalid | tools/configure.py:379 | the invalid values are exactly those that are not fully matching strings |
| ManifestJson.ValidatePattern | tools/configure.py:378-381 | validation passes exactly when every value is a fully matching string, and otherwise names the invalid ones |
| ManifestJson.ValidateOption | tools/configure.py:419-423 | a string that is one of the options passes; a non-string is a TypeError |
| ManifestJson.FirstIndex | tools/configure.py:426-429 | the first index of a character, or the length |
| ManifestJson.ValidateUrl | tools/configure.py:426-429 | a URL passes exactly when its scheme is http or https and its network location is not empty |
| ManifestJson.UrlOfParts | tools/configure.py:426-429 | every http or https URL with a host passes |
| ManifestJson.UrlSchemeRefused | tools/configure.py:428 | "ftp://x" is refused |
| ManifestJson.UrlHostRequired | tools/configure.py:428 | "http:///x" is refused |
| ManifestJson.StringList | tools/configure.py:432-434 | a list of strings passes and is returned, anything else is a TypeError |
| ManifestJson.StringDict | tools/configure.py:437-445 | a dictionary of strings to strings passes, anything else is a TypeError |
| ManifestJson.StringListRoundTrip | tools/configure.py:432-434 | a written string list reads back unchanged |
| ManifestJson.StringDictRoundTrip | tools/configure.py:437-445 | a written string dictionary reads back unchanged |
| ManifestJson.ValidateStrings | tools/configure.py:378-381 | strings that all match validate to themselves |
| StringOrder.StrLessIrreflexive | tools/configure.py:652 | Python's string order is irreflexive |
| StringOrder.StrLessTransitive | tools/configure.py:652 | and transitive |
| StringOrder.StrLessTotal | tools/configure.py:652 | and total on distinct strings |
| StringOrder.InsertSorted | tools/configure.py:652 | inserting keeps a list strictly sorted and adds exactly the element |
| StringOrder.SortedSet | tools/configure.py:652 | sorted(set(xs)) is strictly sorted and has the elements of xs |
| StringOrder.SortedUnique | tools/configure.py:652 | a strictly sorted list is determined by its elements |
| StringOrder.NineAfterTen | tools/configure.py:652 | the order is by characters: "10" sorts before "9" |
| ConfigureRecipes.PathJoin | tools/configure.py:565 | os.path.join keeps an absolute second part and otherwise puts the first part before the second |
| ConfigureRecipes.DirName | tools/configure.py:629 | os.path.dirname is a prefix of the path |
| ConfigureRecipes.AfterLastSlash | tools/configure.py:629 | the index just after the last '/', or 0 |
| ConfigureRecipes.RequiredString | tools/configure.py:555 | a single value passes exactly when it is a fully matching string, and its error names the value |
| ConfigureRecipes.ParsePackageCache | tools/configure.py:461-475 | a parsed cache is valid and holds the type, platform and url of the object; a missing "type" is a KeyError |
| ConfigureRecipes.CacheJsonFields | tools/configure.py:465-468 | the fields of a written cache are read back by their keys |
| ConfigureRecipes.CacheRoundTrip | tools/configure.py:461-475 | parsing the JSON of a valid cache gives the cache back |
| ConfigureRecipes.ParseConanRecipes | tools/configure.py:489-501 | a parsed group is valid, has no platform exactly when the JSON's is false, and keeps the packages as listed |
| ConfigureRecipes.NonEmpty | tools/configure.py:521-522 | an empty part becomes None |
| ConfigureRecipes.ParseCMakeBuild | tools/configure.py:517-530 | a parsed build has a valid name, ":release:" when the name is empty, with its platform and suffix None |
| ConfigureRecipes.Inherit | tools/configure.py:532-535 | inheriting keeps the child's options first, in order |
| ConfigureRecipes.InheritLookup | tools/configure.py:532-535 | the child's keys win, and the parent supplies only the keys the child lacks |
| ConfigureRecipes.InheritOptions | tools/configure.py:532-535 | the loop of inherit_cmake_options computes the inherited options |
| ConfigureRecipes.ParseBuilds | tools/configure.py:573-578 | the parsed builds are one per entry |
| ConfigureRecipes.ParseBuildsValid | tools/configure.py:573-578 | every parsed build is valid, named as listed and installs files |
| ConfigureRecipes.ParseBuildsInherit | tools/configure.py:573-578 | every parsed build carries the default build's options under its own |
| ConfigureRecipes.NoFilesFails | tools/configure.py:575-576 | a build without install files rejects the list |
| ConfigureRecipes.CollectBuilds | tools/configure.py:572-578 | the loop over "builds" computes the parsed builds |
| ConfigureRecipes.NameVersionParts | tools/configure.py:556 | a valid "name:version" splits into a name and a version |
| ConfigureRecipes.PatchPaths | tools/configure.py:565 | each patch is joined with the manifest's directory |
| ConfigureRecipes.RecipeOf | tools/configure.py:551-595 | a parsed recipe passes every check, its default build is the object's, and its builds are those parsed from "builds" |
| ConfigureRecipes.NamedBuildNeedsFiles | tools/configure.py:575-576 | a named build without install files rejects the recipe |
| ConfigureRecipes.MatchingBuilds | tools/configure.py:600-604 | the kept builds all fit the platform |
| ConfigureRecipes.MatchingMembers | tools/configure.py:600-604 | a build is kept exactly when it is listed and fits the platform |
| ConfigureRecipes.GetBuilds | tools/configure.py:597-604 | get_builds gives the default build when there are no builds, and else the ones that fit |
| ConfigureRecipes.MatchesPlatform | tools/configure.py:606-612 | matches_platform's loop with its early return decides whether the recipe fits |
| ConfigureRecipes.MatchesIffBuilds | tools/configure.py:597-612 | a recipe fits a platform exactly when get_builds has something to build there |
| ConfigureModel.MergeAssoc | tools/configure.py:647-650 | extending the record lists with an include's records is associative |
| ConfigureModel.MergeValid | tools/configure.py:647-650 | extending valid records with valid records keeps them valid |
| ConfigureModel.ParseEach | tools/configure.py:636-638 | the list comprehension gives one parsed record per JSON entry, or the error of the first entry that fails |
| ConfigureModel.ParseRecords | tools/configure.py:624-638 | a file's own records are valid, its root is an object, and its dependency list is the validated "dependencies" list (absent means empty) |
| ConfigureModel.ValidManifestOf | tools/configure.py:653 | records that are each valid form a valid manifest |
| ConfigureModel.ParseDependencyNames | tools/configure.py:627-629 | every dependency name matches the package-name pattern and the list is the validated "dependencies" list |
| ConfigureModel.ParseCaches | tools/configure.py:632-636 | every parsed package cache is valid |
| ConfigureModel.ParseConanGroups | tools/configure.py:633-637 | every parsed Conan group is valid |
| ConfigureModel.ParseCMakeRecipes | tools/configure.py:634-638 | every parsed CMake recipe is valid |
| ConfigureModel.CachesValid | tools/configure.py:636 | the caches of a successful parse are all valid |
| ConfigureModel.ConanValid | tools/configure.py:637 | the Conan groups of a successful parse are all valid |
| ConfigureModel.RecipesValid | tools/configure.py:638 | the CMake recipes of a successful parse are all valid |
| ConfigureModel.Normalized | tools/configure.py:652-653 | sorted(set(deps)) leaves the dependencies strictly sorted with the same elements, and the other records unchanged |
| ConfigureModel.NormalizedValid | tools/configure.py:652-653 | normalising keeps the manifest valid |
| ConfigureModel.ParseFile | tools/configure.py:623-653 | a parsed manifest is valid with strictly sorted dependencies, and a file read at depth 8 or more is rejected for too many include levels |
| ConfigureModel.ParseIncludes | tools/configure.py:641-650 | the records collected from the includes are valid |
| ConfigureModel.IncludeFails | tools/configure.py:642-646 | an absolute include, or an include that fails to parse, fails the includes loop |
| ConfigureModel.AbsoluteIncludeFails | tools/configure.py:643-644 | a file with an absolute include is rejected |
| ConfigureModel.SelfIncludeFails | tools/configure.py:626-646 | a file that includes itself is rejected, because the chain reaches the depth limit |
| ConfigureModel.DependenciesCollected | tools/configure.py:626-652 | a parsed file was opened below the depth limit, and its dependencies are exactly its own and its includes' ones |
| ConfigureModel.ReadManifest | tools/configure.py:623-653 | the parse method with its loop over the includes computes the recursive parse |
| ConfigureModel.NamesOf | tools/configure.py:1033 | a name is collected exactly when some package's part before the first ':' is that name |
| ConfigureModel.CachedNames | tools/configure.py:1028-1034 | get_cached_package_names: the names the platform's caches list; CachedNamesIff states membership |
| ConfigureModel.CachedNamesIff | tools/configure.py:1028-1034 | a name is downloadable exactly when a cache that fits the platform lists a package of that name |
| ConfigureModel.GetCachedPackageNames | tools/configure.py:1028-1034 | the loops compute the downloadable names |
| ConfigureModel.ConanNames | tools/configure.py:709-714 | the names the platform can build from Conan groups; ConanNamesIff states membership |
| ConfigureModel.ConanNamesIff | tools/configure.py:711-714 | a name is buildable by Conan exactly when a group that fits the platform lists a package of that name |
| ConfigureModel.RecipeNames | tools/configure.py:716-718 | a name is buildable by CMake exactly when a recipe of that name fits the platform |
| ConfigureModel.GetBuildablePackageNames | tools/configure.py:709-719 | the loops compute the buildable names |
| ConfigureModel.BuildableNamesIs | tools/configure.py:709-719 | the buildable names are the Conan names together with the CMake names |
| ConfigureModel.FirstNamed | tools/configure.py:789-791 | nothing is found exactly when no package has the name; otherwise the index found is the first package with the name |
| ConfigureModel.FindNamed | tools/configure.py:789-791 | the inner loop finds the first package with the name |
| ConfigureModel.ConanHit | tools/configure.py:787-794 | a group gives nothing exactly when it does not fit the platform or lacks the name; a recipe found carries the name asked for |
| ConfigureModel.ConanLookup | tools/configure.py:783-795 | the lookup gives nothing exactly when the name is not buildable by Conan; a recipe found carries the name asked for |
| ConfigureModel.FindInConanGroup | tools/configure.py:787-794 | the inner loop computes one group's answer |
| ConfigureModel.FindConanRecipe | tools/configure.py:783-795 | find_conan_recipe's loops compute the lookup |
| ConfigureModel.FindCMakeRecipe | tools/configure.py:914-920 | nothing is found exactly when no recipe has the name and fits the platform; otherwise the first such recipe is returned |
| ConfigureModel.CacheHit | tools/configure.py:1040-1046 | one cache gives nothing exactly when it is for another platform or lacks the name |
| ConfigureModel.CacheHitPin | tools/configure.py:1043-1046 | a hit is the first pin name:version:hash of the cache, with the URL name_version.zip under the cache's URL and one '/' between |
| ConfigureModel.CacheLookup | tools/configure.py:1038-1047 | find_package_in_caches: the first cache of the platform pinning the package; CacheLookupNone and CacheLookupSome state both outcomes |
| ConfigureModel.CacheLookupNone | tools/configure.py:1038-1047 | the lookup fails exactly when no allowed cache lists the name |
| ConfigureModel.CacheLookupSome | tools/configure.py:1038-1047 | a package found comes from a pin of an allowed cache, with that cache's URL |
| ConfigureModel.FindInCache | tools/configure.py:1042-1046 | the inner loop computes one cache's answer |
| ConfigureModel.FindPackageInCaches | tools/configure.py:1038-1047 | find_package_in_caches' loops compute the lookup |
| ConfigureModel.FoundIffCached | tools/configure.py:1028-1047 | with the platform filter, a package is found exactly when it is among the downloadable names |
| ConfigureModel.IsBest | tools/configure.py:890-897 | the best package is the first of the greatest compiler.version under Python string order; BestUnique makes that index unique |
| ConfigureModel.ConanGetBestPackage | tools/configure.py:890-897 | the loop keeps the first package whose compiler version is greatest |
| ConfigureModel.BestUnique | tools/configure.py:890-897 | only one package index meets that choice |
| ConfigureModel.NinePreferred | tools/configure.py:895 | the versions are compared as strings, so compiler version "9" wins over "10" |
| ConfigureModel.DownloadPackage | tools/configure.py:1050-1054 | a package no cache lists stops the download with an unknown-package error and does nothing |
| ConfigureModel.DownloadDecision | tools/configure.py:1060-1074 | the download is skipped exactly when the archive on disk has the pinned hash; an archive is unpacked exactly when no error occurred, and only when it has the pinned hash; the only error is a hash mismatch |
| ConfigureModel.RenameError | tools/configure.py:117-127 | the rename loop fails exactly when a selector with a colon does not split into two parts |
| ConfigureModel.RenameMembers | tools/configure.py:127-131 | with well-formed renames, a file is copied to a new name exactly when a selector old:new names it |
| ConfigureModel.InstallPlan | tools/configure.py:111-131 | install_files over the walked files: the copies, or the error of a malformed rename; InstallError and InstallCopies state both |
| ConfigureModel.InstallError | tools/configure.py:117-127 | install_files fails exactly when there is a file and a malformed rename selector |
| ConfigureModel.InstallCopies | tools/configure.py:115-131 | with well-formed renames, the copies are every file a pattern fully matches, under its own path, and every file a rename names, under the new path |
| ConfigureModel.CopyFile | tools/configure.py:121-131 | the work for one file is the pattern test, then the rename loop |
| ConfigureModel.InstallFiles | tools/configure.py:111-131 | the walk over the source tree makes the planned copies |
| ConfigureModel.MissingDeps | tools/configure.py:1275 | a name is unavailable exactly when it is selected and not available |
| ConfigureModel.CheckDeps | tools/configure.py:1273-1278 | the check passes exactly when every selected name is available, and then gives the selection; otherwise it reports the unavailable names |
| ConfigureModel.AvailableDeps | tools/configure.py:1270-1273 | the names a dependency command may ask for: the platform's cached names for download-deps, its buildable names otherwise (corrected to the subcommand's name) |
| ConfigureModel.DependenciesCheck | tools/configure.py:1272-1277 | dependencies_main's check with the corrected command test: the selected names, or the unavailable ones; CheckDeps states both outcomes and DownloadCheckSound what it guarantees |
| ConfigureModel.DependenciesCheckAsWritten | tools/configure.py:1272-1277 | dependencies_main's check as written, testing the command against "download"; DownloadCheckAsWrittenDiffers exhibits the input where it lets a request through |
| ConfigureModel.DownloadCheckSound | tools/configure.py:1274 | with the corrected check, every dependency the download command goes on to fetch is found in a cache of the platform |
| ConfigureModel.DownloadCheckAsWrittenDiffers | tools/configure.py:1274 | as written, "download" is compared with the command name "download-deps", so a buildable-only package passes the check and the download then stops on an unknown package |
| InstallDepsModel.ParseDependencies | tools/install_deps.py:471-488 | the records of one file are valid and the dependency list is the validated "dependencies" list as written |
| InstallDepsModel.FindPackageInCaches | tools/install_deps.py:826-833 | the older lookup is the cache lookup without a platform filter |
| InstallDepsModel.FoundIffListed | tools/install_deps.py:826-833 | without a platform filter, a package is found exactly when some cache lists it |
| InstallDepsModel.AvailablePackages | tools/install_deps.py:999 | the names the command may ask for: the platform's cached names for download, its buildable names otherwise |
| InstallDepsModel.PackagesCheck | tools/install_deps.py:995-1003 | main's check: the requested packages or the manifest's dependencies, or the unavailable ones; PackagesCheckIff states when it passes and what it selects |
| InstallDepsModel.PackagesCheckIff | tools/install_deps.py:995-1002 | the selection is the requested packages or, when none are requested, the manifest's dependencies; the check passes exactly when all of them are available, and then gives the selection |
| InstallDepsModel.DownloadCheckFinds | tools/install_deps.py:999-1002 | every package the download command goes on to fetch is found in some cache |
| InstallDepsModel.LookupIgnoresPlatform | tools/install_deps.py:827-833 | with a Windows cache listed before a Linux cache, the older lookup returns the Windows pin where configure.py returns the Linux one |
| BoxModel.EncloseBoxes | include/fwk/math/box.h:310-324 | encloseRange over boxes is the default box for none, else the boxes enclosed left to right |
| Strings.Escaped | src/str.cpp:407-426 | every character escapeString writes is printable |

## Left out

- Parse.TextParser.ParseInteger: follows the corrected ParseRanged, so an empty element (nothing left in the text) raises a parse error, where src/parse.cpp:53-64 returns 0 without one; see Findings.
- FileSystem.Step: ".." directly after the root is dropped, so "/.." is "/", where src/io/file_system.cpp:89-90 pops the root (a debug assertion only) and a release build gives "."; FileSystem.FilePath and everything built on Step follow the corrected form; see Findings.
- Int128Model.Int128.FillInArray: uses the bound `> 0xFFFF_FFFF` for a one-word magnitude, where src/math/int128.cpp:108 uses `>= UINT32_MAX` and gives 0xFFFFFFFF a leading zero limb; Int128Model.Int128.Divide is built on the corrected form; see Findings.
- Int128Model.DivideDigit: computes each quotient digit as the exact quotient of the dividend window by the divisor. It does not take the source's guess, its 32-bit `rhat` refinement and the add-back (src/math/int128.cpp:264-311). Those steps are modelled as written in Int128Digit, which shows an input where they give a wrong digit; see Findings.
- Int128Model.DivideDigits: is built on the corrected digit Int128Model.DivideDigit, not on the source's digit step; see Findings.
- Int128Model.LongDivide: is built on the corrected digit loop Int128Model.DivideDigits; see Findings.
- Int128Model.Int128.Divide: returns the exact truncated quotient and remainder, through the corrected digit step, where the source can be off for some three- and four-limb divisions; see Findings.
- HashSetModel.HashSet and HashMapModel.HashMap: setLoadFactor is not modelled (the load factor is fixed at the default), nor are copy and move construction and assignment, swap, the iterators and erase(Iter).
- HashMapModel.HashMap: only the storage that keeps hashes beside keys and values is modelled; the intrusive-marker storage variant is not.
- ImmutableGraphModel: computeExtendedInfo, vertsFrom / vertsTo / vertsAdj, the triangle enumeration, the minimum spanning tree, shortest paths, reversed, remapVerts and makeForest are not modelled, and the plain from/to accessors have no contracts of their own.
- SlabAllocatorModel.OnesShiftedRight: `~0ull >> 64`, which C++ leaves undefined, is modelled as a shift by the count mod 64 (all bits kept), as x86 computes it.
- VulkanBase: the VAttachmentSync and VAttachment constructors from Vulkan enum values are not part of this model; their packed fields are.
- Strings: utf8TextPos, the static strcasestr helper and invalidIndex (an error report) are not modelled.
- UInt128Model: division, remainder, the bitwise operators and the floating-point conversions are not modelled.
- Format: autoPrintFormat (src/format.cpp:14-57) is not modelled as a whole. Its splitting of the argument text at commas, its whitespace trimming, its choice between quoted, plain and literal elements and its final trim are left out. Its append_elem escaping of `%` (src/format.cpp:19-25) is modelled as Format.Escape.
- Format: print_ (which writes to stdout), toString_, the free stdFormat and the writers for vectors, boxes and None (src/format.cpp:137-151 and 272-360) are not modelled; in StdFormat the text vsnprintf renders is the `rendered` parameter.
- Format.TextFormatter.Format: requires the placeholder count to equal the number of value arguments; the source checks this with a FATAL error in debug builds only.
- Format.TextFormatter.Trim: does not require the paranoid assertion 0 < count <= offset; it keeps the source's max(0, offset - count).
- Parse: parsing of floats and doubles (strtod, strtof), of the vector and matrix types and the unranged parseSingle path are not modelled.
- ConfigureRecipes and ManifestPatterns: `\d` is taken as the ASCII digits, URLs are split by a simplified urlparse (scheme and host only), and the compilation errors of user-given regular expressions are not modelled.
- ManifestJson.Get: an object with a repeated key gives the first value, where json.load keeps the last; JSON text and its syntax errors are not modelled (a file is given as its parsed value), and a root that is not an object is a TypeError where Python raises AttributeError.
- ConfigureRecipes: Conan package settings are reduced to compiler.version; the mutation of shared option dictionaries in inherit_cmake_options is not modelled (options are values).
- ConfigureModel.InstallFiles: directory creation and the `os.path.join` of the destination are not modelled, the order of `os.walk` is the `relPaths` parameter and `re.fullmatch` is the `fullmatch` parameter.
- ConfigureModel.ConanGetBestPackage: requires a non-empty package list, the `assert packages` of the source.
- ConfigureModel.DownloadPackage: the download, the SHA-256 of the archive and the unpacking are parameters (`localHash`, `fetchedHash`) and steps of the result; the console output is not modelled.
- ConfigureModel and InstallDepsModel: the file system is a map from paths to parsed JSON, `os.path.abspath` is a parameter, and subprocess calls (git, cmake, conan), argparse, console printing and the list-deps output are not modelled.

## Findings

| source | as written | input that shows it | evidently intended | confidence | as-written member | corrected member |
|---|---|---|---|---|---|---|
| include/fwk/perf_base.h:33 | PointId's operator< compares with `==` | PointId(1) < PointId(1) holds and neither of PointId(1), PointId(2) is less than the other | `value < rhs.value`, a strict order | not executed | PerfBase.PointIdLessAsWritten, PerfBase.IdLessAsWrittenIsReflexive | PerfBase.PointIdLess, PerfBase.PointIdLessIsStrictTotalOrder |
| include/fwk/perf_base.h:48 | ExecId's operator< compares with `==` | every ExecId is less than itself | `value < rhs.value`, a strict order | not executed | PerfBase.ExecIdLessAsWritten, PerfBase.IdLessAsWrittenIsReflexive | PerfBase.ExecIdLess, PerfBase.ExecIdLessIsStrictTotalOrder |
| src/str.cpp:88 | Str::compare compares the common prefix with strncmp, which stops at a NUL byte | the views "a\0b" and "a\0c" of equal size compare equal | a byte-wise comparison of the whole common prefix (memcmp), so that only equal views compare equal | not executed | Strings.CompareAsWritten, Strings.CompareAsWrittenStopsAtNul | Strings.Compare, Strings.CompareOrder |
| src/str.cpp:268 | utf8CodePointLength rejects `c < 0xC2 && c > 0x80`, which leaves out 0x80 | the continuation byte 0x80 is reported as the lead of a two-byte sequence | `c >= 0x80`, rejecting every continuation byte | not executed | Utf.CodePointLengthAsWritten, Utf.CodePointLengthOfContinuation | Utf.CodePointLength, Utf.CodePointLengthFix |
| src/math/int128.cpp:32 | maximumValue's low half is 0xfffffffffffffff, fifteen hex digits | maximumValue() + 1 is still within the int128 range | the low half 0xffffffffffffffff, so the value is 2^127 - 1 | not executed | Int128Model.MaximumValueAsWritten | Int128Model.MaximumValue |
| src/math/int128.cpp:108 | fillInArray takes the two-limb branch for `low >= UINT32_MAX` | the magnitude 0xFFFFFFFF is stored as the limbs [0, 0xFFFFFFFF], with a leading zero limb; separately, a divisor whose leading limb is zero (the magnitude 0xFFFFFFFF with that leading zero limb) makes normalizeBits 32 at src/math/int128.cpp:259, and shifting a uint32_t by 32 is undefined behaviour in C++ | `low > UINT32_MAX`, so the array has no leading zero limb | not executed | Int128Model.MagnitudeLimbsAsWritten, Int128Model.FillInArrayLeadingZero | Int128Model.MagnitudeLimbs, Int128Model.FillInArrayDiffers |
| src/math/int128.cpp:275-284 | the digit step keeps `rhat` in a uint32_t, so the guess's refinement loop stops as soon as `rhat` wraps; only a guess that is too large is corrected afterwards, by the add-back | 0x80000000_80000000_00000005 / 0x80000000_FFFFFFFF: at the window [0x80000000, 0x80000000, 5] the guess falls to 0xFFFFFFFD while the true digit is 0xFFFFFFFF, and the remainder left, 0x1_00000004_00000002, exceeds the divisor | every quotient digit is the exact digit, so the remainder is below the divisor | not executed | Int128Digit.DivideDigitsAsWritten, Int128Digit.DivisionExample | Int128Model.DivideDigit, Int128Model.DivideDigits |
| src/math/int128.cpp:327-331 | operator/ computes the quotient and returns `rhs` | 7 / 2 yields 2 | return the quotient, 3 | not executed | Int128Model.Int128.DivOperatorAsWritten, Int128Model.DivOperatorDiffers | Int128Model.Int128.DivOperator |
| src/vulkan_base.cpp:191-192 | both BC6H rows of the format table name bc1_rgb as their base format | makeFormat(bc6h_rgb, ufloat) finds no format, and bc6h_rgb_ufloat reports the 8-byte unit of BC1 | the base format bc6h_rgb, with its 16-byte unit | not executed | VulkanFormats.FormatInfosAsWritten, VulkanFormats.Bc6hByteSizeAsWritten, VulkanFormats.Bc6hLookupAsWritten | VulkanFormats.FormatInfos, VulkanFormats.MakeFormatRoundTrip |
| src/io/file_system.cpp:89-90 | simplify pops the element before "..", the root included (only a debug assertion refuses it) | "/.." becomes the relative path "." in a release build | ".." at the root is dropped, so "/.." is "/" | not executed | FileSystem.StepAsWritten, FileSystem.RootParentAsWritten | FileSystem.Step, FileSystem.RootParent |
| src/parse.cpp:59 | parseSingleRanged checks only `end_ptr != element.end()`, which an empty element passes | parsing an int when no element is left gives 0 with no error | report a parse error when nothing was converted, as parseSingle does at src/parse.cpp:48 | not executed | Parse.RangedAsWritten, Parse.EmptyElementAsWritten | Parse.ParseRanged, Parse.EmptyElementRaises |
| tools/configure.py:1274 | the available list is the downloadable one only when the command is "download", but the subcommand is named "download-deps" (tools/configure.py:1098-1099) | a manifest whose only dependency has a CMake recipe and no cache entry: download-deps passes the check and download_package then stops on an unknown package | compare with "download-deps", so the request is rejected up front as unavailable | not executed | ConfigureModel.DependenciesCheckAsWritten, ConfigureModel.DownloadCheckAsWrittenDiffers | ConfigureModel.DependenciesCheck, ConfigureModel.DownloadCheckSound |
| tools/install_deps.py:826-833 | find_package_in_caches does not skip caches of other platforms, while the availability check (tools/install_deps.py:816-822) does | a Windows cache listed before a Linux cache, both pinning the package: on Linux the Windows archive is fetched | skip caches whose platform differs, as tools/configure.py:1040-1041 does | not executed | InstallDepsModel.FindPackageInCaches, InstallDepsModel.LookupIgnoresPlatform | ConfigureModel.FindPackageInCaches, ConfigureModel.FoundIffCached |
