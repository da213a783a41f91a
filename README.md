# ccl concurrent collections, modelled in Dafny

This project models the core of `ccl`, a Rust crate of concurrent collections. Each module models one part of the crate:

- **`ShardedMaps`** models `DHashMap`, together with its older form and its `DashMap` twin. Keys are routed by the top `ncb` bits of a seeded hash to one of `2^ncb` shards behind read/write locks. The class keeps the shards in an array of maps and proves that they always partition the whole map by the routing function. Every operation is proved against the whole map, including the shard-by-shard iterator.
- **`ChainedTable`** models `DHashMap2`: sixteen tables of buckets that are chained in order, indexed by low hash bits and doubled when overloaded. `find_location` compares hashes, not keys.
- **`VecMaps`** and **`SwitchMaps`** model `VecMap`, which holds parallel key and value vectors with distinct keys, and `SwitchMap`, which starts as a `VecMap` and turns into a hash map once it is large.
- **`HashTrie`** models the lock-free nested hash trie (`nestedmap/raw.rs`). A table has 32 slots, each `Null`, `Leaf` or `Branch`, and each table has its own nonce.
- **`Stacks`** and **`Groups`** model the Treiber stack and the per-CPU group of stacks, which removes by probing round the segments from a random start.
- **`UniformAllocators`** models the tagged pool allocator. Its slab segments map object addresses to slab keys.
- **`TimedCaches`** and **`HLTimedCaches`** model the two timed caches, which load on demand, save dirty entries periodically and evict old saved entries.
- **`CrudeMaps`**, **`TCHashMaps`** and **`DirectMaps`** model the experimental table without collision handling, the transactional-cell hash map and the crate-root map that stores values without their keys.
- **`Common`** holds the shared pieces: panics, word sizes, powers of two, top-bit shifts and saturating time differences.

How the system's inputs are modelled:

- Locks are always acquired. The `try_*` operations take a boolean that says whether the lock was obtained.
- Hash functions, nonces, random indices, the number of CPUs, fresh addresses and `Instant::now()` are parameters.
- Deferred destruction through the epoch collector is a ghost list of retired objects.
- A panic is a `Checked` result whose `Panics` case is stated exactly.

## Model

| member | source | states |
|---|---|---|
| ShardedMaps.ShardIndex | src/dhashmap/mod.rs:321-334 | the shard a hash selects, its top `ncb` bits, is always below the shard count `2^ncb` |
| ShardedMaps.ShardIndexAsWrittenAgrees | src/dhashmap/mod.rs:331-333 | for `1 <= ncb <= 64` the shift as written selects the same shard as `ShardIndex` |
| ShardedMaps.ShardIndexAsWrittenOutOfBounds | src/dhashmap/mod.rs:331-333 | with `ncb == 0` (one shard) the shift by 64 returns the whole hash, an index past the only shard |
| ShardedMaps.DashMapSeed | src/dashmap.rs:380 | `wrapping_mul`: the seed is a `u64` congruent to the nonce times 192876129 modulo 2^64 |
| ShardedMaps.DashMapSeedInvertible | src/dashmap.rs:380 | the multiplier is odd, so multiplying the seed by its inverse modulo 2^64 gives the nonce back: the mixing loses none of the nonce |
| ShardedMaps.DashMapSeedInjective | src/dashmap.rs:380 | distinct nonces give distinct seeds |
| ShardedMaps.WrapI32 | src/dhashmap/mod.rs:51 | the `i32` value of an integer lies in `[-2^31, 2^31)` and is congruent to it modulo `2^32` |
| ShardedMaps.I32OneShl | src/dhashmap/mod.rs:51 | `1 << n` on an `i32` panics exactly for `n >= 32` (a checked build) and is otherwise `2^n` wrapped to 32 bits |
| ShardedMaps.ShardCountAsWrittenAgrees | src/dhashmap/mod.rs:51-55 | as written, `new(n)` for `n <= 30` builds `2^n` shards |
| ShardedMaps.ShardCountAsWrittenAt31 | src/dhashmap/mod.rs:51-55 | as written, `new(31)` builds no shard at all, while `determine_map` still routes some key to shard 1 or above |
| ShardedMaps.ShardCountAsWrittenPanics | src/dhashmap/mod.rs:51 | as written, `new(n)` for `n >= 32` overflows the `i32` shift and panics |
| ShardedMaps.ShardCount | src/dhashmap/mod.rs:44-61 | the intended shard count `1usize << n` is `2^n`, returned exactly when it does not exceed `isize::MAX` (that is, `n < 63`) and a panic otherwise, as the documentation says |
| ShardedMaps.DefaultShardExponent | src/dhashmap/mod.rs:348-359 | the chosen exponent is the least `p >= 1` with `vcount <= 2^p` |
| ShardedMaps.DefaultShardCount | src/dhashmap/mod.rs:347-360 | for `cpus` processors the default builds `2^p >= 2` shards, at least `8 * cpus`, with `p <= 62`; `p` is the least such exponent: `p == 1` or `2^(p-1) < 8 * cpus` |
| ShardedMaps.RoutedFilter | src/dhashmap/mod.rs:279-284 | filtering every shard with the same predicate filters the whole map and keeps it partitioned |
| ShardedMaps.RoutedMapValues | src/dhashmap/mod.rs:297-300 | rewriting every value of every shard rewrites the whole map and keeps it partitioned |
| ShardedMaps.ShardedMap.New | src/dhashmap/mod.rs:50-61 | as intended: `ShardCount(n)`, that is `2^n`, empty shards, an empty map, and the routing invariant established; callable for every `n` whose count does not panic |
| ShardedMaps.ShardedMap.Default | src/dhashmap/mod.rs:347-360 | an empty map of at least `8 * cpus` and at least 2 shards, with the least such exponent: `ncb == 1` or `2^(ncb-1) < 8 * cpus` |
| ShardedMaps.ShardedMap.ChunksCount | src/dhashmap/mod.rs:337-339 | the number of shards is `2^ncb` |
| ShardedMaps.ShardedMap.Insert | src/dhashmap/mod.rs:83-87 | the map maps `key` to `value`; only the key's own shard changes |
| ShardedMaps.ShardedMap.GetOrInsert | src/dhashmap/mod.rs:91-113 | returns the existing value and changes nothing, or stores and returns `default` for an absent key |
| ShardedMaps.ShardedMap.GetOrInsertWith | src/dhashmap/mod.rs:117-141 | as GetOrInsert; the default closure is called exactly when the key is absent |
| ShardedMaps.ShardedMap.ContainsKey | src/dhashmap/mod.rs:145-153 | true exactly when the key is in the map |
| ShardedMaps.ShardedMap.Get | src/dhashmap/mod.rs:157-171 | None exactly for an absent key, otherwise the key's value |
| ShardedMaps.ShardedMap.TryGet | src/dhashmap/mod.rs:175-192 | `WouldBlock` exactly when the lock is unavailable, `InvalidKey` exactly for an absent key, otherwise the value |
| ShardedMaps.ShardedMap.TryGetWithTimeout | src/dashmap.rs:199-220 | `DidNotResolve` exactly when the lock is not acquired in time, `InvalidKey` exactly for an absent key, otherwise the value |
| ShardedMaps.ShardedMap.Index | src/dhashmap/mod.rs:196-202 | panics exactly for an absent key, otherwise the value |
| ShardedMaps.ShardedMap.GetMut | src/dhashmap/mod.rs:206-220 | None and no change for an absent key; otherwise the update is written for that key alone and the updated value `Some(update(old value))` is returned, the value the reference shows once written through |
| ShardedMaps.ShardedMap.TryGetMut | src/dhashmap/mod.rs:224-241 | the three outcomes of `try_get_mut`; only the `Ok` case writes the update |
| ShardedMaps.ShardedMap.IndexMut | src/dhashmap/mod.rs:245-251 | panics with no change for an absent key, otherwise writes the update |
| ShardedMaps.ShardedMap.Len | src/dhashmap/mod.rs:255-257 | the sum of the shard sizes is the number of keys in the map |
| ShardedMaps.ShardedMap.IsEmpty | src/dhashmap/mod.rs:261-263 | true exactly when the map is empty |
| ShardedMaps.ShardedMap.Remove | src/dhashmap/mod.rs:267-275 | returns the stored pair or None, removes the key, and leaves every other shard unchanged |
| ShardedMaps.ShardedMap.Retain | src/dhashmap/mod.rs:279-284 | the map keeps exactly the entries the predicate accepts |
| ShardedMaps.ShardedMap.Clear | src/dhashmap/mod.rs:288-293 | every shard and the map are empty |
| ShardedMaps.ShardedMap.Alter | src/dhashmap/mod.rs:297-300 | every value is replaced by `f(key, value)`, and the keys are unchanged |
| ShardedMaps.ShardIter.New | src/dhashmap/mod.rs:430-436 | the keys still to come are all the keys of the map |
| ShardedMaps.ShardIter.SlowPathNewChunk | src/dhashmap/mod.rs:438-453 | opens the next shards; yields an entry of the map not yet yielded, from the shard just opened, or None once every shard has been opened and every key yielded |
| ShardedMaps.ShardIter.Next | src/dhashmap/mod.rs:463-479 | yields each entry of the map with its current value exactly once, then None; shards are visited in index order (the shard index never decreases and the yielded key is routed to the shard last opened) |
| ShardedMaps.CountEntries | src/dhashmap/mod.rs:649-659 | counting the iterator's items gives the number of keys in the map |
| ChainedTable.CalculateIndex | src/dhashmap2.rs:14-16 | the low `bits` bits of a hash index a bucket below `2^bits` |
| ChainedTable.FlattenPush | src/dhashmap2.rs:80-89 | appending an entry to one bucket adds exactly that entry to the flattened entries |
| ChainedTable.FlattenMembership | src/dhashmap2.rs:91-106 | an entry of the flattened buckets is an entry of some bucket, and conversely |
| ChainedTable.EmptyStorage | src/dhashmap2.rs:37-50 | `n` empty buckets |
| ChainedTable.PlacedPush | src/dhashmap2.rs:80-89 | appending an entry to the bucket its hash selects keeps every entry in its bucket |
| ChainedTable.FirstWithHash | src/dhashmap2.rs:116-126 | the first-match lookup in a bucket finds nothing exactly when no entry of the bucket has the hash |
| ChainedTable.FirstWithHashAt | src/dhashmap2.rs:116-126 | the entry `find_location` stops at is the one the lookup finds |
| ChainedTable.FirstWithHashAppend | src/dhashmap2.rs:116-126 | a lookup in two concatenated parts looks in the second only when the first has no entry with the hash |
| ChainedTable.FirstWithHashReplace | src/dhashmap2.rs:116-126 | replacing an entry by one with the same hash leaves every lookup of another hash unchanged |
| ChainedTable.InBucket | src/dhashmap2.rs:102-105 | the entries that re-insertion sends to one bucket: each of them is one of the entries and selects that bucket |
| ChainedTable.InBucketSnoc | src/dhashmap2.rs:102-105 | one more entry at the end of the list reaches only the bucket it selects, at its end |
| ChainedTable.InBucketPush | src/dhashmap2.rs:102-105 | appending that entry to its bucket extends the placement of a prefix of the list to one more entry |
| ChainedTable.FirstInBucket | src/dhashmap2.rs:91-126 | the bucket a hash selects keeps every entry with that hash in order, so the lookup there finds what a lookup in the whole list finds |
| ChainedTable.FirstInFlatten | src/dhashmap2.rs:102-126 | when only one bucket can hold a hash, the lookup in all entries in bucket order is the lookup in that bucket |
| ChainedTable.RehashKeepsFirst | src/dhashmap2.rs:91-126 | doubling a table and re-inserting its entries changes no lookup |
| ChainedTable.RehashKeepsAll | src/dhashmap2.rs:91-126 | the same, for every hash at once |
| ChainedTable.PushKeepsFirst | src/dhashmap2.rs:61-78 | appending an entry changes only the lookup of its hash, and that one only when it found nothing before: `insert` never replaces |
| ChainedTable.OverwriteFirst | src/dhashmap2.rs:116-131 | overwriting the first entry with a hash by another with that hash changes only that lookup, to the new value |
| ChainedTable.FlattenReplace | src/dhashmap2.rs:102-105 | replacing one entry keeps the number of entries, and every entry afterwards was there before or is the new one |
| ChainedTable.Table.New | src/dhashmap2.rs:37-50 | `2^capacity` empty buckets and no entries |
| ChainedTable.Table.Len | src/dhashmap2.rs:108-110 | the count equals the number of entries stored |
| ChainedTable.Table.Capacity | src/dhashmap2.rs:112-114 | the number of buckets is `2^capacity` |
| ChainedTable.Table.InsertNoCheck | src/dhashmap2.rs:80-89 | the entry is appended to the end of its hash's bucket; the entries grow by exactly it |
| ChainedTable.Table.Insert | src/dhashmap2.rs:61-78 | the entries grow by exactly the new one; the table doubles exactly when the bucket was occupied and the table is overloaded, and then each new bucket is the old entries plus the new one that belong there, in order; a lookup by the key's hash finds the new value only if it found nothing before, and no other lookup changes |
| ChainedTable.Table.Realloc | src/dhashmap2.rs:91-106 | the new capacity is taken, the same multiset of entries is kept, each new bucket holds exactly the old entries (in bucket order) that its index selects, and every lookup finds what it found before |
| ChainedTable.Table.ReinsertAll | src/dhashmap2.rs:102-105 | re-inserting a list of entries adds exactly those entries, each bucket receiving those it selects in list order |
| ChainedTable.Table.ReinsertOne | src/dhashmap2.rs:103-104 | one step of that loop appends one entry to its bucket |
| ChainedTable.Table.FindLocation | src/dhashmap2.rs:116-126 | the position of the first entry in the hash's bucket with that hash, or None when the bucket has no such entry |
| ChainedTable.Table.GetWithLocation | src/dhashmap2.rs:128-131 | the entry at a valid location is an entry of the table |
| ChainedTable.Table.HashedEntriesInBucket | src/dhashmap2.rs:116-126 | some entry of the table has hash `h` exactly when the bucket `h` selects holds one |
| ChainedTable.Table.Lookup | src/dhashmap2.rs:116-131 | what a lookup by a hash finds; None exactly when no entry of the table has that hash |
| ChainedTable.Table.Overwrite | src/dhashmap2.rs:116-131 | overwriting the first entry with a hash changes only that hash's lookup, which finds the new value, and keeps the entry count |
| ChainedTable.Table.InsertReplacing | src/dhashmap2.rs:61-78 | as intended: afterwards a lookup by the key's hash finds the new value and no other lookup changes; the count grows only when nothing was found |
| ChainedTable.DHashMap2.New | src/dhashmap2.rs:167-174 | sixteen empty tables of `2^2` buckets each |
| ChainedTable.DHashMap2.Insert | src/dhashmap2.rs:193-197 | the entry is added to the table selected by the low 4 bits of its hash; the other tables are unchanged; as written it never replaces: the lookup by the key's hash changes only when it found nothing |
| ChainedTable.DHashMap2.InsertReplacing | src/dhashmap2.rs:193-197 | as intended: the lookup by the key's hash finds the new value and no other lookup changes |
| ChainedTable.DHashMap2.Get | src/dhashmap2.rs:199-211 | None exactly when no entry anywhere has the key's hash; otherwise the value of the first entry, in bucket order, with that hash in the key's bucket (`Table.Lookup`) |
| ChainedTable.InsertTwiceKeepsFirst | src/dhashmap2.rs:61-78 | as written: after `insert(k, 1)` and `insert(k, 2)`, `get(k)` returns 1 |
| ChainedTable.InsertTwiceReplaces | src/dhashmap2.rs:193-211 | as intended: the same calls make `get(k)` return 2 |
| VecMaps.PairsAt | src/switchmap/vecmap.rs:71-82 | with distinct keys, the pair at index `i` is the map's binding for `keys[i]` |
| VecMaps.PairsKeys | src/switchmap/vecmap.rs:6-9 | the map's keys are exactly the elements of the key vector |
| VecMaps.PairsCardinality | src/switchmap/vecmap.rs:30-32 | with distinct keys, the vector length is the number of bindings |
| VecMaps.PairsUpdate | src/switchmap/vecmap.rs:39-43 | overwriting the value at `i` rebinds `keys[i]` alone |
| VecMaps.PairsAppend | src/switchmap/vecmap.rs:46-47 | pushing a new key and value keeps the keys distinct and adds that binding |
| VecMaps.PairsRemove | src/switchmap/vecmap.rs:64-65 | removing index `i` from both vectors keeps the keys distinct and removes exactly `keys[i]` |
| VecMaps.VecMap.New | src/switchmap/vecmap.rs:12-17 | empty vectors and an empty map |
| VecMaps.VecMap.WithCapacity | src/switchmap/vecmap.rs:19-24 | empty vectors and an empty map |
| VecMaps.VecMap.ShouldConvert | src/switchmap/vecmap.rs:26-28 | as intended: true exactly when the map holds more than THRESHOLD keys |
| VecMaps.VecMap.Len | src/switchmap/vecmap.rs:30-32 | the number of keys |
| VecMaps.VecMap.Insert | src/switchmap/vecmap.rs:34-50 | the map binds `k` to `v`; returns the old pair in place for a present key, or appends to both vectors for a new key |
| VecMaps.VecMap.Find | src/switchmap/vecmap.rs:58-63 | None exactly for an absent key, otherwise the index holding the key |
| VecMaps.VecMap.Remove | src/switchmap/vecmap.rs:52-69 | the key is removed from the map; returns the removed pair, or None and no change |
| VecMaps.VecMap.Get | src/switchmap/vecmap.rs:71-82 | None exactly for an absent key, otherwise its value |
| VecMaps.VecMap.GetMut | src/switchmap/vecmap.rs:84-95 | for a present key the update is written to its value alone; otherwise nothing changes |
| VecMaps.VecMap.IntoHashMap | src/switchmap/vecmap.rs:105-114 | the hash map holds exactly the bindings of the vectors, with one entry per key |
| VecMaps.ShouldConvertAsWrittenInverted | src/switchmap/vecmap.rs:26-28 | the comparison as written is the negation of the intended one on every map |
| VecMaps.ShouldConvertAsWrittenOnEmpty | src/switchmap/vecmap.rs:26-28 | as written, an empty map asks to be converted |
| SwitchMaps.SwitchMap.New | src/switchmap/mod.rs:17-19 | an empty map in its vector form |
| SwitchMaps.SwitchMap.WithCapacity | src/switchmap/mod.rs:21-27 | an empty map, in hash form exactly when the capacity exceeds THRESHOLD |
| SwitchMaps.SwitchMap.DoCheckConvert | src/switchmap/mod.rs:29-46 | as intended: the contents are unchanged; the map is in hash form exactly when it was already, or when the vector form holds more than THRESHOLD keys |
| SwitchMaps.SwitchMap.DoCheckConvertAsWritten | src/switchmap/mod.rs:29-46 | as written, driven by `len <= THRESHOLD`: the contents are unchanged; the map is in hash form exactly when it was already or holds at most THRESHOLD keys; a map left flat holds more than THRESHOLD |
| SwitchMaps.EmptyConvertsAsWritten | src/switchmap/mod.rs:17-46 | as written, a new (empty) map is turned into a hash map by its first `do_check_convert` |
| SwitchMaps.EmptyStaysFlat | src/switchmap/mod.rs:17-46 | as intended, a new map stays flat |
| SwitchMaps.SwitchMap.Len | src/switchmap/mod.rs:48-53 | the number of keys, in either form |
| SwitchMaps.SwitchMap.Insert | src/switchmap/mod.rs:55-60 | binds `k` to `v` and returns the previous value; the form is unchanged |
| SwitchMaps.SwitchMap.Get | src/switchmap/mod.rs:62-71 | None exactly for an absent key, otherwise its value |
| SwitchMaps.SwitchMap.GetMut | src/switchmap/mod.rs:73-82 | for a present key the update is written to it alone; otherwise nothing changes |
| SwitchMaps.SwitchMap.ContainsKey | src/switchmap/mod.rs:84-90 | true exactly when the key is present |
| SwitchMaps.SwitchMap.Remove | src/switchmap/mod.rs:92-101 | removes the key and returns its value, or None |
| HashTrie.KeyRef | src/nestedmap/raw.rs:29-35 | the key of a leaf; panics exactly on a branch |
| HashTrie.Slot | src/nestedmap/raw.rs:151 | a key's slot with a nonce is below TABLE_SIZE |
| HashTrie.SeparatesTail | src/nestedmap/raw.rs:124-133 | when two keys collide under the first nonce, the remaining nonces still separate them |
| HashTrie.Table.Pos | src/nestedmap/raw.rs:151 | the slot of a key in this table is below TABLE_SIZE |
| HashTrie.Table.Get | src/nestedmap/raw.rs:149-176 | the value exactly when the key's path of slots ends at a leaf with an equal key |
| HashTrie.Table.Empty | src/nestedmap/raw.rs:140-146 | 32 null slots with the drawn nonce; no key is found |
| HashTrie.Table.WithTwoEntries | src/nestedmap/raw.rs:106-137 | a table holding exactly the two entries, each found by its key |
| HashTrie.Table.Insert | src/nestedmap/raw.rs:179-228 | afterwards the key finds the new entry, every other key is unaffected, and a replaced entry of the same key is retired |
| HashTrie.Table.InsertBelow | src/nestedmap/raw.rs:200 | on a branch the insertion happens in the child table, with the same guarantees |
| HashTrie.Table.SplitLeaf | src/nestedmap/raw.rs:212-223 | a leaf of another key becomes a branch holding both entries; no other key is affected |
| HashTrie.Table.RemoveAsWritten | src/nestedmap/raw.rs:230-258 | as written: the leaf at the end of the key's path is cleared and retired, whatever key it holds; every key either finds what it found before or now finds nothing, and only a key that found the retired entry can change |
| HashTrie.Table.Remove | src/nestedmap/raw.rs:230-258 | as intended: the key is no longer found, every other key keeps its value, and only the key's own entry is retired |
| HashTrie.RemoveAsWrittenDropsOtherKey | src/nestedmap/raw.rs:239-254 | removing an absent key whose slot holds another key's leaf loses that other key |
| HashTrie.InsertSharingSlot | src/nestedmap/tests.rs:4-14 | two keys that share a slot of the root table are split into a child table, and both keep their values |
| Stacks.ConcurrentStack.New | src/stack.rs:24-28 | a null head, empty contents |
| Stacks.ConcurrentStack.Push | src/stack.rs:43-59 | a fresh head node carries the data and links to the old head; the contents gain the element on top |
| Stacks.ConcurrentStack.Pop | src/stack.rs:62-81 | None on an empty stack; otherwise returns the top, unlinks and retires its node, and the contents lose the top |
| Stacks.PushThenPop | src/stack.rs:96-106 | after `n` pushes of 9, `n` pops each return 9 |
| Groups.Total | src/group.rs:20-21 | the number of elements over all segments |
| Groups.TotalUpdate | src/group.rs:54-57 | replacing one segment changes the total by the change in that segment's length |
| Groups.TotalZero | src/group.rs:98-100 | the total is zero exactly when every segment is empty |
| Groups.Group.New | src/group.rs:26-36 | one empty stack per CPU |
| Groups.Group.Add | src/group.rs:54-57 | the element is pushed onto the chosen segment alone; the total grows by one |
| Groups.Group.PopAt | src/group.rs:66 | a pop of one segment: None when it is empty, else its top, and the total shrinks by one |
| Groups.Group.Remove | src/group.rs:61-76 | None exactly when every segment is empty; otherwise the top of the first non-empty segment probed from `start` is removed |
| Groups.Probe | src/group.rs:69 | the probed segment after `d` steps is below the segment count |
| Groups.ProbeIsMod | src/group.rs:69 | the probe after `d` steps is `(start + d) % n` |
| Groups.ProbeStep | src/group.rs:69-73 | incrementing modulo `n` is one probe step, and the probe returns to `start` only after `n` steps |
| Groups.ProbeCovers | src/group.rs:65-75 | within `n` steps the probe visits every segment |
| Groups.ProbesCoverAll | src/group.rs:72-74 | a probe that came back round finding every visited segment empty proves every segment empty |
| Groups.GroupIter.Next | src/group.rs:98-100 | exactly `remove_with_guard`: None, with no change, exactly when every segment is empty; otherwise the top of the first non-empty segment probed from `start` is returned and removed from it alone, one element fewer in all |
| UniformAllocators.UnionKeys | src/uniform_allocator.rs:74-82 | a pointer is live in the pool exactly when some segment holds it |
| UniformAllocators.UnionAt | src/uniform_allocator.rs:74-82 | with disjoint segments, the pool's object at a pointer is its segment's object |
| UniformAllocators.UnionInsert | src/uniform_allocator.rs:30-35 | allocating in one segment at a pointer no other segment holds adds that pointer to the pool |
| UniformAllocators.UnionRemove | src/uniform_allocator.rs:37-44 | deallocating in one segment removes the pointer from the pool |
| UniformAllocators.Vacant | src/uniform_allocator.rs:30-35 | the slab key chosen is vacant, or the capacity when none is |
| UniformAllocators.HasSpaceVacant | src/uniform_allocator.rs:26-28 | a slab with fewer objects than its capacity has a vacant key |
| UniformAllocators.SlotAddrInjective | src/uniform_allocator.rs:30-35 | distinct slab keys have distinct addresses |
| UniformAllocators.ConsistentFill | src/uniform_allocator.rs:30-35 | filling a vacant key and recording its address keeps slab, mappings and live objects consistent |
| UniformAllocators.ConsistentEmpty | src/uniform_allocator.rs:37-44 | dropping a recorded pointer and its slot keeps them consistent |
| UniformAllocators.SlabSegment.New | src/uniform_allocator.rs:19-24 | an empty slab with no live objects |
| UniformAllocators.SlabSegment.Alloc | src/uniform_allocator.rs:30-35 | a new pointer inside the slab holds the zeroed object; one more object |
| UniformAllocators.SlabSegment.Dealloc | src/uniform_allocator.rs:37-44 | a recorded pointer yields its object and stops being live; any other pointer gives None and no change |
| UniformAllocators.MemoryPool.New | src/uniform_allocator.rs:52-56 | no segments, nothing live |
| UniformAllocators.MemoryPool.AllocIn | src/uniform_allocator.rs:62-66 | allocation in a segment with space adds one fresh live pointer inside it |
| UniformAllocators.MemoryPool.Grow | src/uniform_allocator.rs:69 | one new empty segment at the fresh address, appended after the others; nothing live changes |
| UniformAllocators.MemoryPool.Search | src/uniform_allocator.rs:58-72 | the first segment with space, or a new one appended when none has space |
| UniformAllocators.MemoryPool.Alloc | src/uniform_allocator.rs:58-72 | a fresh live pointer holding the zeroed object, in the first segment with space or a new last one |
| UniformAllocators.MemoryPool.DeallocAt | src/uniform_allocator.rs:75-80 | one segment's dealloc: removes the pointer if that segment holds it |
| UniformAllocators.MemoryPool.Dealloc | src/uniform_allocator.rs:74-82 | a live pointer yields its object and is removed; any other pointer gives None and no change |
| UniformAllocators.UniformAllocator.New | src/uniform_allocator.rs:91-99 | `pool_count` empty pools |
| UniformAllocators.UniformAllocator.PoolIndex | src/uniform_allocator.rs:101-111 | the tag's pool is `tag % pool_count`, which panics exactly when there are no pools |
| UniformAllocators.UniformAllocator.Alloc | src/uniform_allocator.rs:101-105 | panics exactly with no pools; otherwise the tag's pool allocates and every other pool is unchanged |
| UniformAllocators.UniformAllocator.Dealloc | src/uniform_allocator.rs:107-111 | panics exactly with no pools; otherwise the tag's pool deallocates and every other pool is unchanged |
| UniformAllocators.AllocThenDealloc | src/uniform_allocator.rs:101-111 | deallocating a just-allocated pointer with the same tag returns the zeroed object |
| TimedCaches.SaveStep | src/timedcache.rs:80-84 | an entry ends saved exactly when it was saved or its save succeeded; value and time are kept |
| TimedCaches.SavedAll | src/timedcache.rs:90-98 | the save phase keeps every key, value and time, and marks saved exactly the entries already saved or successfully saved |
| TimedCaches.Purged | src/timedcache.rs:86-88 | the purge drops exactly the saved entries older than the valid duration and keeps the rest unchanged |
| TimedCaches.TimedCache.New | src/timedcache.rs:32-43 | an empty cache; each absent duration takes its default |
| TimedCaches.TimedCache.Loaded | src/timedcache.rs:46-53 | a present key is left alone; an absent key is stored saved and stamped `now` exactly when the loader finds it |
| TimedCaches.TimedCache.LoadItem | src/timedcache.rs:46-53 | the storage becomes `Loaded` |
| TimedCaches.TimedCache.Map | src/timedcache.rs:57-61 | after the load, panics exactly when the key is absent, otherwise returns `f` of its value |
| TimedCaches.TimedCache.MapMut | src/timedcache.rs:65-70 | after the load, the entry is marked unsaved with the updated value and its load time kept, or the call panics |
| TimedCaches.TimedCache.SaveAll | src/timedcache.rs:90-98 | the saver is called once for each dirty entry and never for another; the storage becomes `SavedAll` |
| TimedCaches.TimedCache.DoCheck | src/timedcache.rs:75-105 | saving runs and stamps only after the save interval, and purging only after the check interval, in that order |
| TimedCaches.FailedSaveSurvives | src/timedcache.rs:86-98 | a dirty entry whose save fails is never evicted |
| HLTimedCaches.ToEvictAsWrittenNeverHolds | src/hltimedcache.rs:32-34 | as written, an old saved entry is not evicted, while the intended test evicts it |
| HLTimedCaches.Find | src/hltimedcache.rs:127-136 | on coherent stores, the entry `map` reads is found exactly for keys in `lookup`, from the map `lookup` names |
| HLTimedCaches.Touched | src/hltimedcache.rs:138-149 | `map_mut` moves the key's entry to `unsaved` with the new data; coherence and every other key are kept |
| HLTimedCaches.SavedAsWritten | src/hltimedcache.rs:156-170 | as written: `unsaved` is drained and only successfully saved entries reach `saved`; `lookup` keeps its keys |
| HLTimedCaches.FailedSaveLosesEntry | src/hltimedcache.rs:162-169 | as written, an entry whose save fails stays in `lookup` but can no longer be found |
| HLTimedCaches.Saved | src/hltimedcache.rs:156-170 | as intended: successful saves move to `saved` and failed ones stay in `unsaved`; coherence and every value are kept |
| HLTimedCaches.PurgedAsWritten | src/hltimedcache.rs:173-177 | as written, nothing loaded at or before `now` is ever purged |
| HLTimedCaches.Purged | src/hltimedcache.rs:173-177 | as intended: exactly the expired saved entries are evicted, with their `lookup` records, and coherence is kept |
| HLTimedCaches.HLTimedCache.New | src/hltimedcache.rs:105-115 | three empty maps; both timestamps `now` |
| HLTimedCaches.HLTimedCache.Load | src/hltimedcache.rs:117-125 | a key absent from `lookup` is loaded into `saved` exactly when the loader finds it; coherence and other keys are kept |
| HLTimedCaches.HLTimedCache.LoadItem | src/hltimedcache.rs:117-125 | the stores become `Load` |
| HLTimedCaches.HLTimedCache.Map | src/hltimedcache.rs:127-136 | after the load, panics exactly when the entry cannot be found, otherwise returns `f` of its data |
| HLTimedCaches.HLTimedCache.MapMut | src/hltimedcache.rs:138-149 | after the load, the entry is moved to `unsaved` and updated, or the call panics |
| HLTimedCaches.HLTimedCache.SaveEntry | src/hltimedcache.rs:162-169 | one drained entry: on success it is marked saved in `lookup` and `saved`, on failure it is dropped or kept |
| HLTimedCaches.HLTimedCache.SaveLoop | src/hltimedcache.rs:159-170 | the loop over the drained entries gives the saved, failed and lookup parts for all of them |
| HLTimedCaches.HLTimedCache.SavePhase | src/hltimedcache.rs:156-170 | the stores become `SavedAsWritten`, or `Saved` when failed entries are kept; it needs only that every unsaved key has a `lookup` record (`Tracked`), the `unwrap` at line 165 |
| HLTimedCaches.HLTimedCache.DoCheckAsWritten | src/hltimedcache.rs:151-178 | as written: save after the save interval, then purge after the check interval, with both timestamps stamped; callable on any `Tracked` state, including one a failed save has left incoherent, and keeps it `Tracked` |
| HLTimedCaches.HLTimedCache.DoCheck | src/hltimedcache.rs:151-178 | as intended: the same schedule, and the stores stay coherent |
| HLTimedCaches.LostAfterFailedSave | src/hltimedcache.rs:151-178 | as written: a value changed by `map_mut` whose save fails makes the next `map` panic, and a `map` after a further check too |
| HLTimedCaches.KeptAfterFailedSave | src/hltimedcache.rs:151-178 | as intended: the same calls return the changed value |
| CrudeMaps.SlotIndex | src/experimental/crude.rs:35 | `hash % len` is below `len` and panics exactly when `len` is 0 |
| CrudeMaps.Entries | src/experimental/crude.rs:29 | the entries the slots point to, one per slot |
| CrudeMaps.CrudeHashMap.New | src/experimental/crude.rs:25-31 | `capacity` slots, each pointing at its own fresh `Empty` entry |
| CrudeMaps.CrudeHashMap.Insert | src/experimental/crude.rs:33-40 | panics exactly on a table of length 0; otherwise the key's slot points to a fresh entry holding the pair, and the other slots are unchanged; callable on any table, including one the `remove` as written left pointing at a retired entry, and keeps a valid table valid |
| CrudeMaps.CrudeHashMap.Get | src/experimental/crude.rs:42-63 | the value in the key's slot, whichever key stored it, or None for `Empty` |
| CrudeMaps.CrudeHashMap.RemoveAsWritten | src/experimental/crude.rs:65-72 | as written: the slot's entry is retired but the slot still points to it |
| CrudeMaps.CrudeHashMap.Remove | src/experimental/crude.rs:65-72 | as intended: the slot points to a fresh `Empty` entry and the old one is retired |
| CrudeMaps.CollidingGet | src/experimental/crude.rs:42-63 | two keys sharing a slot read each other's value |
| CrudeMaps.RemoveThenGetAsWritten | src/experimental/crude.rs:65-72 | as written: after `remove`, `get` still returns the value, read from a retired entry |
| CrudeMaps.RemoveThenGet | src/experimental/crude.rs:65-72 | as intended: after `remove`, `get` returns None |
| TCHashMaps.InitStorage | src/tchashmap.rs:16-18 | `capacity` vacant cells |
| TCHashMaps.Rehashed | src/tchashmap.rs:71-89 | the rebuilt storage has `2^lbc` cells |
| TCHashMaps.RehashedPlaced | src/tchashmap.rs:81-88 | every occupied cell of the rebuilt storage holds an old entry whose key maps to that cell |
| TCHashMaps.RehashedLastWins | src/tchashmap.rs:81-88 | an old entry survives in its new cell unless a later entry maps to the same cell |
| TCHashMaps.TCHashMap.New | src/tchashmap.rs:58-69 | 16 vacant cells, 4 lookup bits, length 0 |
| TCHashMaps.TCHashMap.Resize | src/tchashmap.rs:71-89 | new lookup bits and capacity `2^lbc`; the storage is the old one rehashed |
| TCHashMaps.TCHashMap.Insert | src/tchashmap.rs:91-112 | doubles first when the insertion passes half the capacity, then overwrites the key's cell; panics exactly when doubling past 32 bits |
| TCHashMaps.TCHashMap.GetCloned | src/tchashmap.rs:114-135 | panics exactly on a vacant cell; otherwise the value of the entry in the key's cell, stored under a key with the same cell |
| TCHashMaps.InsertThenGet | src/tchashmap.rs:152-163 | a value inserted under a key is read back straight after |
| Common.ComputeIndex | src/tchashmap.rs:21-24 | the top `bits` bits of a 32-bit hash, below `2^bits`; panics exactly for `bits` 0 or above 32 |
| Common.ShrTopBits | src/lib.rs:14-17 | shifting a `width`-bit word right by `width - bits` leaves a value below `2^bits` |
| Common.Elapsed | src/timedcache.rs:90 | `duration_since` is the difference when it is positive, and zero otherwise |
| DirectMaps.InitStorage | src/lib.rs:10-12 | `capacity` vacant cells |
| DirectMaps.TCHashMap.New | src/lib.rs:40-49 | 256 vacant cells with 8 lookup bits |
| DirectMaps.TCHashMap.Slot | src/lib.rs:14-17 | a key's cell is one of the 256 |
| DirectMaps.TCHashMap.Insert | src/lib.rs:51-60 | only the key's cell changes, to hold the value |
| DirectMaps.CollidingInserts | src/lib.rs:51-60 | two keys whose hashes share their top byte overwrite each other |

## Left out

- Concurrency is not modelled. Every lock is acquired at once, and atomics, compare-and-set loops and retries are sequential reads and writes. The lock outcomes of `try_get`, `try_get_mut` and `try_get_with_timeout` are boolean inputs.
- The epoch collector is not modelled. Deferred destruction is a ghost list of retired objects, and memory is never actually reclaimed.
- The hash functions are function parameters: seahash, FxHasher, `fxhash::hash32` and `util::hash_with_nonce`. So are the random nonces, random segment indices and `num_cpus::get`. `util::round_pow2`, `util::hash` and `util::ptr_size_bits` are not part of this model; the crude map takes its capacity as already rounded.
- The chunk views, raw submap access (`chunks`, `chunks_write`, `get_submap`), `map_in_place` and the guard and ref wrapper types are not part of this model. References handed to a closure are modelled as an update function applied to the value.
- ShardedMaps.ShardedMap.New: `with_capacity` is the same constructor plus reserved capacity; the reservation has no visible effect and is not modelled. Its `capacity / ncm` makes `ncm` a `usize` there, so it builds the intended `2^n` shards.
- ShardedMaps.ShardedMap.New: models the intended `1usize << n` and requires that the count does not panic (`n < 63`, `ShardCount(n).Returns?`); the as-written `i32` shift of `new` is `ShardCountAsWritten`, stated by the lemmas beside it rather than by a constructor. The same `new` is repeated in src/dhashmap.rs:46-57 and src/dashmap.rs:54-65.
- ShardedMaps.ShardedMap.Default: `DashMap`'s exponent is a `u32` converted with `try_into().unwrap()`, and `DHashMap`'s is a `u8` incremented in a loop; the model requires `8 * cpus <= 2^62`, so that neither can overflow. It is built on the intended `New`; the source's `default` calls the as-written `new(p2exp)`, so once `8 * cpus > 2^30` (more than `2^27` processors) it builds no shard at `p2exp == 31` and panics from 32 on (`ShardCountAsWrittenAt31`, `ShardCountAsWrittenPanics`).
- The three sharded-map source files are modelled by one class. The `DashMap` seed mixing is `DashMapSeed`.
- Floating point is replaced by exact integers. In `dhashmap2` the load factor `amount / 2^capacity > 0.85` becomes `20 * amount > 17 * 2^capacity`. In `tchashmap` the threshold `capacity as f32 * 0.5` becomes `capacity / 2`, which is exact for powers of two.
- Machine integers are unbounded, except where a shift or a wrap decides behaviour: the `i32` shift `1 << num_chunks_log_2` of `new`, `determine_map`, `compute_index` and the `DashMap` seed. `len` counters and `usize` arithmetic elsewhere are not wrapped.
- Overflowing shifts follow a checked (debug) build where the model panics: `I32OneShl` and `ShardCountAsWritten` panic for a shift of 32 or more, and `TCHashMaps.ComputeIndex` panics past 32 lookup bits. `ShardIndexAsWritten` follows a release build instead, which masks the shift amount, because there the debug panic would hide the out-of-bounds index; its Findings row names both outcomes.
- ChainedTable.Overloaded: `f64::from(1 << self.capacity)` in src/dhashmap2.rs:53-54 is an `i32` shift, which wraps to a negative number at capacity 31 and overflows from 32 on; the model uses the exact `2^capacity`, so it does not capture the load factor such a table would compute. Tables reach capacity 31 only after about `2^30` insertions into one of the sixteen tables.
- ChainedTable.Table.Insert: the model requires `capacity < 63`, so that `1 << (capacity + 1)` fits in a word.
- TCHashMaps.TCHashMap.Resize: requires `1 <= lbc <= 32`; a call from outside `insert` with another width is not modelled.
- TCHashMaps.TCHashMap.Insert: the panic that doubling past 32 lookup bits causes in `compute_index` is reported before any state changes; the source resizes first and then panics.
- Swym's transactional cells are plain array cells. A transaction that fails and retries is not modelled, nor is the `expect` on an undefined transaction error.
- The slab crate's free-list order is not modelled. A slab allocates its smallest vacant key instead, which has the same effect on which objects are live.
- The address of a new slab is an input, required to be apart from the pool's segments. Zero-sized types are excluded (`objSize >= 1`).
- Instants are natural numbers of nanoseconds, and `now` is an input of each operation. `duration_since` saturates at zero (`Common.Elapsed`).
- HashTrie.Table.WithTwoEntries: requires `Separates`, a nonce within the depth bound that sends the two keys to different slots. For keys that no nonce separates (two keys whose `hash_with_nonce`, src/util.rs:59-65, agrees under every nonce) the source recurses one level deeper per nonce until the stack overflows; that divergence is not modelled.
- The tests that insert 1024 or 128 elements are stated for small or arbitrary counts (`Stacks.PushThenPop`, `HashTrie.InsertSharingSlot`, `TCHashMaps.InsertThenGet`). The `tchashmap` test's outcome over 128 keys depends on the concrete `fxhash` values, because later keys overwrite earlier ones that share a cell. The model states a single insert followed by a read.
- `retain` and `alter` apply their closure to each entry as a pure function of the key and value.

## Findings

| source | as written | input that shows it | evidently intended | confidence | as-written member | corrected member |
|---|---|---|---|---|---|---|
| src/dhashmap/mod.rs:331-333 | `hash >> (64 - ncb)` with `ncb == 0` shifts a `u64` by 64 | `new(0)`, any key: the release build masks the shift to 0 and returns the whole hash as the shard index, past the single shard (a debug build panics) | index 0, the only shard | not executed | ShardedMaps.ShardIndexAsWrittenOutOfBounds | ShardedMaps.ShardIndex |
| src/switchmap/vecmap.rs:26-28 | `should_convert` is `len <= THRESHOLD` | an empty `VecMap` asks to be converted, and one with 100 keys does not | convert once `len > THRESHOLD` | not executed | VecMaps.ShouldConvertAsWrittenInverted | VecMaps.VecMap.ShouldConvert |
| src/nestedmap/raw.rs:239-254 | `remove` clears the leaf at the key's slot without comparing its key | remove an absent key whose slot holds another key's leaf: that other key is lost | remove only a leaf whose key equals the key | not executed | HashTrie.RemoveAsWrittenDropsOtherKey | HashTrie.Table.Remove |
| src/experimental/crude.rs:65-72 | `remove` defers destruction of the slot's entry but leaves the slot pointing at it | `insert(k, v)`, `remove(k)`, `get(k)` returns `v` from a destroyed entry | swap the slot to a fresh `Empty` and retire the old entry | not executed | CrudeMaps.RemoveThenGetAsWritten | CrudeMaps.RemoveThenGet |
| src/hltimedcache.rs:32-34 | `to_evict` measures `time.duration_since(now)`, from `now` to the load time | an entry saved and loaded `VALID_DURATION` + 1 ns before `now` is never evicted (`duration_since` saturates at zero since Rust 1.60; before that release it panicked whenever the load time was earlier than `now`, so every check of an older entry panicked) | `now.duration_since(time)`, as in src/timedcache.rs:87, and the `lookup` record dropped with the entry | not executed | HLTimedCaches.ToEvictAsWrittenNeverHolds | HLTimedCaches.Purged |
| src/hltimedcache.rs:162-169 | an entry drained from `unsaved` whose save fails is dropped while `lookup` still says unsaved | `map_mut` a loaded key, then `do_check` with a failing saver, then `map`: the second `unwrap` panics | keep a failed entry in `unsaved` for the next check | not executed | HLTimedCaches.LostAfterFailedSave | HLTimedCaches.KeptAfterFailedSave |
| src/dhashmap/mod.rs:51 | `1 << num_chunks_log_2 as usize` gives the literal `1` no type but the range end, so it is an `i32` | `new(31)`: the shift gives `i32::MIN`, the range `0..ncm` is empty and the map has no shard, while `determine_map` routes keys to shards up to `2^31 - 1`; `new(32)` and above overflow the shift (a panic in a debug build) | `1usize << n`: `2^n` shards, panicking only past `isize::MAX` as documented (src/dhashmap.rs:47 and src/dashmap.rs:55 repeat it) | not executed | ShardedMaps.ShardCountAsWrittenAt31 | ShardedMaps.ShardCount |
| src/switchmap/mod.rs:29-46 | `do_check_convert` converts when `should_convert`, which holds for `len <= THRESHOLD` | a new, empty `SwitchMap` turns into a hash map on its first check | stay a vector until more than THRESHOLD keys | not executed | SwitchMaps.EmptyConvertsAsWritten | SwitchMaps.EmptyStaysFlat |
| src/dhashmap2.rs:61-78 | `insert` appends the entry to its bucket without looking for the key, and `get` returns the first entry with the hash | `insert(k, 1)`, `insert(k, 2)`, `get(k)` returns 1 | replace the value of an entry with the same hash | not executed | ChainedTable.InsertTwiceKeepsFirst | ChainedTable.InsertTwiceReplaces |
