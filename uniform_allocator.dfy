/** The uniform allocator of src/uniform_allocator.rs: pools, chosen by a tag,
    of fixed-capacity slab segments. A pointer is the address of a slab slot,
    `base + key * objSize`; each segment records which pointers it handed out.
    The addresses of fresh segments, the object size and the zeroed object are
    parameters, and each pool's lock is always acquired. */
module UniformAllocators {
  import opened Common

  /** `SlabSegment::new(64)` in `MemoryPool::alloc`. */
  const SEGMENT_CAPACITY: nat := 64

  /** The union of the live objects of several segments. */
  ghost function Union<T>(parts: seq<map<nat, T>>): map<nat, T>
  {
    if parts == [] then map[] else Union(parts[..|parts| - 1]) + parts[|parts| - 1]
  }

  ghost predicate Disjoint<T>(parts: seq<map<nat, T>>)
  {
    forall i, j :: 0 <= i < |parts| && 0 <= j < |parts| && i != j ==> parts[i].Keys !! parts[j].Keys
  }

  lemma {:induction false} UnionKeys<T>(parts: seq<map<nat, T>>, p: nat)
    ensures p in Union(parts) <==> exists i :: 0 <= i < |parts| && p in parts[i]
    decreases |parts|
  {
    if parts != [] {
      var init := parts[..|parts| - 1];
      UnionKeys(init, p);
      if p in Union(init) {
        var i :| 0 <= i < |init| && p in init[i];
        assert parts[i] == init[i];
      }
      if exists i :: 0 <= i < |parts| && p in parts[i] {
        var i :| 0 <= i < |parts| && p in parts[i];
        if i < |init| {
          assert init[i] == parts[i];
        }
      }
    }
  }

  /** With disjoint parts, the union agrees with the part holding the key. */
  lemma {:induction false} UnionAt<T>(parts: seq<map<nat, T>>, i: nat, p: nat)
    requires Disjoint(parts) && i < |parts| && p in parts[i]
    ensures p in Union(parts) && Union(parts)[p] == parts[i][p]
    decreases |parts|
  {
    var init := parts[..|parts| - 1];
    if i < |init| {
      assert Disjoint(init) by {
        forall a, b | 0 <= a < |init| && 0 <= b < |init| && a != b
          ensures init[a].Keys !! init[b].Keys
        {
          assert init[a] == parts[a] && init[b] == parts[b];
        }
      }
      assert init[i] == parts[i];
      UnionAt(init, i, p);
      assert p !in parts[|parts| - 1];
    }
  }

  /** Storing under a key that no other part holds updates the union at that key. */
  lemma {:induction false} UnionInsert<T>(parts: seq<map<nat, T>>, i: nat, p: nat, v: T, m: map<nat, T>)
    requires i < |parts| && m == parts[i][p := v]
    requires forall j :: 0 <= j < |parts| && j != i ==> p !in parts[j]
    ensures Union(parts[i := m]) == Union(parts)[p := v]
    decreases |parts|
  {
    var last := |parts| - 1;
    var init := parts[..last];
    if i == last {
      assert parts[i := m][..last] == init;
    } else {
      assert parts[i := m][..last] == init[i := m];
      UnionInsert(init, i, p, v, m);
      UpdateThenMerge(Union(init), parts[last], p, v);
    }
  }

  lemma UpdateThenMerge<T>(a: map<nat, T>, b: map<nat, T>, p: nat, v: T)
    requires p !in b
    ensures a[p := v] + b == (a + b)[p := v]
  {
  }

  /** Removing a key that no other part holds removes it from the union. */
  lemma {:induction false} UnionRemove<T>(parts: seq<map<nat, T>>, i: nat, p: nat)
    requires i < |parts|
    requires forall j :: 0 <= j < |parts| && j != i ==> p !in parts[j]
    ensures Union(parts[i := parts[i] - {p}]) == Union(parts) - {p}
    decreases |parts|
  {
    var last := |parts| - 1;
    var init := parts[..last];
    if i == last {
      assert parts[i := parts[i] - {p}][..last] == init;
      UnionKeys(init, p);
      MergeThenRemove(Union(init), parts[last], p);
    } else {
      assert parts[i := parts[i] - {p}][..last] == init[i := init[i] - {p}];
      UnionRemove(init, i, p);
      RemoveThenMerge(Union(init), parts[last], p);
    }
  }

  lemma RemoveThenMerge<T>(a: map<nat, T>, b: map<nat, T>, p: nat)
    requires p !in b
    ensures (a - {p}) + b == (a + b) - {p}
  {
  }

  lemma MergeThenRemove<T>(a: map<nat, T>, b: map<nat, T>, p: nat)
    requires p !in a
    ensures a + (b - {p}) == (a + b) - {p}
  {
  }

  lemma UnionAppendEmpty<T>(parts: seq<map<nat, T>>)
    ensures Union(parts + [map[]]) == Union(parts)
  {
    assert (parts + [map[]])[..|parts|] == parts;
  }

  /** The first key from `k` on that is not in `objects`, or `capacity`. */
  function Vacant<T>(objects: map<nat, T>, k: nat, capacity: nat): (r: nat)
    requires k <= capacity
    ensures k <= r <= capacity
    ensures r < capacity ==> r !in objects
    ensures forall j :: k <= j < r ==> j in objects
    decreases capacity - k
  {
    if k == capacity || k !in objects then k else Vacant(objects, k + 1, capacity)
  }

  /** A set holding every key below `n` has at least `n` elements. */
  lemma {:induction false} CoveredCardinality(keys: set<nat>, n: nat)
    requires forall j :: 0 <= j < n ==> j in keys
    ensures |keys| >= n
  {
    if n > 0 {
      CoveredCardinality(keys - {n - 1}, n - 1);
    }
  }

  /** A slab holding fewer objects than its capacity has a vacant key below the
      capacity. */
  lemma HasSpaceVacant<T>(objects: map<nat, T>, capacity: nat)
    requires |objects| < capacity
    ensures Vacant(objects, 0, capacity) < capacity
  {
    if Vacant(objects, 0, capacity) == capacity {
      CoveredCardinality(objects.Keys, capacity);
    }
  }

  /** `key * size`, as repeated addition. */
  function Offset(key: nat, size: nat): nat
  {
    if key == 0 then 0 else Offset(key - 1, size) + size
  }

  lemma {:induction false} OffsetIncreasing(k1: nat, k2: nat, size: nat)
    requires size >= 1 && k1 < k2
    ensures Offset(k1, size) + size <= Offset(k2, size)
    decreases k2
  {
    if k1 < k2 - 1 {
      OffsetIncreasing(k1, k2 - 1, size);
    }
  }

  /** The address of slot `key` of a slab at `base`: `base + key * objSize`. */
  function SlotAddr(base: nat, objSize: nat, key: nat): nat
  {
    base + Offset(key, objSize)
  }

  lemma SlotAddrInjective(base: nat, objSize: nat, k1: nat, k2: nat)
    requires objSize >= 1 && SlotAddr(base, objSize, k1) == SlotAddr(base, objSize, k2)
    ensures k1 == k2
  {
    if k1 < k2 {
      OffsetIncreasing(k1, k2, objSize);
    } else if k2 < k1 {
      OffsetIncreasing(k2, k1, objSize);
    }
  }

  /** The slab's objects, the recorded pointers and the live objects agree:
      each occupied slot below `capacity` is recorded under its own address,
      each record names an occupied slot, and the live object at a recorded
      pointer is the object in its slot. */
  ghost predicate Consistent<T>(objects: map<nat, T>, mappings: map<nat, nat>, live: map<nat, T>,
                                base: nat, objSize: nat, capacity: nat)
  {
    && (forall k :: k in objects ==>
          k < capacity && SlotAddr(base, objSize, k) in mappings && mappings[SlotAddr(base, objSize, k)] == k)
    && (forall p :: p in mappings ==> mappings[p] in objects && SlotAddr(base, objSize, mappings[p]) == p)
    && live.Keys == mappings.Keys
    && (forall p :: p in live ==> live[p] == objects[mappings[p]])
  }

  /** Filling a vacant slot and recording its address keeps the slab consistent. */
  lemma ConsistentFill<T>(objects: map<nat, T>, mappings: map<nat, nat>, live: map<nat, T>,
                          base: nat, objSize: nat, capacity: nat, key: nat, v: T)
    requires Consistent(objects, mappings, live, base, objSize, capacity)
    requires objSize >= 1 && key < capacity && key !in objects
    ensures SlotAddr(base, objSize, key) !in mappings
    ensures var ptr := SlotAddr(base, objSize, key);
      Consistent(objects[key := v], mappings[ptr := key], live[ptr := v], base, objSize, capacity)
  {
    var ptr := SlotAddr(base, objSize, key);
    if ptr in mappings {
      SlotAddrInjective(base, objSize, mappings[ptr], key);
    }
  }

  /** Dropping a recorded pointer and emptying its slot keeps the slab
      consistent. */
  lemma ConsistentEmpty<T>(objects: map<nat, T>, mappings: map<nat, nat>, live: map<nat, T>,
                           base: nat, objSize: nat, capacity: nat, ptr: nat)
    requires Consistent(objects, mappings, live, base, objSize, capacity)
    requires ptr in mappings
    ensures Consistent(objects - {mappings[ptr]}, mappings - {ptr}, live - {ptr}, base, objSize, capacity)
  {
  }

  class SlabSegment<T> {
    const capacity: nat
    /** The address of slot 0 of the slab. */
    const base: nat
    /** The stride between consecutive slots of the slab: the size of one slab
        entry holding a `T`, at least `size_of::<T>()`. */
    const objSize: nat
    /** `mem::zeroed()`. */
    const zero: T
    /** One past the last address of the slab. */
    const limit: nat
    /** The slab: occupied keys and their objects. */
    var objects: map<nat, T>
    /** `mappings`: pointer to slab key. */
    var mappings: map<nat, nat>
    /** The live objects, by pointer. */
    ghost var live: map<nat, T>

    ghost predicate Valid()
      reads this
    {
      && objSize >= 1 && limit == SlotAddr(base, objSize, capacity)
      && Consistent(objects, mappings, live, base, objSize, capacity)
    }

    lemma AddrInRange(k: nat)
      requires objSize >= 1 && limit == SlotAddr(base, objSize, capacity) && k < capacity
      ensures base <= SlotAddr(base, objSize, k) < limit
    {
      OffsetIncreasing(k, capacity, objSize);
    }

    /** Every live pointer lies inside the slab. */
    lemma LiveInRange()
      requires Valid()
      ensures forall p :: p in live ==> base <= p < limit
    {
      forall p | p in live
        ensures base <= p < limit
      {
        AddrInRange(mappings[p]);
      }
    }

    constructor New(capacity: nat, base: nat, objSize: nat, zero: T)
      requires objSize >= 1
      ensures Valid() && live == map[] && objects == map[]
      ensures this.capacity == capacity && this.base == base && this.objSize == objSize && this.zero == zero
      ensures limit == SlotAddr(base, objSize, capacity)
    {
      this.capacity, this.base, this.objSize, this.zero := capacity, base, objSize, zero;
      limit := SlotAddr(base, objSize, capacity);
      objects, mappings, live := map[], map[], map[];
    }

    /** `has_space`: fewer objects than the slab's capacity. */
    predicate HasSpace()
      reads this
    {
      |objects| < capacity
    }

    /** `alloc`: a zeroed object in a vacant slot, whose address is recorded;
        the address was not live before. */
    method Alloc() returns (ptr: nat)
      requires Valid() && HasSpace()
      modifies this
      ensures Valid()
      ensures ptr !in old(live) && live == old(live)[ptr := zero]
      ensures base <= ptr < limit
      ensures |objects| == |old(objects)| + 1
    {
      HasSpaceVacant(objects, capacity);
      var key := Vacant(objects, 0, capacity);
      ptr := SlotAddr(base, objSize, key);
      AddrInRange(key);
      ConsistentFill(objects, mappings, live, base, objSize, capacity, key, zero);
      objects := objects[key := zero];
      mappings := mappings[ptr := key];
      live := live[ptr := zero];
    }

    /** `dealloc`: on a recorded pointer, drop the record and take the object
        out of the slab; on any other pointer, None and nothing changes. */
    method Dealloc(ptr: nat) returns (r: Option<T>)
      requires Valid()
      modifies this
      ensures Valid()
      ensures ptr in old(live) ==> r == Some(old(live)[ptr]) && live == old(live) - {ptr}
      ensures ptr !in old(live) ==> r == None && objects == old(objects) && mappings == old(mappings) && live == old(live)
    {
      if ptr in mappings {
        var key := mappings[ptr];
        r := Some(objects[key]);
        ConsistentEmpty(objects, mappings, live, base, objSize, capacity, ptr);
        objects := objects - {key};
        mappings := mappings - {ptr};
        live := live - {ptr};
      } else {
        r := None;
      }
    }
  }

  /** Two slabs whose address ranges do not overlap. */
  ghost predicate Apart<T>(a: SlabSegment<T>, b: SlabSegment<T>)
  {
    a.limit <= b.base || b.limit <= a.base
  }

  /** Distinct segments with non-overlapping address ranges. */
  ghost predicate Separated<T>(segments: seq<SlabSegment<T>>)
  {
    forall i, j :: 0 <= i < |segments| && 0 <= j < |segments| && i != j ==>
      segments[i] != segments[j] && Apart(segments[i], segments[j])
  }

  /** A new segment apart from every existing one keeps them separated. */
  lemma SeparatedAppend<T>(segments: seq<SlabSegment<T>>, s: SlabSegment<T>)
    requires Separated(segments) && s !in segments
    requires forall i :: 0 <= i < |segments| ==> Apart(segments[i], s)
    ensures Separated(segments + [s])
  {
  }

  /** A valid segment of a pool: 64 slots of objects of the pool's size,
      whose live objects are `part`. */
  ghost predicate Fits<T>(s: SlabSegment<T>, objSize: nat, zero: T, part: map<nat, T>)
    reads s
  {
    && s.Valid() && s.capacity == SEGMENT_CAPACITY
    && s.objSize == objSize && s.zero == zero && part == s.live
  }

  class MemoryPool<T> {
    const objSize: nat
    const zero: T
    var segments: seq<SlabSegment<T>>
    /** The live objects of each segment, in segment order. */
    ghost var parts: seq<map<nat, T>>
    /** The pool and its segments. */
    ghost var Repr: set<object>

    ghost predicate Valid()
      reads this, Repr
    {
      && this in Repr && (forall i :: 0 <= i < |segments| ==> segments[i] in Repr)
      && objSize >= 1
      && |parts| == |segments|
      && (forall i :: 0 <= i < |segments| ==> Fits(segments[i], objSize, zero, parts[i]))
      && Separated(segments)
    }

    /** The live objects of the pool, by pointer. */
    ghost function Live(): map<nat, T>
      reads this
    {
      Union(parts)
    }

    /** No live pointer of another segment lies in the range of segment `i`. */
    lemma OutsideRange(i: nat, p: nat)
      requires Valid() && i < |segments| && segments[i].base <= p < segments[i].limit
      ensures forall j :: 0 <= j < |segments| && j != i ==> p !in parts[j]
    {
      forall j | 0 <= j < |segments| && j != i && p in parts[j]
        ensures false
      {
        segments[j].LiveInRange();
      }
    }

    /** The live pointers of different segments are different. */
    lemma PartsDisjoint()
      requires Valid()
      ensures Disjoint(parts)
    {
      forall i, j | 0 <= i < |parts| && 0 <= j < |parts| && i != j
        ensures parts[i].Keys !! parts[j].Keys
      {
        segments[i].LiveInRange();
        segments[j].LiveInRange();
      }
    }

    constructor New(objSize: nat, zero: T)
      requires objSize >= 1
      ensures Valid() && fresh(Repr) && segments == [] && Live() == map[]
      ensures this.objSize == objSize && this.zero == zero
    {
      this.objSize, this.zero := objSize, zero;
      segments, parts := [], [];
      Repr := {this};
    }

    /** The allocation in segment `index` that ends the search of `alloc`. */
    method AllocIn(index: nat) returns (ptr: nat)
      requires Valid() && index < |segments| && segments[index].HasSpace()
      modifies this, segments[index]
      ensures Valid() && segments == old(segments) && Repr == old(Repr)
      ensures ptr !in old(Live()) && Live() == old(Live())[ptr := zero]
      ensures segments[index].base <= ptr < segments[index].limit
    {
      ghost var before := parts;
      ptr := segments[index].Alloc();
      parts := parts[index := segments[index].live];
      OutsideRange(index, ptr);
      UnionKeys(before, ptr);
      UnionInsert(before, index, ptr, zero, parts[index]);
    }

    /** `segments.push_back(SlabSegment::new(64))`, at the address `freshBase`. */
    method Grow(freshBase: nat)
      requires Valid()
      requires forall i :: 0 <= i < |segments| ==>
        segments[i].limit <= freshBase || freshBase + Offset(SEGMENT_CAPACITY, objSize) <= segments[i].base
      modifies this
      ensures Valid() && Live() == old(Live()) && fresh(Repr - old(Repr))
      ensures |segments| == |old(segments)| + 1 && segments[..|old(segments)|] == old(segments)
      ensures var s := segments[|old(segments)|]; fresh(s) && s.base == freshBase && s.HasSpace()
    {
      var segment := new SlabSegment.New(SEGMENT_CAPACITY, freshBase, objSize, zero);
      UnionAppendEmpty(parts);
      assert Fits(segment, objSize, zero, map[]);
      SeparatedAppend(segments, segment);
      segments, parts := segments + [segment], parts + [map[]];
      Repr := Repr + {segment};
    }

    /** The search loop of `alloc`: segments are examined in order from index 0
        and the first with space is taken; a search that runs past the last
        segment appends a new one, which has space, and takes it. */
    method Search(freshBase: nat) returns (i: nat)
      requires Valid()
      requires forall i :: 0 <= i < |segments| ==>
        segments[i].limit <= freshBase || freshBase + Offset(SEGMENT_CAPACITY, objSize) <= segments[i].base
      modifies this
      ensures Valid() && Live() == old(Live()) && fresh(Repr - old(Repr))
      ensures |old(segments)| <= |segments| <= |old(segments)| + 1
      ensures segments[..|old(segments)|] == old(segments)
      ensures i < |segments| && segments[i].HasSpace()
      ensures forall j :: 0 <= j < i ==> !old(segments[j].HasSpace())
      ensures |segments| > |old(segments)| ==>
        && i == |old(segments)| && fresh(segments[i]) && segments[i].base == freshBase
    {
      i := 0;
      while i < |segments| && !segments[i].HasSpace()
        invariant i <= |segments|
        invariant forall j :: 0 <= j < i ==> !segments[j].HasSpace()
      {
        i := i + 1;
      }
      if i == |segments| {
        Grow(freshBase);
      }
    }

    /** `alloc`: the first segment with space takes the object; when none has
        space, a new segment (at the fresh address `freshBase`) is appended and
        takes it. Segments are never removed. */
    method Alloc(freshBase: nat) returns (ptr: nat, ghost index: nat)
      requires Valid()
      requires forall i :: 0 <= i < |segments| ==>
        segments[i].limit <= freshBase || freshBase + Offset(SEGMENT_CAPACITY, objSize) <= segments[i].base
      modifies Repr
      ensures Valid() && fresh(Repr - old(Repr))
      ensures ptr !in old(Live()) && Live() == old(Live())[ptr := zero]
      ensures |old(segments)| <= |segments| <= |old(segments)| + 1
      ensures segments[..|old(segments)|] == old(segments)
      ensures |segments| > |old(segments)| ==> fresh(segments[|old(segments)|])
      ensures index < |segments| && segments[index].base <= ptr < segments[index].limit
      ensures forall j :: 0 <= j < index ==> !old(segments[j].HasSpace())
      ensures index < |old(segments)| ==> old(segments[index].HasSpace())
      ensures |segments| > |old(segments)| ==> index == |old(segments)| && segments[index].base == freshBase
    {
      var i := Search(freshBase);
      ptr := AllocIn(i);
      index := i;
    }

    /** One step of the search of `dealloc`: segment `index`'s `dealloc`. */
    method DeallocAt(index: nat, ptr: nat) returns (r: Option<T>)
      requires Valid() && index < |segments|
      modifies this, segments[index]
      ensures Valid() && segments == old(segments) && Repr == old(Repr)
      ensures ptr in old(parts[index]) ==> r == Some(old(parts[index][ptr])) && Live() == old(Live()) - {ptr}
      ensures ptr !in old(parts[index]) ==> r == None && parts == old(parts)
    {
      ghost var before := parts;
      if ptr in parts[index] {
        segments[index].LiveInRange();
        PartsDisjoint();
        UnionAt(parts, index, ptr);
      }
      r := segments[index].Dealloc(ptr);
      if r.Some? {
        parts := parts[index := segments[index].live];
        OutsideRange(index, ptr);
        UnionRemove(before, index, ptr);
      }
    }

    /** `dealloc`: the segments are tried in order and the first hit is
        returned; otherwise None. */
    method Dealloc(ptr: nat) returns (r: Option<T>)
      requires Valid()
      modifies Repr
      ensures Valid() && segments == old(segments) && Repr == old(Repr)
      ensures ptr in old(Live()) ==> r == Some(old(Live())[ptr]) && Live() == old(Live()) - {ptr}
      ensures ptr !in old(Live()) ==> r == None && Live() == old(Live())
    {
      PartsDisjoint();
      for i := 0 to |segments|
        invariant Valid() && segments == old(segments) && parts == old(parts) && Repr == old(Repr)
        invariant forall j :: 0 <= j < i ==> ptr !in parts[j]
      {
        r := DeallocAt(i, ptr);
        if r.Some? {
          UnionAt(old(parts), i, ptr);
          return;
        }
      }
      UnionKeys(parts, ptr);
      r := None;
    }
  }

  class UniformAllocator<T> {
    const poolCount: nat
    const pools: seq<MemoryPool<T>>

    ghost predicate Valid()
      reads this, pools, set p, o | p in pools && o in p.Repr :: o
    {
      && poolCount == |pools|
      && (forall i :: 0 <= i < |pools| ==> pools[i].Valid())
      && (forall i, j :: 0 <= i < |pools| && 0 <= j < |pools| && i != j ==> pools[i].Repr !! pools[j].Repr)
    }

    /** `new(pool_count)`: that many empty pools. */
    constructor New(poolCount: nat, objSize: nat, zero: T)
      requires objSize >= 1
      ensures Valid() && this.poolCount == poolCount
      ensures forall i :: 0 <= i < poolCount ==>
        && fresh(pools[i].Repr) && pools[i].Live() == map[]
        && pools[i].objSize == objSize && pools[i].zero == zero
    {
      var made: seq<MemoryPool<T>> := [];
      for i := 0 to poolCount
        invariant |made| == i
        invariant forall j :: 0 <= j < i ==>
          && fresh(made[j].Repr) && made[j].Valid() && made[j].segments == [] && made[j].Live() == map[]
          && made[j].objSize == objSize && made[j].zero == zero
        invariant forall j, k :: 0 <= j < k < i ==> made[j].Repr !! made[k].Repr
      {
        var pool := new MemoryPool.New(objSize, zero);
        made := made + [pool];
      }
      this.poolCount, pools := poolCount, made;
    }

    /** The pool a tag is routed to: `tag % pool_count`, which panics when
        there are no pools. */
    function PoolIndex(tag: nat): (r: Checked<nat>)
      reads this
      ensures r.Panics? <==> poolCount == 0
      ensures r.Returns? ==> r.value < poolCount && (tag < poolCount ==> r.value == tag)
    {
      if poolCount == 0 then Panics else Returns(tag % poolCount)
    }

    /** The objects an operation with `tag` may change: the tag's pool. */
    ghost function Target(tag: nat): set<object>
      reads this, pools
    {
      if poolCount == |pools| && poolCount > 0 then pools[tag % poolCount].Repr else {}
    }

    /** `alloc(tag)`: allocate from the tag's pool; the other pools are
        untouched. */
    method Alloc(tag: nat, freshBase: nat) returns (r: Checked<nat>)
      requires Valid()
      requires poolCount > 0 ==> Fresh(pools[PoolIndex(tag).value], freshBase)
      modifies Target(tag)
      ensures Valid()
      ensures r.Panics? <==> poolCount == 0
      ensures r.Returns? ==> var pool := pools[PoolIndex(tag).value];
        && r.value !in old(pool.Live()) && pool.Live() == old(pool.Live())[r.value := pool.zero]
        && fresh(pool.Repr - old(pool.Repr))
      ensures forall i :: 0 <= i < poolCount && (poolCount == 0 || i != PoolIndex(tag).value) ==>
        pools[i].Live() == old(pools[i].Live())
    {
      if poolCount == 0 {
        return Panics;
      }
      var k := PoolIndex(tag).value;
      var pool := pools[k];
      var ptr, index := pool.Alloc(freshBase);
      forall i | 0 <= i < |pools| && i != k
        ensures pools[i].Valid() && pools[i].Live() == old(pools[i].Live())
        ensures pools[i].Repr !! pool.Repr
      {
        assert old(pools[i].Repr !! pool.Repr);
      }
      r := Returns(ptr);
    }

    /** `dealloc(tag, ptr)`: deallocate through the tag's pool. */
    method Dealloc(tag: nat, ptr: nat) returns (r: Checked<Option<T>>)
      requires Valid()
      modifies Target(tag)
      ensures Valid()
      ensures r.Panics? <==> poolCount == 0
      ensures r.Returns? ==> var pool := pools[PoolIndex(tag).value];
        && (ptr in old(pool.Live()) ==> r.value == Some(old(pool.Live())[ptr]) && pool.Live() == old(pool.Live()) - {ptr})
        && (ptr !in old(pool.Live()) ==> r.value == None && pool.Live() == old(pool.Live()))
        && pool.Repr == old(pool.Repr)
      ensures forall i :: 0 <= i < poolCount && (poolCount == 0 || i != PoolIndex(tag).value) ==>
        pools[i].Live() == old(pools[i].Live())
    {
      if poolCount == 0 {
        return Panics;
      }
      var k := PoolIndex(tag).value;
      var pool := pools[k];
      var v := pool.Dealloc(ptr);
      forall i | 0 <= i < |pools| && i != k
        ensures pools[i].Valid() && pools[i].Live() == old(pools[i].Live())
      {
        assert old(pools[i].Repr !! pool.Repr);
      }
      r := Returns(v);
    }
  }

  /** `freshBase` is a range of 64 slots apart from every segment of `pool`. */
  ghost predicate Fresh<T>(pool: MemoryPool<T>, freshBase: nat)
    reads pool, pool.segments
  {
    forall i :: 0 <= i < |pool.segments| ==>
      pool.segments[i].limit <= freshBase || freshBase + Offset(SEGMENT_CAPACITY, pool.objSize) <= pool.segments[i].base
  }

  /** Allocating with a tag and deallocating the pointer with the same tag gives
      back the zeroed object. */
  method AllocThenDealloc<T>(a: UniformAllocator<T>, tag: nat, freshBase: nat) returns (r: Checked<Option<T>>)
    requires a.Valid() && a.poolCount > 0
    requires Fresh(a.pools[a.PoolIndex(tag).value], freshBase)
    modifies a.Target(tag)
    ensures r == Returns(Some(a.pools[a.PoolIndex(tag).value].zero))
  {
    var p := a.Alloc(tag, freshBase);
    r := a.Dealloc(tag, p.value);
  }
}
