/** `DHashMap2` (src/dhashmap2.rs): 2^4 tables behind locks; each table is a
    vector of 2^capacity buckets, each bucket a vector of entries. Insertion
    appends without looking for the key; once a collision finds the table's load
    above 0.85 the table doubles and every entry is re-placed. Lookup returns the
    first entry of the key's bucket whose key has the same hash. */
module ChainedTable {
  import opened Common

  /** log2 of the number of tables */
  const TABLE_AMOUNT: nat := 4
  /** log2 of the number of buckets a new table starts with */
  const DEFAULT_TABLE_CAPACITY: nat := 2

  datatype Entry<K, V> = Entry(key: K, value: V)

  /** `calculate_index`: the low `bits` bits of the hash. */
  function CalculateIndex(hash: U64, bits: nat): (i: nat)
    ensures i < Pow2(bits)
  {
    hash % Pow2(bits)
  }

  /** `is_overloaded`: `amount / 2^capacity > 0.85`, in integers. */
  function Overloaded(amount: nat, capacity: nat): bool
  {
    20 * amount > 17 * Pow2(capacity)
  }

  /** The entries of all buckets in bucket order (`into_iter().flatten()`). */
  function Flatten<T>(buckets: seq<seq<T>>): seq<T>
  {
    if buckets == [] then [] else buckets[0] + Flatten(buckets[1..])
  }

  lemma {:induction false} FlattenPush<T>(buckets: seq<seq<T>>, i: nat, x: T)
    requires i < |buckets|
    ensures multiset(Flatten(buckets[i := buckets[i] + [x]])) == multiset(Flatten(buckets)) + multiset{x}
  {
    var pushed := buckets[i := buckets[i] + [x]];
    if i == 0 {
      assert pushed[1..] == buckets[1..];
    } else {
      FlattenPush(buckets[1..], i - 1, x);
      assert pushed[1..] == buckets[1..][i - 1 := buckets[1..][i - 1] + [x]];
    }
  }

  /** Replacing one entry keeps the number of entries, and every entry after
      it was there before or is the new one. */
  lemma {:induction false} FlattenReplace<T>(buckets: seq<seq<T>>, i: nat, j: nat, x: T)
    requires i < |buckets| && j < |buckets[i]|
    ensures |Flatten(buckets[i := buckets[i][j := x]])| == |Flatten(buckets)|
    ensures forall y :: y in Flatten(buckets[i := buckets[i][j := x]]) ==> y in Flatten(buckets) || y == x
  {
    var replaced := buckets[i := buckets[i][j := x]];
    if i == 0 {
      assert replaced[1..] == buckets[1..];
      forall y | y in replaced[0]
        ensures y in buckets[0] || y == x
      {
        var l :| 0 <= l < |replaced[0]| && replaced[0][l] == y;
        if l != j {
          assert buckets[0][l] == y;
        }
      }
    } else {
      FlattenReplace(buckets[1..], i - 1, j, x);
      assert replaced[1..] == buckets[1..][i - 1 := buckets[1..][i - 1][j := x]];
    }
  }

  lemma TakeOneMore<T>(s: seq<T>, i: nat)
    requires i < |s|
    ensures s[..i + 1] == s[..i] + [s[i]]
  {
  }

  lemma {:induction false} FlattenEmpty<T>(buckets: seq<seq<T>>)
    requires forall i :: 0 <= i < |buckets| ==> buckets[i] == []
    ensures Flatten(buckets) == []
  {
    if buckets != [] {
      FlattenEmpty(buckets[1..]);
    }
  }

  /** An element of the flattened buckets is an element of one bucket, and back. */
  lemma {:induction false} FlattenMembership<T>(buckets: seq<seq<T>>, x: T)
    ensures x in Flatten(buckets) <==> exists i, j :: 0 <= i < |buckets| && 0 <= j < |buckets[i]| && buckets[i][j] == x
  {
    if buckets != [] {
      FlattenMembership(buckets[1..], x);
      if x in Flatten(buckets[1..]) {
        var i, j :| 0 <= i < |buckets[1..]| && 0 <= j < |buckets[1..][i]| && buckets[1..][i][j] == x;
        assert buckets[i + 1][j] == x;
      }
      if x in buckets[0] {
        var j :| 0 <= j < |buckets[0]| && buckets[0][j] == x;
        assert buckets[0][j] == x;
      }
      if exists i, j :: 0 <= i < |buckets| && 0 <= j < |buckets[i]| && buckets[i][j] == x {
        var i, j :| 0 <= i < |buckets| && 0 <= j < |buckets[i]| && buckets[i][j] == x;
        if i > 0 {
          assert buckets[1..][i - 1][j] == x;
        }
      }
    }
  }

  /** `Vec::with_capacity(n)` filled with n empty buckets. */
  method EmptyStorage<K, V>(n: nat) returns (storage: seq<seq<Entry<K, V>>>)
    ensures |storage| == n
    ensures forall i :: 0 <= i < n ==> storage[i] == []
  {
    storage := [];
    for i := 0 to n
      invariant |storage| == i
      invariant forall j :: 0 <= j < i ==> storage[j] == []
    {
      storage := storage + [[]];
    }
  }

  /** Every entry sits in the bucket its key's hash selects. */
  ghost predicate Placed<K, V>(buckets: seq<seq<Entry<K, V>>>, hash: K -> U64, bits: nat)
  {
    forall i, j :: 0 <= i < |buckets| && 0 <= j < |buckets[i]| ==> CalculateIndex(hash(buckets[i][j].key), bits) == i
  }

  lemma PlacedPush<K, V>(buckets: seq<seq<Entry<K, V>>>, hash: K -> U64, bits: nat, i: nat, e: Entry<K, V>)
    requires Placed(buckets, hash, bits) && i < |buckets| && CalculateIndex(hash(e.key), bits) == i
    ensures Placed(buckets[i := buckets[i] + [e]], hash, bits)
  {
  }

  /** The value of the first entry of `bucket` whose key hashes to `h`: what a
      lookup by hash finds. */
  function FirstWithHash<K, V>(bucket: seq<Entry<K, V>>, hash: K -> U64, h: U64): (r: Option<V>)
    ensures r.None? <==> forall j :: 0 <= j < |bucket| ==> hash(bucket[j].key) != h
  {
    if bucket == [] then None
    else if hash(bucket[0].key) == h then Some(bucket[0].value)
    else FirstWithHash(bucket[1..], hash, h)
  }

  /** The entry at `j` is the one found when no entry before it has the hash. */
  lemma {:induction false} FirstWithHashAt<K, V>(bucket: seq<Entry<K, V>>, hash: K -> U64, h: U64, j: nat)
    requires j < |bucket| && hash(bucket[j].key) == h
    requires forall i :: 0 <= i < j ==> hash(bucket[i].key) != h
    ensures FirstWithHash(bucket, hash, h) == Some(bucket[j].value)
  {
    if j > 0 {
      FirstWithHashAt(bucket[1..], hash, h, j - 1);
    }
  }

  /** A lookup in a concatenation looks in the second part only when the first
      part holds no entry with the hash. */
  lemma {:induction false} FirstWithHashAppend<K, V>(a: seq<Entry<K, V>>, b: seq<Entry<K, V>>, hash: K -> U64, h: U64)
    ensures FirstWithHash(a + b, hash, h) ==
      if FirstWithHash(a, hash, h).Some? then FirstWithHash(a, hash, h) else FirstWithHash(b, hash, h)
  {
    if a != [] {
      assert (a + b)[1..] == a[1..] + b;
      FirstWithHashAppend(a[1..], b, hash, h);
    } else {
      assert a + b == b;
    }
  }

  /** Replacing an entry by one whose key has the same hash changes no lookup
      for another hash. */
  lemma {:induction false} FirstWithHashReplace<K, V>(bucket: seq<Entry<K, V>>, hash: K -> U64, j: nat, e: Entry<K, V>, x: U64)
    requires j < |bucket| && hash(e.key) == hash(bucket[j].key) != x
    ensures FirstWithHash(bucket[j := e], hash, x) == FirstWithHash(bucket, hash, x)
  {
    if j > 0 {
      assert bucket[j := e][1..] == bucket[1..][j - 1 := e];
      FirstWithHashReplace(bucket[1..], hash, j - 1, e, x);
    }
  }

  /** The entries, in their order, that `insert_no_check` sends to bucket `i`
      of a table with `bits` bits. */
  function InBucket<K, V>(entries: seq<Entry<K, V>>, hash: K -> U64, bits: nat, i: nat): (r: seq<Entry<K, V>>)
    ensures |r| <= |entries|
    ensures forall j :: 0 <= j < |r| ==> CalculateIndex(hash(r[j].key), bits) == i && r[j] in entries
  {
    if entries == [] then []
    else
      var rest := InBucket(entries[1..], hash, bits, i);
      if CalculateIndex(hash(entries[0].key), bits) == i then [entries[0]] + rest else rest
  }

  lemma {:induction false} InBucketSnoc<K, V>(entries: seq<Entry<K, V>>, e: Entry<K, V>, hash: K -> U64, bits: nat, i: nat)
    ensures InBucket(entries + [e], hash, bits, i) ==
      InBucket(entries, hash, bits, i) + if CalculateIndex(hash(e.key), bits) == i then [e] else []
  {
    if entries == [] {
      assert [e][1..] == [];
    } else {
      assert (entries + [e])[1..] == entries[1..] + [e];
      InBucketSnoc(entries[1..], e, hash, bits, i);
    }
  }

  /** Appending an entry to the bucket of its hash extends the placement of a
      prefix of the entries to the placement of one more. */
  lemma InBucketPush<K, V>(start: seq<seq<Entry<K, V>>>, buckets: seq<seq<Entry<K, V>>>, done: seq<Entry<K, V>>,
                           e: Entry<K, V>, hash: K -> U64, bits: nat)
    requires |buckets| == |start| && CalculateIndex(hash(e.key), bits) < |buckets|
    requires forall b :: 0 <= b < |buckets| ==> buckets[b] == start[b] + InBucket(done, hash, bits, b)
    ensures var i := CalculateIndex(hash(e.key), bits);
      forall b :: 0 <= b < |buckets| ==> buckets[i := buckets[i] + [e]][b] == start[b] + InBucket(done + [e], hash, bits, b)
  {
    forall b | 0 <= b < |buckets|
      ensures InBucket(done + [e], hash, bits, b) ==
        InBucket(done, hash, bits, b) + if CalculateIndex(hash(e.key), bits) == b then [e] else []
    {
      InBucketSnoc(done, e, hash, bits, b);
    }
  }

  /** The bucket a hash selects keeps every entry with that hash, in order, so
      a lookup there finds what a lookup in all the entries finds. */
  lemma {:induction false} FirstInBucket<K, V>(entries: seq<Entry<K, V>>, hash: K -> U64, bits: nat, h: U64)
    ensures FirstWithHash(InBucket(entries, hash, bits, CalculateIndex(h, bits)), hash, h) == FirstWithHash(entries, hash, h)
  {
    if entries != [] {
      FirstInBucket(entries[1..], hash, bits, h);
      var i := CalculateIndex(h, bits);
      var rest := InBucket(entries[1..], hash, bits, i);
      if CalculateIndex(hash(entries[0].key), bits) == i {
        assert ([entries[0]] + rest)[1..] == rest;
      }
    }
  }

  /** When only bucket `i` can hold entries with hash `h`, a lookup in all the
      entries, bucket by bucket, is a lookup in that bucket (none when `i` is no
      bucket). */
  lemma {:induction false} FirstInFlatten<K, V>(buckets: seq<seq<Entry<K, V>>>, hash: K -> U64, h: U64, i: int)
    requires forall b, j :: 0 <= b < |buckets| && b != i && 0 <= j < |buckets[b]| ==> hash(buckets[b][j].key) != h
    ensures FirstWithHash(Flatten(buckets), hash, h) == if 0 <= i < |buckets| then FirstWithHash(buckets[i], hash, h) else None
  {
    if buckets != [] {
      FirstWithHashAppend(buckets[0], Flatten(buckets[1..]), hash, h);
      forall b, j | 0 <= b < |buckets[1..]| && b != i - 1 && 0 <= j < |buckets[1..][b]|
        ensures hash(buckets[1..][b][j].key) != h
      {
        assert buckets[1..][b] == buckets[b + 1];
      }
      FirstInFlatten(buckets[1..], hash, h, i - 1);
    }
  }

  /** Re-placing every entry, bucket by bucket, into a table of `newBits` bits
      changes no lookup. */
  lemma RehashKeepsFirst<K, V>(buckets: seq<seq<Entry<K, V>>>, rehashed: seq<seq<Entry<K, V>>>,
                               hash: K -> U64, bits: nat, newBits: nat, h: U64)
    requires Placed(buckets, hash, bits) && |buckets| == Pow2(bits) && |rehashed| == Pow2(newBits)
    requires forall b :: 0 <= b < |rehashed| ==> rehashed[b] == InBucket(Flatten(buckets), hash, newBits, b)
    ensures FirstWithHash(rehashed[CalculateIndex(h, newBits)], hash, h) == FirstWithHash(buckets[CalculateIndex(h, bits)], hash, h)
  {
    FirstInBucket(Flatten(buckets), hash, newBits, h);
    FirstInFlatten(buckets, hash, h, CalculateIndex(h, bits));
  }

  lemma RehashKeepsAll<K, V>(buckets: seq<seq<Entry<K, V>>>, rehashed: seq<seq<Entry<K, V>>>,
                             hash: K -> U64, bits: nat, newBits: nat)
    requires Placed(buckets, hash, bits) && |buckets| == Pow2(bits) && |rehashed| == Pow2(newBits)
    requires forall b :: 0 <= b < |rehashed| ==> rehashed[b] == InBucket(Flatten(buckets), hash, newBits, b)
    ensures forall h: U64 {:trigger CalculateIndex(h, newBits)} ::
      FirstWithHash(rehashed[CalculateIndex(h, newBits)], hash, h) == FirstWithHash(buckets[CalculateIndex(h, bits)], hash, h)
  {
    forall h: U64
      ensures FirstWithHash(rehashed[CalculateIndex(h, newBits)], hash, h) == FirstWithHash(buckets[CalculateIndex(h, bits)], hash, h)
    {
      RehashKeepsFirst(buckets, rehashed, hash, bits, newBits, h);
    }
  }

  /** Overwriting the first entry with a hash by another entry with that hash
      changes only the lookup of that hash, which finds the new value. */
  lemma OverwriteFirst<K, V>(buckets: seq<seq<Entry<K, V>>>, hash: K -> U64, bits: nat, j: nat, e: Entry<K, V>, x: U64)
    requires |buckets| == Pow2(bits)
    requires var i := CalculateIndex(hash(e.key), bits);
      && j < |buckets[i]| && hash(buckets[i][j].key) == hash(e.key)
      && forall l :: 0 <= l < j ==> hash(buckets[i][l].key) != hash(e.key)
    ensures var i := CalculateIndex(hash(e.key), bits);
      FirstWithHash(buckets[i := buckets[i][j := e]][CalculateIndex(x, bits)], hash, x) ==
        if x == hash(e.key) then Some(e.value) else FirstWithHash(buckets[CalculateIndex(x, bits)], hash, x)
  {
    var i := CalculateIndex(hash(e.key), bits);
    if x == hash(e.key) {
      FirstWithHashAt(buckets[i][j := e], hash, x, j);
    } else if CalculateIndex(x, bits) == i {
      FirstWithHashReplace(buckets[i], hash, j, e, x);
    }
  }

  /** Appending an entry to the bucket of its hash changes only the lookup of
      that hash, and that one only when it found nothing before. */
  lemma PushKeepsFirst<K, V>(buckets: seq<seq<Entry<K, V>>>, hash: K -> U64, bits: nat, e: Entry<K, V>, x: U64)
    requires |buckets| == Pow2(bits)
    ensures var i := CalculateIndex(hash(e.key), bits);
      var first := FirstWithHash(buckets[CalculateIndex(x, bits)], hash, x);
      FirstWithHash(buckets[i := buckets[i] + [e]][CalculateIndex(x, bits)], hash, x) ==
        if x == hash(e.key) && first.None? then Some(e.value) else first
  {
    var i := CalculateIndex(hash(e.key), bits);
    FirstWithHashAppend(buckets[i], [e], hash, x);
    assert [e][1..] == [];
  }

  lemma PlacedReplace<K, V>(buckets: seq<seq<Entry<K, V>>>, hash: K -> U64, bits: nat, j: nat, e: Entry<K, V>)
    requires Placed(buckets, hash, bits)
    requires var i := CalculateIndex(hash(e.key), bits); i < |buckets| && j < |buckets[i]|
    ensures var i := CalculateIndex(hash(e.key), bits); Placed(buckets[i := buckets[i][j := e]], hash, bits)
  {
  }

  class Table<K, V> {
    var data: seq<seq<Entry<K, V>>>
    /** log2 of the number of buckets */
    var capacity: nat
    /** the number of entries */
    var amount: nat
    /** `calculate_hash` (FxHasher64) */
    const hash: K -> U64

    ghost predicate Valid()
      reads this
    {
      && capacity < 64
      && |data| == Pow2(capacity)
      && amount == |Flatten(data)|
      && Placed(data, hash, capacity)
    }

    ghost function Elements(): multiset<Entry<K, V>>
      reads this
    {
      multiset(Flatten(data))
    }

    /** What a lookup by the hash `h` finds: the value of the first entry of the
        bucket `h` selects whose key hashes to `h`; None exactly when no entry
        of the table has that hash. */
    ghost function Lookup(h: U64): (r: Option<V>)
      requires Valid()
      reads this
      ensures r.None? <==> forall e :: e in Elements() ==> hash(e.key) != h
    {
      HashedEntriesInBucket(h);
      FirstWithHash(data[CalculateIndex(h, capacity)], hash, h)
    }

    /** `Table::new(capacity)`: 2^capacity empty buckets; `1 << capacity` must fit. */
    constructor New(capacity: nat, hash: K -> U64)
      requires capacity < 64
      ensures Valid() && this.capacity == capacity && this.hash == hash
      ensures amount == 0 && Elements() == multiset{}
      ensures |data| == Pow2(capacity) && forall i :: 0 <= i < |data| ==> data[i] == []
    {
      var storage := EmptyStorage(Pow2(capacity));
      data := storage;
      this.capacity := capacity;
      amount := 0;
      this.hash := hash;
      FlattenEmpty(storage);
    }

    /** `len`: the number of entries. */
    function Len(): (n: nat)
      requires Valid()
      reads this
      ensures n == |Elements()|
    {
      amount
    }

    /** `capacity`: the number of buckets. */
    function Capacity(): (n: nat)
      requires Valid()
      reads this
      ensures n == |data| && n == Pow2(capacity)
    {
      Pow2(capacity)
    }

    /** `insert_no_check`: append the entry to the end of its bucket. */
    method InsertNoCheck(k: K, v: V, h: U64)
      requires Valid() && h == hash(k)
      modifies this
      ensures Valid() && capacity == old(capacity)
      ensures data == old(data)[CalculateIndex(h, capacity) := old(data)[CalculateIndex(h, capacity)] + [Entry(k, v)]]
      ensures amount == old(amount) + 1
      ensures Elements() == old(Elements()) + multiset{Entry(k, v)}
    {
      var index := CalculateIndex(h, capacity);
      FlattenPush(data, index, Entry(k, v));
      PlacedPush(data, hash, capacity, index, Entry(k, v));
      data := data[index := data[index] + [Entry(k, v)]];
      assert |Flatten(data)| == |Elements()| == |old(Elements())| + 1;
      amount := amount + 1;
    }

    /** `insert`: append the entry; if its bucket was already occupied and the
        table is now overloaded, double the table. `1 << (capacity + 1)` must fit. */
    method Insert(k: K, v: V, h: U64)
      requires Valid() && h == hash(k) && capacity < 63
      modifies this
      ensures Valid()
      ensures amount == old(amount) + 1
      ensures Elements() == old(Elements()) + multiset{Entry(k, v)}
      ensures var index := CalculateIndex(h, old(capacity));
              var grows := old(data)[index] != [] && Overloaded(old(amount) + 1, old(capacity));
              && capacity == (if grows then old(capacity) + 1 else old(capacity))
              && (!grows ==> data == old(data)[index := old(data)[index] + [Entry(k, v)]])
              && (grows ==> forall b :: 0 <= b < |data| ==>
                    data[b] == InBucket(Flatten(old(data)[index := old(data)[index] + [Entry(k, v)]]), hash, capacity, b))
      ensures forall x :: Lookup(x) == if x == h && old(Lookup(x)).None? then Some(v) else old(Lookup(x))
    {
      var wasEmpty := data[CalculateIndex(h, capacity)] == [];
      forall x
        ensures Lookup(x) == old(Lookup(x))
        ensures var index := CalculateIndex(h, capacity);
          FirstWithHash(data[index := data[index] + [Entry(k, v)]][CalculateIndex(x, capacity)], hash, x) ==
            if x == h && Lookup(x).None? then Some(v) else Lookup(x)
      {
        PushKeepsFirst(data, hash, capacity, Entry(k, v), x);
      }
      InsertNoCheck(k, v, h);
      if !wasEmpty && Overloaded(amount, capacity) {
        Realloc(capacity + 1);
      }
    }

    /** Overwrite the first entry with the hash of `e.key`, at `j` in its bucket. */
    method Overwrite(j: nat, e: Entry<K, V>)
      requires Valid()
      requires var i := CalculateIndex(hash(e.key), capacity);
        && j < |data[i]| && hash(data[i][j].key) == hash(e.key)
        && forall l :: 0 <= l < j ==> hash(data[i][l].key) != hash(e.key)
      modifies this
      ensures Valid() && capacity == old(capacity) && amount == old(amount)
      ensures old(Lookup(hash(e.key))).Some?
      ensures forall x :: Lookup(x) == if x == hash(e.key) then Some(e.value) else old(Lookup(x))
      ensures forall y :: y in Elements() ==> y in old(Elements()) || y == e
    {
      var i := CalculateIndex(hash(e.key), capacity);
      FirstWithHashAt(data[i], hash, hash(e.key), j);
      forall x
        ensures FirstWithHash(data[i := data[i][j := e]][CalculateIndex(x, capacity)], hash, x) ==
          if x == hash(e.key) then Some(e.value) else FirstWithHash(data[CalculateIndex(x, capacity)], hash, x)
      {
        OverwriteFirst(data, hash, capacity, j, e, x);
      }
      FlattenReplace(data, i, j, e);
      PlacedReplace(data, hash, capacity, j, e);
      ghost var before := data;
      data := data[i := data[i][j := e]];
      forall y | y in Elements()
        ensures y in multiset(Flatten(before)) || y == e
      {
        assert y in Flatten(before[i := before[i][j := e]]);
        assert y in Flatten(before) || y == e;
      }
    }

    /** `insert` as intended: an entry whose key already has the hash is
        overwritten where it stands, so a later lookup finds the new value;
        otherwise the entry is appended as `insert` does. */
    method InsertReplacing(k: K, v: V, h: U64)
      requires Valid() && h == hash(k) && capacity < 63
      modifies this
      ensures Valid() && capacity <= old(capacity) + 1
      ensures forall x :: Lookup(x) == if x == h then Some(v) else old(Lookup(x))
      ensures old(Lookup(h)).Some? ==> amount == old(amount)
      ensures old(Lookup(h)).None? ==> amount == old(amount) + 1
      ensures forall e :: e in Elements() ==> e in old(Elements()) || e == Entry(k, v)
    {
      var location := FindLocation(h);
      if location.Some? {
        Overwrite(location.value.1, Entry(k, v));
      } else {
        Insert(k, v, h);
      }
    }

    /** `realloc`: fresh empty buckets for the new capacity, then every old
        entry, in bucket order, re-inserted at its new position. */
    method Realloc(newCapacity: nat)
      requires Valid() && newCapacity < 64
      modifies this
      ensures Valid() && capacity == newCapacity
      ensures amount == old(amount) && Elements() == old(Elements())
      ensures forall b :: 0 <= b < |data| ==> data[b] == InBucket(Flatten(old(data)), hash, newCapacity, b)
      ensures forall x :: Lookup(x) == old(Lookup(x))
    {
      var storage := EmptyStorage(Pow2(newCapacity));
      var entries := Flatten(data);
      ghost var oldData, oldCapacity := data, capacity;
      capacity := newCapacity;
      data := storage;
      amount := 0;
      FlattenEmpty(storage);
      ReinsertAll(entries);
      assert forall b :: 0 <= b < |data| ==> data[b] == InBucket(entries, hash, capacity, b) by {
        assert forall b :: 0 <= b < |data| ==> data[b] == storage[b] + InBucket(entries, hash, capacity, b);
        assert forall b :: 0 <= b < |data| ==> storage[b] == [];
      }
      RehashKeepsAll(oldData, data, hash, oldCapacity, capacity);
    }

    /** The buckets are those of `start` with `entries` placed after them. */
    ghost predicate Extends(start: seq<seq<Entry<K, V>>>, entries: seq<Entry<K, V>>)
      reads this
    {
      && |data| == |start|
      && forall b :: 0 <= b < |data| ==> data[b] == start[b] + InBucket(entries, hash, capacity, b)
    }

    /** One step of the loop of `realloc`. */
    method ReinsertOne(e: Entry<K, V>, ghost start: seq<seq<Entry<K, V>>>, ghost done: seq<Entry<K, V>>)
      requires Valid() && Extends(start, done)
      modifies this
      ensures Valid() && capacity == old(capacity)
      ensures amount == old(amount) + 1
      ensures Elements() == old(Elements()) + multiset{e}
      ensures Extends(start, done + [e])
    {
      InBucketPush(start, data, done, e, hash, capacity);
      InsertNoCheck(e.key, e.value, hash(e.key));
    }

    /** The loop of `realloc`: `insert_no_check` for each entry in turn. */
    method ReinsertAll(entries: seq<Entry<K, V>>)
      requires Valid()
      modifies this
      ensures Valid() && capacity == old(capacity)
      ensures amount == old(amount) + |entries|
      ensures Elements() == old(Elements()) + multiset(entries)
      ensures Extends(old(data), entries)
    {
      for i := 0 to |entries|
        invariant Valid() && capacity == old(capacity)
        invariant amount == old(amount) + i
        invariant Elements() == old(Elements()) + multiset(entries[..i])
        invariant Extends(old(data), entries[..i])
      {
        ReinsertOne(entries[i], old(data), entries[..i]);
        TakeOneMore(entries, i);
      }
      assert entries[..|entries|] == entries;
    }

    /** `find_location`: the position, in the bucket `hash` selects, of the first
        entry whose key hashes to `hash`. Keys themselves are not compared. */
    method FindLocation(h: U64) returns (r: Option<(nat, nat)>)
      requires Valid()
      ensures var index := CalculateIndex(h, capacity);
        r.Some? ==>
          && r.value.0 == index
          && r.value.1 < |data[index]|
          && hash(data[index][r.value.1].key) == h
          && forall j :: 0 <= j < r.value.1 ==> hash(data[index][j].key) != h
      ensures var index := CalculateIndex(h, capacity);
        r.None? ==> forall j :: 0 <= j < |data[index]| ==> hash(data[index][j].key) != h
    {
      var index := CalculateIndex(h, capacity);
      var bucket := data[index];
      for i := 0 to |bucket|
        invariant forall j :: 0 <= j < i ==> hash(bucket[j].key) != h
      {
        if hash(bucket[i].key) == h {
          return Some((index, i));
        }
      }
      return None;
    }

    /** `get_with_location`: the entry at a position FindLocation returned. */
    function GetWithLocation(location: (nat, nat)): (e: Entry<K, V>)
      requires Valid() && location.0 < |data| && location.1 < |data[location.0]|
      reads this
      ensures e in Elements()
    {
      FlattenMembership(data, data[location.0][location.1]);
      data[location.0][location.1]
    }

    /** The bucket a hash selects holds every entry of the table with that hash. */
    lemma HashedEntriesInBucket(h: U64)
      requires Valid()
      ensures (exists e :: e in Elements() && hash(e.key) == h) <==>
              (exists j :: 0 <= j < |data[CalculateIndex(h, capacity)]| && hash(data[CalculateIndex(h, capacity)][j].key) == h)
    {
      var index := CalculateIndex(h, capacity);
      if e :| e in Elements() && hash(e.key) == h {
        FlattenMembership(data, e);
        var i, j :| 0 <= i < |data| && 0 <= j < |data[i]| && data[i][j] == e;
        assert hash(data[index][j].key) == h;
      }
      if j :| 0 <= j < |data[index]| && hash(data[index][j].key) == h {
        FlattenMembership(data, data[index][j]);
        assert data[index][j] in Elements();
      }
    }
  }

  /** `DHashMap2`: 2^TABLE_AMOUNT tables, a key going to the one selected by the
      low TABLE_AMOUNT bits of its hash. */
  class DHashMap2<K, V> {
    const tables: seq<Table<K, V>>
    const hash: K -> U64

    ghost predicate Valid()
      reads this, tables
    {
      && |tables| == Pow2(TABLE_AMOUNT)
      && (forall i, j :: 0 <= i < j < |tables| ==> tables[i] != tables[j])
      && (forall i :: 0 <= i < |tables| ==>
            && tables[i].Valid() && tables[i].hash == hash
            && forall e :: e in tables[i].Elements() ==> CalculateIndex(hash(e.key), TABLE_AMOUNT) == i)
    }

    /** `new`: 16 empty tables of 4 buckets each. */
    constructor New(hash: K -> U64)
      ensures Valid() && this.hash == hash && |tables| == 16
      ensures forall i :: 0 <= i < |tables| ==>
        && fresh(tables[i]) && tables[i].Len() == 0 && tables[i].Capacity() == Pow2(DEFAULT_TABLE_CAPACITY)
        && tables[i].capacity == DEFAULT_TABLE_CAPACITY
    {
      Pow2Small();
      var ts: seq<Table<K, V>> := [];
      for i := 0 to Pow2(TABLE_AMOUNT)
        invariant |ts| == i
        invariant forall j, l :: 0 <= j < l < i ==> ts[j] != ts[l]
        invariant forall j :: 0 <= j < i ==>
          && fresh(ts[j]) && ts[j].Valid() && ts[j].hash == hash
          && ts[j].Elements() == multiset{} && ts[j].amount == 0 && ts[j].capacity == DEFAULT_TABLE_CAPACITY
      {
        var t := new Table.New(DEFAULT_TABLE_CAPACITY, hash);
        ts := ts + [t];
      }
      tables := ts;
      this.hash := hash;
    }

    /** `insert`: hand the entry to the table the key's hash selects. The
        table's doubling shift must fit in a word. */
    method Insert(k: K, v: V)
      requires Valid() && tables[CalculateIndex(hash(k), TABLE_AMOUNT)].capacity < 63
      modifies tables[CalculateIndex(hash(k), TABLE_AMOUNT)]
      ensures Valid()
      ensures var index := CalculateIndex(hash(k), TABLE_AMOUNT);
        tables[index].Elements() == old(tables[index].Elements()) + multiset{Entry(k, v)}
      ensures forall i :: 0 <= i < |tables| && i != CalculateIndex(hash(k), TABLE_AMOUNT) ==>
        tables[i].Elements() == old(tables[i].Elements())
      ensures var index := CalculateIndex(hash(k), TABLE_AMOUNT);
        && tables[index].capacity <= old(tables[index].capacity) + 1
        && forall x :: tables[index].Lookup(x) ==
             if x == hash(k) && old(tables[index].Lookup(x)).None? then Some(v) else old(tables[index].Lookup(x))
    {
      var h := hash(k);
      var index := CalculateIndex(h, TABLE_AMOUNT);
      tables[index].Insert(k, v, h);
    }

    /** `insert` as intended: the table the key's hash selects overwrites the
        value found under that hash. */
    method InsertReplacing(k: K, v: V)
      requires Valid() && tables[CalculateIndex(hash(k), TABLE_AMOUNT)].capacity < 63
      modifies tables[CalculateIndex(hash(k), TABLE_AMOUNT)]
      ensures Valid()
      ensures var index := CalculateIndex(hash(k), TABLE_AMOUNT);
        && tables[index].capacity <= old(tables[index].capacity) + 1
        && forall x :: tables[index].Lookup(x) == if x == hash(k) then Some(v) else old(tables[index].Lookup(x))
    {
      var h := hash(k);
      var index := CalculateIndex(h, TABLE_AMOUNT);
      tables[index].InsertReplacing(k, v, h);
    }

    /** `get`: the value of the first entry of the key's bucket whose key has
        the same hash; None exactly when no entry anywhere has that hash. */
    method Get(k: K) returns (r: Option<V>)
      requires Valid()
      ensures r.None? <==> forall i, e :: 0 <= i < |tables| && e in tables[i].Elements() ==> hash(e.key) != hash(k)
      ensures r.Some? ==> exists e :: e in tables[CalculateIndex(hash(k), TABLE_AMOUNT)].Elements() &&
                                      hash(e.key) == hash(k) && e.value == r.value
      ensures r == tables[CalculateIndex(hash(k), TABLE_AMOUNT)].Lookup(hash(k))
    {
      var h := hash(k);
      var index := CalculateIndex(h, TABLE_AMOUNT);
      var table := tables[index];
      table.HashedEntriesInBucket(h);
      var location := table.FindLocation(h);
      if location.Some? {
        var e := table.GetWithLocation(location.value);
        FirstWithHashAt(table.data[location.value.0], hash, h, location.value.1);
        return Some(e.value);
      }
      r := None;
    }
  }

  /** As written, `insert` never replaces: after two inserts under one key,
      `get` still finds the first value. */
  method InsertTwiceKeepsFirst<K>(hash: K -> U64, k: K) returns (r: Option<int>)
    ensures r == Some(1)
  {
    var m := new DHashMap2<K, int>.New(hash);
    m.Insert(k, 1);
    m.Insert(k, 2);
    r := m.Get(k);
  }

  /** As intended, the second insert under a key is the value `get` finds. */
  method InsertTwiceReplaces<K>(hash: K -> U64, k: K) returns (r: Option<int>)
    ensures r == Some(2)
  {
    var m := new DHashMap2<K, int>.New(hash);
    m.InsertReplacing(k, 1);
    m.InsertReplacing(k, 2);
    r := m.Get(k);
  }
}
