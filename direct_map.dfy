/** The crate-root `TCHashMap` (src/lib.rs): a fixed table of `2^8` cells
    indexed by the top 8 bits of a 32-bit hash; `insert` stores the value
    alone, not its key. Each `TCell` is a plain array cell, and the hash
    (`fxhash::hash32`) is a function parameter. */
module DirectMaps {
  import opened Common

  const HASHMAP_INIT_CAPACITY_LOOKUP_BITS: nat := 8

  datatype Entry<V> = Vacant | Occupied(value: V)

  /** `init_storage`: `capacity` vacant cells. */
  method InitStorage<V>(capacity: nat) returns (cells: array<Entry<V>>)
    ensures fresh(cells) && cells[..] == seq(capacity, _ => Vacant)
  {
    cells := new Entry<V>[capacity](_ => Vacant);
  }

  class TCHashMap<K, V> {
    const hash: K -> U32
    const storage: array<Entry<V>>
    const lookupBitsCount: nat
    const capacity: nat

    ghost predicate Valid()
      reads this
    {
      lookupBitsCount == HASHMAP_INIT_CAPACITY_LOOKUP_BITS && capacity == Pow2(lookupBitsCount) && storage.Length == capacity
    }

    /** `new`: 2^8 vacant cells. */
    constructor New(hash: K -> U32)
      ensures Valid() && fresh(storage)
      ensures storage[..] == seq(256, _ => Vacant) && capacity == 256
      ensures this.hash == hash
    {
      Pow2Small();
      this.hash := hash;
      var capacity := Pow2(HASHMAP_INIT_CAPACITY_LOOKUP_BITS);
      var cells := InitStorage(capacity);
      storage, lookupBitsCount, this.capacity := cells, HASHMAP_INIT_CAPACITY_LOOKUP_BITS, capacity;
    }

    /** The cell `insert` writes for key `k`: `compute_index` of its hash
        with 8 lookup bits, always one of the 256 cells. */
    function Slot(k: K): (i: nat)
      reads this
      requires Valid()
      ensures i < storage.Length
    {
      Pow2Small();
      ComputeIndex(hash(k), lookupBitsCount).value
    }

    /** `insert`: `Occupied(v)` overwrites the cell of `k`, and only that
        cell; the table's size and lookup bits never change, being constant
        fields. */
    method Insert(k: K, v: V)
      requires Valid()
      modifies storage
      ensures storage[..] == old(storage[..])[Slot(k) := Occupied(v)]
    {
      var index := Slot(k);
      storage[index] := Occupied(v);
    }
  }

  /** Two keys whose hashes share their top byte overwrite each other: the
      second insertion replaces the first value, so `k1`'s cell holds the
      value inserted under `k2`. */
  method CollidingInserts<K, V>(m: TCHashMap<K, V>, k1: K, v1: V, k2: K, v2: V)
    requires m.Valid() && m.Slot(k1) == m.Slot(k2)
    modifies m.storage
    ensures m.storage[m.Slot(k1)] == Occupied(v2)
  {
    m.Insert(k1, v1);
    m.Insert(k2, v2);
  }
}
