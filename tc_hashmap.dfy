/** `TCHashMap` (src/tchashmap.rs): a direct-mapped table of `2^lbc` cells
    indexed by the top `lbc` bits of a 32-bit hash, with no collision
    resolution; it doubles when the insertion count passes half the capacity.
    Each `TCell` is a plain array cell and the read-write lock is left out;
    the hash (`fxhash::hash32`) is a function parameter. */
module TCHashMaps {
  import opened Common

  const HASHMAP_INIT_LOOKUP_BITS: nat := 4

  datatype Entry<K, V> = Vacant | Occupied(key: K, value: V)

  /** `init_storage`: `capacity` vacant cells. */
  method InitStorage<K, V>(capacity: nat) returns (cells: array<Entry<K, V>>)
    ensures fresh(cells) && cells[..] == seq(capacity, _ => Vacant)
  {
    cells := new Entry<K, V>[capacity](_ => Vacant);
  }

  /** The cell of key `k` in a table of `2^lbc` cells. */
  function Slot<K>(hash: K -> U32, k: K, lbc: nat): nat
    requires 1 <= lbc <= 32
  {
    ComputeIndex(hash(k), lbc).value
  }

  /** Every occupied cell holds an entry whose key maps to that cell. */
  ghost predicate Placed<K, V>(hash: K -> U32, entries: seq<Entry<K, V>>, lbc: nat)
    requires 1 <= lbc <= 32
  {
    forall i :: 0 <= i < |entries| && entries[i].Occupied? ==> Slot(hash, entries[i].key, lbc) == i
  }

  /** The new storage `resize(lbc)` builds: a vacant table of `2^lbc` cells,
      into which the occupied entries of the old one are written in order, so
      that a later entry overwrites an earlier one in the same cell. */
  function Rehashed<K, V>(hash: K -> U32, entries: seq<Entry<K, V>>, lbc: nat): (r: seq<Entry<K, V>>)
    requires 1 <= lbc <= 32
    ensures |r| == Pow2(lbc)
    decreases |entries|
  {
    if entries == [] then seq(Pow2(lbc), _ => Vacant)
    else
      var before := Rehashed(hash, entries[..|entries| - 1], lbc);
      match entries[|entries| - 1]
      case Vacant => before
      case Occupied(k, v) => before[Slot(hash, k, lbc) := Occupied(k, v)]
  }

  /** The rehashed table is placed, and holds only entries of the old one. */
  lemma {:induction false} RehashedPlaced<K, V>(hash: K -> U32, entries: seq<Entry<K, V>>, lbc: nat)
    requires 1 <= lbc <= 32
    ensures Placed(hash, Rehashed(hash, entries, lbc), lbc)
    ensures forall i :: 0 <= i < Pow2(lbc) && Rehashed(hash, entries, lbc)[i].Occupied? ==>
      Rehashed(hash, entries, lbc)[i] in entries
    decreases |entries|
  {
    if entries != [] {
      var prefix := entries[..|entries| - 1];
      RehashedPlaced(hash, prefix, lbc);
      assert forall e :: e in prefix ==> e in entries;
    }
  }

  /** An occupied entry survives `resize` in its new cell unless a later
      entry of the old table maps to the same cell. */
  lemma {:induction false} RehashedLastWins<K, V>(hash: K -> U32, entries: seq<Entry<K, V>>, lbc: nat, i: nat)
    requires 1 <= lbc <= 32 && i < |entries| && entries[i].Occupied?
    requires forall j :: i < j < |entries| && entries[j].Occupied? ==>
      Slot(hash, entries[j].key, lbc) != Slot(hash, entries[i].key, lbc)
    ensures Rehashed(hash, entries, lbc)[Slot(hash, entries[i].key, lbc)] == entries[i]
    decreases |entries|
  {
    var last := |entries| - 1;
    if i < last {
      var prefix := entries[..last];
      RehashedLastWins(hash, prefix, lbc, i);
    }
  }

  class TCHashMap<K, V> {
    const hash: K -> U32
    var storage: array<Entry<K, V>>
    /** The number of insertions, overwrites included. */
    var len: nat
    var lbc: nat
    var capacity: nat

    /** `capacity` is `2^lbc` cells, the length of `storage`, and every
        occupied cell is the one its key maps to. */
    ghost predicate Valid()
      reads this, storage
    {
      && 1 <= lbc <= 32 && capacity == Pow2(lbc) && storage.Length == capacity
      && Placed(hash, storage[..], lbc)
    }

    /** `new`: 16 vacant cells, `lbc` 4, no insertions. */
    constructor New(hash: K -> U32)
      ensures Valid() && fresh(storage)
      ensures storage[..] == seq(16, _ => Vacant) && lbc == HASHMAP_INIT_LOOKUP_BITS && capacity == 16 && len == 0
      ensures this.hash == hash
    {
      Pow2Small();
      this.hash := hash;
      var capacity := Pow2(HASHMAP_INIT_LOOKUP_BITS);
      var cells := InitStorage(capacity);
      storage, len, lbc, this.capacity := cells, 0, HASHMAP_INIT_LOOKUP_BITS, capacity;
    }

    /** `resize(lbc)`: a fresh storage of `2^lbc` cells, filled by rehashing
        the old one cell by cell. */
    method Resize(lbc: nat)
      requires 1 <= lbc <= 32
      modifies this
      ensures Valid() && fresh(storage)
      ensures this.lbc == lbc && capacity == Pow2(lbc) && len == old(len)
      ensures storage[..] == Rehashed(hash, old(storage[..]), lbc)
    {
      var newCapacity := Pow2(lbc);
      this.lbc := lbc;
      capacity := newCapacity;
      var oldBuf := storage;
      storage := InitStorage(newCapacity);
      for i := 0 to oldBuf.Length
        invariant fresh(storage) && storage.Length == newCapacity
        invariant this.lbc == lbc && capacity == newCapacity && len == old(len)
        invariant storage[..] == Rehashed(hash, oldBuf[..i], lbc)
      {
        assert oldBuf[..i + 1][..i] == oldBuf[..i];
        match oldBuf[i]
        case Vacant =>
        case Occupied(k, v) =>
          storage[Slot(hash, k, lbc)] := Occupied(k, v);
      }
      assert oldBuf[..oldBuf.Length] == old(storage[..]);
      RehashedPlaced(hash, old(storage[..]), lbc);
    }

    /** `insert`: double the table first when the insertion would pass half
        the capacity, then write `Occupied(k, v)` into the cell of `k`,
        overwriting whatever is there, and count the insertion. Growing past
        32 lookup bits panics in `compute_index`. */
    method Insert(k: K, v: V) returns (r: Checked<()>)
      requires Valid()
      modifies this, storage
      ensures Valid()
      ensures r.Panics? <==> old(len) + 1 > old(capacity) / 2 && old(lbc) == 32
      ensures r.Panics? ==> len == old(len) && lbc == old(lbc) && storage[..] == old(storage[..])
      ensures r.Returns? ==>
        var grown := old(len) + 1 > old(capacity) / 2;
        && len == old(len) + 1
        && lbc == (if grown then old(lbc) + 1 else old(lbc))
        && storage[..] == (if grown then Rehashed(hash, old(storage[..]), lbc) else old(storage[..]))[Slot(hash, k, lbc) := Occupied(k, v)]
    {
      if len + 1 > capacity / 2 {
        if lbc == 32 {
          return Panics;
        }
        Resize(lbc + 1);
      }
      var index := Slot(hash, k, lbc);
      len := len + 1;
      storage[index] := Occupied(k, v);
      r := Returns(());
    }

    /** `get_cloned`: the value in the cell of `k`, whatever key it was stored
        under; a vacant cell panics. */
    method GetCloned(k: K) returns (r: Checked<V>)
      requires Valid()
      ensures var e := storage[Slot(hash, k, lbc)];
        r == if e.Occupied? then Returns(e.value) else Panics
      ensures r.Returns? ==> exists j :: Slot(hash, j, lbc) == Slot(hash, k, lbc) && Occupied(j, r.value) in storage[..]
    {
      var e := storage[Slot(hash, k, lbc)];
      if e.Occupied? {
        r := Returns(e.value);
      } else {
        r := Panics;
      }
    }
  }

  /** A value inserted under `k` is read back by `get_cloned(k)` straight
      after, whether or not the table was doubled. */
  method InsertThenGet<K, V>(m: TCHashMap<K, V>, k: K, v: V) returns (r: Checked<V>)
    requires m.Valid() && m.lbc < 32
    modifies m, m.storage
    ensures r == Returns(v)
  {
    var _ := m.Insert(k, v);
    r := m.GetCloned(k);
  }
}
