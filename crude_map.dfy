/** `CrudeHashMap` (src/experimental/crude.rs): a fixed table of atomic
    pointers, one per slot, each to a heap-allocated `Entry`; no collision
    resolution and no resizing. The hash (`util::hash`) is a function
    parameter, and the table length is the already rounded capacity
    (`util::round_pow2` is not part of this model). A pointer swap is a plain
    write; the destruction deferred to the epoch collector is a ghost list
    `retired`. */
module CrudeMaps {
  import opened Common

  datatype Entry<K, V> = Empty | Occupied(key: K, value: V)

  /** The heap allocation an `Atomic<Entry>` points to. */
  class Cell<K, V> {
    const entry: Entry<K, V>

    constructor (entry: Entry<K, V>)
      ensures this.entry == entry
    {
      this.entry := entry;
    }
  }

  /** `hash as usize % table.len()`: the slot of a hash; the remainder panics
      on an empty table. */
  function SlotIndex(hash: U64, len: nat): (r: Checked<nat>)
    ensures r.Panics? <==> len == 0
    ensures r.Returns? ==> r.value < len && (hash < len ==> r.value == hash)
  {
    if len == 0 then Panics else Returns(hash % len)
  }

  /** The entries the cells point to, slot by slot. */
  function Entries<K, V>(cells: seq<Cell<K, V>>): (r: seq<Entry<K, V>>)
    ensures |r| == |cells| && forall i :: 0 <= i < |cells| ==> r[i] == cells[i].entry
  {
    seq(|cells|, i requires 0 <= i < |cells| => cells[i].entry)
  }

  class CrudeHashMap<K, V> {
    const hash: K -> U64
    const table: array<Cell<K, V>>
    /** The cells handed to the collector, in the order they were retired. */
    ghost var retired: seq<Cell<K, V>>

    /** Every slot has a cell of its own, and no slot points at a cell handed
        to the collector: every entry a reader can reach is live. */
    ghost predicate Valid()
      reads this, table
    {
      && (forall i, j :: 0 <= i < j < table.Length ==> table[i] != table[j])
      && (forall i :: 0 <= i < table.Length ==> table[i] !in retired)
    }

    /** `new`: `capacity` slots, each pointing at a fresh `Empty` entry. */
    constructor New(hash: K -> U64, capacity: nat)
      ensures Valid() && fresh(table) && table.Length == capacity && retired == []
      ensures Entries(table[..]) == seq(capacity, _ => Empty)
      ensures this.hash == hash
    {
      this.hash := hash;
      var cells: seq<Cell<K, V>> := [];
      for i := 0 to capacity
        invariant |cells| == i
        invariant forall j :: 0 <= j < i ==> cells[j].entry == Empty
        invariant forall j, k :: 0 <= j < k < i ==> cells[j] != cells[k]
      {
        var cell := new Cell(Empty);
        cells := cells + [cell];
      }
      table := new Cell<K, V>[capacity](i requires 0 <= i < capacity => cells[i]);
      retired := [];
    }

    /** `insert`: the slot of `hash(key)` is swapped to a fresh
        `Occupied(key, value)`; the displaced entry is neither freed nor
        retired. It also runs on a table the `remove` as written has left
        pointing at a retired cell. */
    method Insert(key: K, value: V) returns (r: Checked<()>)
      modifies table
      ensures old(Valid()) ==> Valid()
      ensures retired == old(retired)
      ensures r.Panics? <==> table.Length == 0
      ensures r.Panics? ==> Entries(table[..]) == old(Entries(table[..]))
      ensures r.Returns? ==>
        var i := SlotIndex(hash(key), table.Length).value;
        Entries(table[..]) == old(Entries(table[..]))[i := Occupied(key, value)] && fresh(table[i])
    {
      var idx := SlotIndex(hash(key), table.Length);
      if idx.Panics? {
        return Panics;
      }
      var cell := new Cell(Occupied(key, value));
      table[idx.value] := cell;
      r := Returns(());
    }

    /** `get`: the value in the slot of `hash(key)`, whatever key it was
        stored under; None for an empty slot. */
    method Get(key: K) returns (r: Checked<Option<V>>)
      ensures r.Panics? <==> table.Length == 0
      ensures r.Returns? ==>
        var e := table[SlotIndex(hash(key), table.Length).value].entry;
        r.value == if e.Occupied? then Some(e.value) else None
    {
      var idx := SlotIndex(hash(key), table.Length);
      if idx.Panics? {
        return Panics;
      }
      var e := table[idx.value].entry;
      match e
      case Empty => r := Returns(None);
      case Occupied(_, v) => r := Returns(Some(v));
    }

    /** `remove` as written: the cell in the slot of `hash(key)` is handed to
        the collector, but the slot still points at it. */
    method RemoveAsWritten(key: K) returns (r: Checked<()>)
      modifies this
      ensures r.Panics? <==> table.Length == 0
      ensures r.Panics? ==> retired == old(retired)
      ensures r.Returns? ==>
        var i := SlotIndex(hash(key), table.Length).value;
        retired == old(retired) + [table[i]] && !Valid()
      ensures table[..] == old(table[..])
    {
      var idx := SlotIndex(hash(key), table.Length);
      if idx.Panics? {
        return Panics;
      }
      retired := retired + [table[idx.value]];
      r := Returns(());
    }

    /** `remove` as intended: the slot is swapped to a fresh `Empty` entry
        before the displaced cell is handed to the collector. */
    method Remove(key: K) returns (r: Checked<()>)
      requires Valid()
      modifies this, table
      ensures Valid()
      ensures r.Panics? <==> table.Length == 0
      ensures r.Panics? ==> retired == old(retired) && table[..] == old(table[..])
      ensures r.Returns? ==>
        var i := SlotIndex(hash(key), table.Length).value;
        && retired == old(retired) + [old(table[i])]
        && Entries(table[..]) == old(Entries(table[..]))[i := Empty]
    {
      var idx := SlotIndex(hash(key), table.Length);
      if idx.Panics? {
        return Panics;
      }
      var cell := new Cell(Empty);
      var displaced := table[idx.value];
      table[idx.value] := cell;
      retired := retired + [displaced];
      r := Returns(());
    }
  }

  /** Two keys whose hashes share a slot share an entry: `get` of the second
      returns the value inserted under the first. */
  method CollidingGet<K, V>(m: CrudeHashMap<K, V>, key: K, value: V, other: K) returns (r: Checked<Option<V>>)
    requires m.Valid() && m.table.Length > 0
    requires SlotIndex(m.hash(key), m.table.Length) == SlotIndex(m.hash(other), m.table.Length)
    modifies m.table
    ensures r == Returns(Some(value))
  {
    var _ := m.Insert(key, value);
    r := m.Get(other);
  }

  /** As written: after `remove`, `get` still returns the removed value, read
      from a cell the collector may already have freed. */
  method RemoveThenGetAsWritten<K, V>(m: CrudeHashMap<K, V>, key: K, value: V) returns (r: Checked<Option<V>>)
    requires m.Valid() && m.table.Length > 0
    modifies m, m.table
    ensures r == Returns(Some(value))
    ensures m.table[SlotIndex(m.hash(key), m.table.Length).value] in m.retired
  {
    var _ := m.Insert(key, value);
    var _ := m.RemoveAsWritten(key);
    r := m.Get(key);
  }

  /** As intended: after `remove`, `get` finds the slot empty. */
  method RemoveThenGet<K, V>(m: CrudeHashMap<K, V>, key: K, value: V) returns (r: Checked<Option<V>>)
    requires m.Valid() && m.table.Length > 0
    modifies m, m.table
    ensures r == Returns(None) && m.Valid()
  {
    var _ := m.Insert(key, value);
    var _ := m.Remove(key);
    r := m.Get(key);
  }
}
