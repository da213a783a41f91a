/** The lock-free hash trie of src/nestedmap/raw.rs. A table has 32 slots, each
    null, a leaf holding one entry, or a branch holding a child table; a key's
    slot is its nonce-seeded hash modulo 32, the nonce being drawn at random for
    each table. Inserting onto a leaf of another key splits the slot into a child
    table holding both entries. Compare-and-set and store are modelled as plain
    sequential reads and writes; deferred deallocation as a ghost list of the
    entries handed to the collector. */
module HashTrie {
  import opened Common

  const TABLE_SIZE: nat := 32

  datatype Entry<K, V> = Entry(key: K, allocTag: nat, value: V)

  datatype Bucket<K(==,!new), V> = Null | Leaf(entry: Entry<K, V>) | Branch(table: Table<K, V>)

  /** `Bucket::key_ref`: the key of a leaf; panics on a branch. A null slot is
      never passed to it. */
  function KeyRef<K(==,!new), V>(b: Bucket<K, V>): (r: Checked<K>)
    requires !b.Null?
    ensures r == Panics <==> b.Branch?
    ensures r.Returns? ==> b == Leaf(b.entry) && r.value == b.entry.key
  {
    if b.Leaf? then Returns(b.entry.key) else Panics
  }

  /** The slot a key takes in a table with the given nonce:
      `hash_with_nonce(key, nonce) as usize % TABLE_SIZE`. */
  function Slot<K>(hash: (K, nat) -> U64, key: K, nonce: nat): (i: nat)
    ensures i < TABLE_SIZE
  {
    hash(key, nonce) % TABLE_SIZE
  }

  /** Some nonce of the supply sends the two keys to different slots. */
  ghost predicate Separates<K>(hash: (K, nat) -> U64, nonces: seq<nat>, k1: K, k2: K)
  {
    exists d :: 0 <= d < |nonces| && Slot(hash, k1, nonces[d]) != Slot(hash, k2, nonces[d])
  }

  lemma SeparatesTail<K>(hash: (K, nat) -> U64, nonces: seq<nat>, k1: K, k2: K)
    requires Separates(hash, nonces, k1, k2)
    requires Slot(hash, k1, nonces[0]) == Slot(hash, k2, nonces[0])
    ensures Separates(hash, nonces[1..], k1, k2)
  {
    var d :| 0 <= d < |nonces| && Slot(hash, k1, nonces[d]) != Slot(hash, k2, nonces[d]);
    assert nonces[1..][d - 1] == nonces[d];
  }

  class Table<K(==,!new), V> {
    const nonce: nat
    /** `util::hash_with_nonce` */
    const hash: (K, nat) -> U64
    const buckets: array<Bucket<K, V>>
    ghost var Repr: set<object>

    function Pos(key: K): (i: nat)
      ensures i < TABLE_SIZE
    {
      Slot(hash, key, nonce)
    }

    ghost predicate Valid()
      reads this, Repr
      decreases Repr
    {
      && this in Repr && buckets in Repr
      && buckets.Length == TABLE_SIZE
      && (forall i :: 0 <= i < TABLE_SIZE && buckets[i].Leaf? ==> Pos(buckets[i].entry.key) == i)
      && (forall i :: 0 <= i < TABLE_SIZE && buckets[i].Branch? ==>
            && buckets[i].table in Repr && buckets[i].table.Repr <= Repr
            && this !in buckets[i].table.Repr && buckets !in buckets[i].table.Repr
            && buckets[i].table.hash == hash
            && buckets[i].table.Valid())
      && (forall i, j :: 0 <= i < j < TABLE_SIZE && buckets[i].Branch? && buckets[j].Branch? ==>
            buckets[i].table.Repr !! buckets[j].table.Repr)
    }

    /** The leaf at the end of the key's path of slots, whatever its key. */
    ghost function Lookup(key: K): Option<Entry<K, V>>
      requires Valid()
      reads this, Repr
      decreases Repr
    {
      match buckets[Pos(key)]
      case Null => None
      case Leaf(e) => Some(e)
      case Branch(t) => t.Lookup(key)
    }

    /** `get`: the entry iff the key's path of slots ends at a leaf with an equal
        key; a null slot or a leaf of another key gives None. */
    function Get(key: K): (r: Option<V>)
      requires Valid()
      reads this, Repr
      ensures r == (if Lookup(key).Some? && Lookup(key).value.key == key then Some(Lookup(key).value.value) else None)
      decreases Repr
    {
      match buckets[Pos(key)]
      case Null => None
      case Leaf(e) => if e.key == key then Some(e.value) else None
      case Branch(t) => t.Get(key)
    }

    /** Replacing the bucket of slot `pos` alone, by a leaf placed at `pos` or
        a branch to a valid table whose objects are apart from the other
        branches', keeps the table valid and every other slot's lookups. */
    twostate lemma SlotReplaced(pos: nat)
      requires old(Valid()) && pos < TABLE_SIZE && old(Repr) <= Repr
      requires forall i :: 0 <= i < TABLE_SIZE && i != pos ==> buckets[i] == old(buckets[i])
      requires forall i :: 0 <= i < TABLE_SIZE && i != pos && buckets[i].Branch? ==>
        unchanged(old(buckets[i].table.Repr))
      requires buckets[pos].Leaf? ==> Pos(buckets[pos].entry.key) == pos
      requires buckets[pos].Branch? ==>
        var t := buckets[pos].table;
        && t.Valid() && t.hash == hash && t in Repr && t.Repr <= Repr && this !in t.Repr && buckets !in t.Repr
        && forall i :: 0 <= i < TABLE_SIZE && i != pos && buckets[i].Branch? ==> t.Repr !! old(buckets[i].table.Repr)
      ensures Valid()
      ensures forall k :: Pos(k) != pos ==> Lookup(k) == old(Lookup(k)) && Get(k) == old(Get(k))
    {
      forall i | 0 <= i < TABLE_SIZE && i != pos && buckets[i].Branch?
        ensures buckets[i].table.Valid() && buckets[i].table.Repr == old(buckets[i].table.Repr)
      {
      }
    }

    /** `empty`: 32 null slots, with a freshly drawn nonce. */
    constructor Empty(nonce: nat, hash: (K, nat) -> U64)
      ensures Valid() && fresh(Repr) && this.nonce == nonce && this.hash == hash
      ensures forall i :: 0 <= i < TABLE_SIZE ==> buckets[i] == Null
      ensures forall k :: Lookup(k) == None
    {
      this.nonce := nonce;
      this.hash := hash;
      buckets := new Bucket<K, V>[TABLE_SIZE](_ => Null);
      new;
      Repr := {this, buckets};
    }

    /** `with_two_entries`: a table whose nonce is the next one drawn, holding
        both entries at their slots, or, when they share a slot, a child table
        built the same way from the following nonces. */
    static method WithTwoEntries(hash: (K, nat) -> U64, e1: Entry<K, V>, e2: Entry<K, V>, nonces: seq<nat>)
      returns (t: Table<K, V>)
      requires Separates(hash, nonces, e1.key, e2.key)
      ensures t.Valid() && fresh(t.Repr) && t.hash == hash && t.nonce == nonces[0]
      ensures t.Lookup(e1.key) == Some(e1) && t.Lookup(e2.key) == Some(e2)
      ensures forall k :: t.Lookup(k) == None || t.Lookup(k) == Some(e1) || t.Lookup(k) == Some(e2)
      decreases |nonces|
    {
      t := new Table.Empty(nonces[0], hash);
      var pos1, pos2 := t.Pos(e1.key), t.Pos(e2.key);
      if pos1 != pos2 {
        label empty:
        t.buckets[pos1] := Leaf(e1);
        t.SlotReplaced@empty(pos1);
        label one:
        t.buckets[pos2] := Leaf(e2);
        t.SlotReplaced@one(pos2);
      } else {
        SeparatesTail(hash, nonces, e1.key, e2.key);
        var child := WithTwoEntries(hash, e1, e2, nonces[1..]);
        label empty:
        t.buckets[pos1] := Branch(child);
        t.Repr := t.Repr + child.Repr;
        t.SlotReplaced@empty(pos1);
      }
    }

    /** `insert`: into a null slot the leaf goes directly; on a branch the
        insertion continues in the child; on a leaf of the same key the new leaf
        replaces it and the old entry is retired; on a leaf of another key the
        slot becomes a branch holding both (drawing nonces from `nonces`). */
    method Insert(e: Entry<K, V>, nonces: seq<nat>) returns (ghost retired: seq<Entry<K, V>>)
      requires Valid()
      requires Lookup(e.key).Some? && Lookup(e.key).value.key != e.key ==>
        Separates(hash, nonces, Lookup(e.key).value.key, e.key)
      modifies Repr
      ensures Valid() && fresh(Repr - old(Repr))
      ensures Lookup(e.key) == Some(e)
      ensures forall k :: k != e.key ==> Get(k) == old(Get(k))
      ensures retired == if old(Get(e.key)).Some? then [old(Lookup(e.key)).value] else []
      ensures forall i :: 0 <= i < TABLE_SIZE && i != Pos(e.key) ==> buckets[i] == old(buckets[i])
      ensures old(buckets[Pos(e.key)]).Null? ==> buckets[Pos(e.key)] == Leaf(e)
      ensures old(buckets[Pos(e.key)]).Leaf? && old(buckets[Pos(e.key)]).entry.key == e.key ==>
        buckets[Pos(e.key)] == Leaf(e)
      ensures old(buckets[Pos(e.key)]).Branch? ==> buckets[Pos(e.key)] == old(buckets[Pos(e.key)])
      decreases Repr, 1
    {
      var pos := Pos(e.key);
      var current := buckets[pos];
      match current
      case Null =>
        buckets[pos] := Leaf(e);
        retired := [];
      case Branch(child) =>
        retired := InsertBelow(e, nonces, child);
      case Leaf(oldEntry) =>
        if oldEntry.key == e.key {
          buckets[pos] := Leaf(e);
          retired := [oldEntry];
        } else {
          SplitLeaf(e, nonces, oldEntry);
          retired := [];
        }
    }

    /** The branch case of `insert`: the insertion continues in the child table. */
    method InsertBelow(e: Entry<K, V>, nonces: seq<nat>, child: Table<K, V>) returns (ghost retired: seq<Entry<K, V>>)
      requires Valid() && buckets[Pos(e.key)] == Branch(child)
      requires Lookup(e.key).Some? && Lookup(e.key).value.key != e.key ==>
        Separates(hash, nonces, Lookup(e.key).value.key, e.key)
      modifies Repr
      ensures Valid() && fresh(Repr - old(Repr))
      ensures Lookup(e.key) == Some(e)
      ensures forall k :: k != e.key ==> Get(k) == old(Get(k))
      ensures retired == if old(Get(e.key)).Some? then [old(Lookup(e.key)).value] else []
      ensures forall i :: 0 <= i < TABLE_SIZE ==> buckets[i] == old(buckets[i])
      decreases Repr, 0
    {
      retired := child.Insert(e, nonces);
      Repr := Repr + child.Repr;
      SlotReplaced(Pos(e.key));
    }

    /** The case of `insert` that meets a leaf of another key: the slot becomes
        a branch to a fresh table holding both entries. */
    method SplitLeaf(e: Entry<K, V>, nonces: seq<nat>, oldEntry: Entry<K, V>)
      requires Valid() && buckets[Pos(e.key)] == Leaf(oldEntry) && oldEntry.key != e.key
      requires Separates(hash, nonces, oldEntry.key, e.key)
      modifies Repr
      ensures Valid() && fresh(Repr - old(Repr))
      ensures Lookup(e.key) == Some(e)
      ensures forall k :: k != e.key ==> Get(k) == old(Get(k))
      ensures forall i :: 0 <= i < TABLE_SIZE && i != Pos(e.key) ==> buckets[i] == old(buckets[i])
      ensures buckets[Pos(e.key)].Branch?
    {
      var split := WithTwoEntries(hash, oldEntry, e, nonces);
      buckets[Pos(e.key)] := Branch(split);
      Repr := Repr + split.Repr;
      SlotReplaced(Pos(e.key));
    }

    /** `remove` as written: the leaf at the end of the key's path is cleared
        and retired whatever its key; branches are followed, a null slot is left.
        Every key whose path ends elsewhere keeps what it finds. */
    method RemoveAsWritten(key: K) returns (ghost retired: seq<Entry<K, V>>)
      requires Valid()
      modifies Repr
      ensures Valid() && Repr == old(Repr)
      ensures Lookup(key) == None
      ensures retired == if old(Lookup(key)).Some? then [old(Lookup(key)).value] else []
      ensures forall i :: 0 <= i < TABLE_SIZE && i != Pos(key) ==> buckets[i] == old(buckets[i])
      ensures !old(buckets[Pos(key)]).Branch? ==> buckets[Pos(key)] == Null
      ensures forall k :: old(Lookup(k)) != old(Lookup(key)) ==> Lookup(k) == old(Lookup(k))
      ensures forall k :: Lookup(k) == old(Lookup(k)) || Lookup(k) == None
      decreases Repr
    {
      var pos := Pos(key);
      var current := buckets[pos];
      if current.Branch? {
        retired := current.table.RemoveAsWritten(key);
        SlotReplaced(pos);
      } else if current.Leaf? {
        buckets[pos] := Null;
        SlotReplaced(pos);
        retired := [current.entry];
      } else {
        retired := [];
      }
    }

    /** `remove` with the key comparison the lookup makes: only a leaf holding
        this key is cleared and retired. */
    method Remove(key: K) returns (ghost retired: seq<Entry<K, V>>)
      requires Valid()
      modifies Repr
      ensures Valid() && Repr == old(Repr)
      ensures Get(key) == None
      ensures forall k :: k != key ==> Get(k) == old(Get(k))
      ensures retired == if old(Get(key)).Some? then [old(Lookup(key)).value] else []
      decreases Repr
    {
      var pos := Pos(key);
      match buckets[pos]
      case Null =>
        retired := [];
      case Branch(child) =>
        retired := child.Remove(key);
      case Leaf(entry) =>
        if entry.key == key {
          buckets[pos] := Null;
          retired := [entry];
        } else {
          retired := [];
        }
    }
  }

  /** Removing a key whose slot holds a leaf of another key removes that other
      key: with the identity hash, key 33 shares slot 1 with key 1. */
  method RemoveAsWrittenDropsOtherKey() returns (before: Option<int>, after: Option<int>)
    ensures before == Some(7) && after == None
  {
    var hash: (int, nat) -> U64 := (k: int, n: nat) => k % 32;
    var t := new Table<int, int>.Empty(0, hash);
    var _ := t.Insert(Entry(1, 0, 7), []);
    before := t.Get(1);
    var _ := t.RemoveAsWritten(33);
    after := t.Get(1);
  }

  /** The test of src/nestedmap/tests.rs in small: two keys that share a slot of
      the root table (1 and 33 under a hash that reads the key's base-32 digit
      selected by the nonce) are split into a child table, and both stay
      reachable with their values. */
  method InsertSharingSlot() returns (first: Option<int>, second: Option<int>)
    ensures first == Some(7) && second == Some(231)
  {
    var hash: (int, nat) -> U64 := (k: int, n: nat) => if n == 0 then k % 32 else (k / 32) % 32;
    var t := new Table<int, int>.Empty(0, hash);
    var _ := t.Insert(Entry(1, 0, 7), []);
    assert t.Pos(33) == t.Pos(1) && t.Lookup(33) == Some(Entry(1, 0, 7));
    assert [1][0] == 1 && Slot(hash, 1, 1) != Slot(hash, 33, 1);
    var _ := t.Insert(Entry(33, 1, 231), [1]);
    first := t.Get(1);
    second := t.Get(33);
  }
}
