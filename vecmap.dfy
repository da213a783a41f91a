/** `VecMap` (src/switchmap/vecmap.rs): an association list kept in two parallel
    vectors, `keys` and `values`, searched linearly. */
module VecMaps {
  import opened Common

  /** `THRESHOLD` of src/switchmap/mod.rs: the size at which a flat map should
      become a hash map. */
  const THRESHOLD: nat := 64

  ghost predicate Distinct<K>(keys: seq<K>)
  {
    forall i, j :: 0 <= i < j < |keys| ==> keys[i] != keys[j]
  }

  /** The map the two parallel vectors represent. */
  ghost function Pairs<K, V>(keys: seq<K>, values: seq<V>): map<K, V>
    requires |keys| == |values| && Distinct(keys)
  {
    map i | 0 <= i < |keys| :: keys[i] := values[i]
  }

  lemma PairsAt<K, V>(keys: seq<K>, values: seq<V>, i: nat)
    requires |keys| == |values| && Distinct(keys) && i < |keys|
    ensures keys[i] in Pairs(keys, values) && Pairs(keys, values)[keys[i]] == values[i]
  {
  }

  lemma PairsKeys<K, V>(keys: seq<K>, values: seq<V>)
    requires |keys| == |values| && Distinct(keys)
    ensures forall k :: k in Pairs(keys, values) <==> k in keys
  {
    forall k | k in keys
      ensures k in Pairs(keys, values)
    {
      var i :| 0 <= i < |keys| && keys[i] == k;
      PairsAt(keys, values, i);
    }
  }

  lemma {:induction false} DistinctCardinality<K>(keys: seq<K>)
    requires Distinct(keys)
    ensures |set k | k in keys| == |keys|
  {
    if keys != [] {
      var init := keys[..|keys| - 1];
      DistinctCardinality(init);
      assert (set k | k in keys) == (set k | k in init) + {keys[|keys| - 1]};
    }
  }

  lemma PairsCardinality<K, V>(keys: seq<K>, values: seq<V>)
    requires |keys| == |values| && Distinct(keys)
    ensures |Pairs(keys, values)| == |keys|
  {
    PairsKeys(keys, values);
    DistinctCardinality(keys);
    assert Pairs(keys, values).Keys == set k | k in keys;
  }

  lemma PairsUpdate<K, V>(keys: seq<K>, values: seq<V>, i: nat, v: V)
    requires |keys| == |values| && Distinct(keys) && i < |keys|
    ensures Pairs(keys, values[i := v]) == Pairs(keys, values)[keys[i] := v]
  {
  }

  lemma PairsAppend<K, V>(keys: seq<K>, values: seq<V>, k: K, v: V)
    requires |keys| == |values| && Distinct(keys) && k !in keys
    ensures Distinct(keys + [k])
    ensures Pairs(keys + [k], values + [v]) == Pairs(keys, values)[k := v]
  {
    var keys', values' := keys + [k], values + [v];
    forall key | key in Pairs(keys, values)[k := v]
      ensures key in Pairs(keys', values')
    {
      if key != k {
        var i :| 0 <= i < |keys| && keys[i] == key;
        assert keys'[i] == key;
      } else {
        assert keys'[|keys|] == k;
      }
    }
  }

  /** Position `j` of `s` with position `i` cut out is position `j` or `j + 1`
      of `s`. */
  lemma CutAt<T>(s: seq<T>, i: nat)
    requires i < |s|
    ensures |s[..i] + s[i + 1..]| == |s| - 1
    ensures forall j :: 0 <= j < i ==> (s[..i] + s[i + 1..])[j] == s[j]
    ensures forall j :: i < j < |s| ==> (s[..i] + s[i + 1..])[j - 1] == s[j]
  {
  }

  lemma DistinctCut<K>(keys: seq<K>, i: nat)
    requires Distinct(keys) && i < |keys|
    ensures Distinct(keys[..i] + keys[i + 1..])
  {
    CutAt(keys, i);
  }

  /** Every pair left after cutting position `i` out was a pair before, under
      another key than `keys[i]`. */
  lemma PairsCutBelow<K, V>(keys: seq<K>, values: seq<V>, i: nat, key: K)
    requires |keys| == |values| && Distinct(keys) && i < |keys|
    requires Distinct(keys[..i] + keys[i + 1..])
    requires key in Pairs(keys[..i] + keys[i + 1..], values[..i] + values[i + 1..])
    ensures key != keys[i] && key in Pairs(keys, values)
    ensures Pairs(keys[..i] + keys[i + 1..], values[..i] + values[i + 1..])[key] == Pairs(keys, values)[key]
  {
    var keys', values' := keys[..i] + keys[i + 1..], values[..i] + values[i + 1..];
    CutAt(keys, i);
    CutAt(values, i);
    var j :| 0 <= j < |keys'| && keys'[j] == key;
    PairsAt(keys', values', j);
    PairsAt(keys, values, if j < i then j else j + 1);
  }

  /** Every key but `keys[i]` survives cutting position `i` out. */
  lemma PairsCutAbove<K, V>(keys: seq<K>, values: seq<V>, i: nat, key: K)
    requires |keys| == |values| && Distinct(keys) && i < |keys|
    requires Distinct(keys[..i] + keys[i + 1..])
    requires key in Pairs(keys, values) && key != keys[i]
    ensures key in Pairs(keys[..i] + keys[i + 1..], values[..i] + values[i + 1..])
  {
    CutAt(keys, i);
    CutAt(values, i);
    var j :| 0 <= j < |keys| && keys[j] == key;
    PairsAt(keys[..i] + keys[i + 1..], values[..i] + values[i + 1..], if j < i then j else j - 1);
  }

  lemma PairsRemove<K, V>(keys: seq<K>, values: seq<V>, i: nat)
    requires |keys| == |values| && Distinct(keys) && i < |keys|
    ensures Distinct(keys[..i] + keys[i + 1..])
    ensures Pairs(keys[..i] + keys[i + 1..], values[..i] + values[i + 1..]) == Pairs(keys, values) - {keys[i]}
  {
    DistinctCut(keys, i);
    var lhs, rhs := Pairs(keys[..i] + keys[i + 1..], values[..i] + values[i + 1..]), Pairs(keys, values) - {keys[i]};
    forall key | key in lhs
      ensures key in rhs && lhs[key] == rhs[key]
    {
      PairsCutBelow(keys, values, i, key);
    }
    forall key | key in rhs
      ensures key in lhs
    {
      PairsCutAbove(keys, values, i, key);
    }
    assert lhs == rhs;
  }

  class VecMap<K(==), V> {
    var keys: seq<K>
    var values: seq<V>

    ghost predicate Valid()
      reads this
    {
      |keys| == |values| && Distinct(keys)
    }

    ghost function Contents(): map<K, V>
      reads this
      requires Valid()
    {
      Pairs(keys, values)
    }

    constructor New()
      ensures Valid() && keys == [] && values == [] && Contents() == map[]
    {
      keys, values := [], [];
    }

    /** `with_capacity`: the reserved capacity is not modelled. */
    constructor WithCapacity(c: nat)
      ensures Valid() && keys == [] && values == [] && Contents() == map[]
    {
      keys, values := [], [];
    }

    /** `should_convert` with the comparison the switch needs: a flat map becomes
        a hash map once it holds more than THRESHOLD entries. */
    function ShouldConvert(): (b: bool)
      reads this
      requires Valid()
      ensures b <==> |Contents()| > THRESHOLD
    {
      PairsCardinality(keys, values);
      |keys| > THRESHOLD
    }

    /** `should_convert` as written: `len <= THRESHOLD`. */
    function ShouldConvertAsWritten(): bool
      reads this
    {
      |keys| <= THRESHOLD
    }

    function Len(): (n: nat)
      reads this
      requires Valid()
      ensures n == |Contents()|
    {
      PairsCardinality(keys, values);
      |keys|
    }

    /** `insert`: on a stored key, swap in the new value and hand back the
        argument key with the old value; otherwise push to both vectors. */
    method Insert(k: K, v: V) returns (r: Option<(K, V)>)
      requires Valid()
      modifies this
      ensures Valid()
      ensures Contents() == old(Contents())[k := v]
      ensures k in old(Contents()) ==> r == Some((k, old(Contents())[k])) && keys == old(keys)
      ensures k !in old(Contents()) ==> r == None && keys == old(keys) + [k] && values == old(values) + [v]
    {
      PairsKeys(keys, values);
      for i := 0 to |keys|
        invariant k !in keys[..i]
      {
        if keys[i] == k {
          PairsAt(keys, values, i);
          var previous := values[i];
          PairsUpdate(keys, values, i, v);
          values := values[i := v];
          return Some((k, previous));
        }
      }
      assert keys[..|keys|] == keys;
      PairsAppend(keys, values, k, v);
      keys := keys + [k];
      values := values + [v];
      r := None;
    }

    /** The position of `k` in `keys`, searched from the front. */
    method Find(k: K) returns (r: Option<nat>)
      requires Valid()
      ensures r.None? <==> k !in Contents()
      ensures r.Some? ==> r.value < |keys| && keys[r.value] == k
    {
      PairsKeys(keys, values);
      for i := 0 to |keys|
        invariant k !in keys[..i]
      {
        if keys[i] == k {
          return Some(i);
        }
      }
      assert keys[..|keys|] == keys;
      return None;
    }

    /** `remove`: take the matching position out of both vectors, keeping the
        order of the rest. */
    method Remove(k: K) returns (r: Option<(K, V)>)
      requires Valid()
      modifies this
      ensures Valid()
      ensures Contents() == old(Contents()) - {k}
      ensures k !in old(Contents()) ==> r == None && keys == old(keys) && values == old(values)
      ensures k in old(Contents()) ==>
        && r == Some((k, old(Contents())[k]))
        && exists i :: 0 <= i < |old(keys)| && old(keys)[i] == k &&
             keys == old(keys)[..i] + old(keys)[i + 1..] && values == old(values)[..i] + old(values)[i + 1..]
    {
      var found := Find(k);
      if found.None? {
        assert Contents() - {k} == Contents();
        return None;
      }
      var i := found.value;
      PairsAt(keys, values, i);
      PairsRemove(keys, values, i);
      r := Some((keys[i], values[i]));
      keys := keys[..i] + keys[i + 1..];
      values := values[..i] + values[i + 1..];
    }

    /** `get`: the value at the matching key's position. */
    method Get(k: K) returns (r: Option<V>)
      requires Valid()
      ensures r.None? <==> k !in Contents()
      ensures r.Some? ==> r.value == Contents()[k]
    {
      var found := Find(k);
      if found.None? {
        return None;
      }
      PairsAt(keys, values, found.value);
      return Some(values[found.value]);
    }

    /** `get_mut`, followed by writing `update(v)` through the reference. */
    method GetMut(k: K, update: V -> V) returns (r: Option<V>)
      requires Valid()
      modifies this
      ensures Valid() && keys == old(keys)
      ensures k !in old(Contents()) ==> r == None && values == old(values)
      ensures k in old(Contents()) ==>
        r == Some(update(old(Contents())[k])) && Contents() == old(Contents())[k := update(old(Contents())[k])]
    {
      var found := Find(k);
      if found.None? {
        return None;
      }
      var i := found.value;
      PairsAt(keys, values, i);
      PairsUpdate(keys, values, i, update(values[i]));
      values := values[i := update(values[i])];
      r := Some(values[i]);
    }

    /** `into_hashmap`: insert the pairs, in order, into a fresh hash map. */
    method IntoHashMap() returns (m: map<K, V>)
      requires Valid()
      ensures m == Contents()
      ensures |m| == |keys|
    {
      m := map[];
      for i := 0 to |keys|
        invariant m == Pairs(keys[..i], values[..i])
      {
        assert keys[..i + 1] == keys[..i] + [keys[i]] && values[..i + 1] == values[..i] + [values[i]];
        PairsAppend(keys[..i], values[..i], keys[i], values[i]);
        m := m[keys[i] := values[i]];
      }
      assert keys[..|keys|] == keys && values[..|values|] == values;
      PairsCardinality(keys, values);
    }
  }

  /** A flat map of any size below the threshold, the empty one included, is
      converted by the `should_convert` as written, and one above it never is. */
  lemma ShouldConvertAsWrittenInverted<K, V>(m: VecMap<K, V>)
    requires m.Valid()
    ensures m.ShouldConvertAsWritten() <==> !m.ShouldConvert()
  {
  }

  /** The empty map is converted straight away by the `should_convert` as written. */
  method ShouldConvertAsWrittenOnEmpty<K(==), V>() returns (m: VecMap<K, V>)
    ensures m.Valid() && m.Contents() == map[]
    ensures m.ShouldConvertAsWritten() && !m.ShouldConvert()
  {
    m := new VecMap.New();
  }
}
