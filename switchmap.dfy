/** `SwitchMap` (src/switchmap/mod.rs): a map that starts as a flat `VecMap` and
    is switched, in place, to a hash map by `do_check_convert`. */
module SwitchMaps {
  import opened Common
  import opened VecMaps

  datatype Variant<K(==), V> = Flat(vec: VecMap<K, V>) | Map(entries: map<K, V>)

  class SwitchMap<K(==), V> {
    var variant: Variant<K, V>

    ghost predicate Valid()
      reads this, if variant.Flat? then {variant.vec} else {}
    {
      variant.Flat? ==> variant.vec.Valid()
    }

    ghost function Contents(): map<K, V>
      reads this, if variant.Flat? then {variant.vec} else {}
      requires Valid()
    {
      match variant
      case Flat(vec) => vec.Contents()
      case Map(entries) => entries
    }

    /** `new`: an empty flat map. */
    constructor New()
      ensures Valid() && variant.Flat? && fresh(variant.vec) && Contents() == map[]
    {
      var vec := new VecMap.New();
      variant := Flat(vec);
    }

    /** `with_capacity(c)`: a hash map when `c` exceeds THRESHOLD, else a flat map. */
    constructor WithCapacity(c: nat)
      ensures Valid() && Contents() == map[]
      ensures variant.Map? <==> c > THRESHOLD
      ensures variant.Flat? ==> fresh(variant.vec)
    {
      if c > THRESHOLD {
        variant := Map(map[]);
      } else {
        var vec := new VecMap.WithCapacity(c);
        variant := Flat(vec);
      }
    }

    /** `do_check_convert` as intended: a flat map that should convert is replaced by the
        hash map holding the same entries; anything else is left alone. */
    method DoCheckConvert()
      requires Valid()
      modifies this
      ensures Valid() && Contents() == old(Contents())
      ensures variant.Map? <==> old(variant.Map?) || old(variant.vec.ShouldConvert())
      ensures variant.Flat? ==> variant == old(variant) && |Contents()| <= THRESHOLD
    {
      if variant.Flat? && variant.vec.ShouldConvert() {
        var entries := variant.vec.IntoHashMap();
        variant := Map(entries);
      }
    }

    /** `do_check_convert` as written, driven by the `should_convert` as written
        (`len <= THRESHOLD`): a flat map holding at most THRESHOLD entries, the
        empty one included, is replaced by a hash map, and a larger one is left
        flat. */
    method DoCheckConvertAsWritten()
      requires Valid()
      modifies this
      ensures Valid() && Contents() == old(Contents())
      ensures variant.Map? <==> old(variant.Map?) || old(variant.vec.ShouldConvertAsWritten())
      ensures variant.Map? <==> old(variant.Map?) || |old(Contents())| <= THRESHOLD
      ensures variant.Flat? ==> variant == old(variant) && |Contents()| > THRESHOLD
    {
      if variant.Flat? && variant.vec.ShouldConvertAsWritten() {
        var entries := variant.vec.IntoHashMap();
        variant := Map(entries);
      } else if variant.Flat? {
        PairsCardinality(variant.vec.keys, variant.vec.values);
      }
    }

    /** `len`: the length of the underlying map. */
    function Len(): (n: nat)
      reads this, if variant.Flat? then {variant.vec} else {}
      requires Valid()
      ensures n == |Contents()|
    {
      match variant
      case Flat(vec) => vec.Len()
      case Map(entries) => |entries|
    }

    /** `insert`: the previous value for the key, in either variant. */
    method Insert(k: K, v: V) returns (r: Option<V>)
      requires Valid()
      modifies this, if variant.Flat? then {variant.vec} else {}
      ensures Valid() && variant.Flat? == old(variant.Flat?)
      ensures variant.Flat? ==> variant == old(variant)
      ensures Contents() == old(Contents())[k := v]
      ensures k in old(Contents()) ==> r == Some(old(Contents())[k])
      ensures k !in old(Contents()) ==> r == None
    {
      match variant
      case Flat(vec) =>
        var displaced := vec.Insert(k, v);
        r := if displaced.Some? then Some(displaced.value.1) else None;
      case Map(entries) =>
        r := if k in entries then Some(entries[k]) else None;
        variant := Map(entries[k := v]);
    }

    method Get(k: K) returns (r: Option<V>)
      requires Valid()
      ensures r.None? <==> k !in Contents()
      ensures r.Some? ==> r.value == Contents()[k]
    {
      match variant
      case Flat(vec) =>
        r := vec.Get(k);
      case Map(entries) =>
        r := if k in entries then Some(entries[k]) else None;
    }

    /** `get_mut`, followed by writing `update(v)` through the reference. */
    method GetMut(k: K, update: V -> V) returns (r: Option<V>)
      requires Valid()
      modifies this, if variant.Flat? then {variant.vec} else {}
      ensures Valid() && variant.Flat? == old(variant.Flat?)
      ensures variant.Flat? ==> variant == old(variant)
      ensures k !in old(Contents()) ==> r == None && Contents() == old(Contents())
      ensures k in old(Contents()) ==>
        r == Some(update(old(Contents())[k])) && Contents() == old(Contents())[k := update(old(Contents())[k])]
    {
      match variant
      case Flat(vec) =>
        r := vec.GetMut(k, update);
        if r.None? {
          assert vec.Contents() == old(vec.Contents());
        }
      case Map(entries) =>
        if k in entries {
          r := Some(update(entries[k]));
          variant := Map(entries[k := update(entries[k])]);
        } else {
          r := None;
        }
    }

    /** `contains_key`: `get(k).is_some()`. */
    method ContainsKey(k: K) returns (b: bool)
      requires Valid()
      ensures b <==> k in Contents()
    {
      var found := Get(k);
      b := found.Some?;
    }

    /** `remove`: the removed value; the key is absent afterwards. */
    method Remove(k: K) returns (r: Option<V>)
      requires Valid()
      modifies this, if variant.Flat? then {variant.vec} else {}
      ensures Valid() && variant.Flat? == old(variant.Flat?)
      ensures variant.Flat? ==> variant == old(variant)
      ensures Contents() == old(Contents()) - {k}
      ensures k in old(Contents()) ==> r == Some(old(Contents())[k])
      ensures k !in old(Contents()) ==> r == None
    {
      match variant
      case Flat(vec) =>
        var removed := vec.Remove(k);
        r := if removed.Some? then Some(removed.value.1) else None;
      case Map(entries) =>
        r := if k in entries then Some(entries[k]) else None;
        variant := Map(entries - {k});
    }
  }

  /** As written, a freshly created (empty) switch map is turned into a hash map
      by its first `do_check_convert`. */
  method EmptyConvertsAsWritten<K(==), V>() returns (m: SwitchMap<K, V>)
    ensures m.Valid() && m.variant.Map? && m.Contents() == map[]
  {
    m := new SwitchMap.New();
    m.DoCheckConvertAsWritten();
  }

  /** As intended, the empty switch map stays flat. */
  method EmptyStaysFlat<K(==), V>() returns (m: SwitchMap<K, V>)
    ensures m.Valid() && m.variant.Flat? && m.Contents() == map[]
  {
    m := new SwitchMap.New();
    m.DoCheckConvert();
  }
}
