/** `HLTimedCacheInner` (src/hltimedcache.rs): a timed cache that keeps saved
    and unsaved entries in two maps, with a third map `lookup` telling which
    of the two holds a key. Instants and durations are counts of nanoseconds;
    `Instant::now()` is the `now` input of each operation, and the loader and
    saver are function parameters. */
module HLTimedCaches {
  import opened Common

  const SECOND: nat := 1_000_000_000
  const VALID_DURATION: nat := 3 * 60 * 60 * SECOND
  const VALID_CHECK_INTERVAL: nat := 15 * 60 * SECOND
  const SAVE_INTERVAL: nat := 3 * 60 * SECOND

  /** An `Entry`: its load time, whether it is saved, and the value. */
  datatype Entry<V> = Entry(time: nat, saved: bool, data: V)

  /** `to_evict` as written: `time.duration_since(now)`, the time elapsed from
      `now` to the load time, which is zero for any entry loaded at or before
      `now`. */
  predicate ToEvictAsWritten<V>(e: Entry<V>, now: nat)
  {
    Elapsed(e.time, now) > VALID_DURATION && e.saved
  }

  /** `to_evict` as intended: saved and loaded more than VALID_DURATION before
      `now`, the test `timedcache.rs` makes. */
  predicate ToEvict<V>(e: Entry<V>, now: nat)
  {
    Elapsed(now, e.time) > VALID_DURATION && e.saved
  }

  /** As written, no entry loaded at or before `now` is ever evicted, however
      old: here one loaded VALID_DURATION + 1 nanoseconds ago. */
  lemma ToEvictAsWrittenNeverHolds<V>(data: V)
    ensures var e := Entry(0, true, data);
      !ToEvictAsWritten(e, VALID_DURATION + 1) && ToEvict(e, VALID_DURATION + 1)
  {
  }

  /** The three maps of the cache. */
  datatype Stores<K, V> = Stores(saved: map<K, Entry<V>>, unsaved: map<K, Entry<V>>, lookup: map<K, bool>)

  /** The comment on `lookup`: true exactly for the keys in `saved`, false
      exactly for the keys in `unsaved`. */
  ghost predicate Coherent<K(!new), V>(s: Stores<K, V>)
  {
    && (forall k :: k in s.saved <==> k in s.lookup && s.lookup[k])
    && (forall k :: k in s.unsaved <==> k in s.lookup && !s.lookup[k])
    && (forall k :: k in s.saved ==> s.saved[k].saved)
    && (forall k :: k in s.unsaved ==> !s.unsaved[k].saved)
  }

  /** The invariant every operation as written keeps, coherent or not: each
      unsaved key has a `lookup` record, so the `lookup.get_mut(&k).unwrap()`
      of the save phase never panics. */
  ghost predicate Tracked<K(!new), V>(s: Stores<K, V>)
  {
    s.unsaved.Keys <= s.lookup.Keys
  }

  /** The entry `lookup` points to: the one `map` reads after its two unwraps. */
  function Find<K(!new), V>(s: Stores<K, V>, k: K): (r: Option<Entry<V>>)
    ensures Coherent(s) ==> (r.Some? <==> k in s.lookup)
    ensures Coherent(s) && k in s.saved ==> r == Some(s.saved[k])
    ensures Coherent(s) && k in s.unsaved ==> r == Some(s.unsaved[k])
  {
    if k !in s.lookup then None
    else if s.lookup[k] then (if k in s.saved then Some(s.saved[k]) else None)
    else (if k in s.unsaved then Some(s.unsaved[k]) else None)
  }

  /** The stores after `map_mut` has detached key `k`'s entry: moved out of
      `saved` and marked unsaved when `lookup` says saved, and its value
      replaced by `data`. */
  function Touched<K(!new), V>(s: Stores<K, V>, k: K, data: V): (r: Stores<K, V>)
    requires Find(s, k).Some?
    ensures Coherent(s) ==> Coherent(r)
    ensures Tracked(s) ==> Tracked(r)
    ensures Find(r, k).Some? && Find(r, k).value.data == data
    ensures Coherent(s) ==> Find(r, k) == Some(Find(s, k).value.(saved := false, data := data))
    ensures forall j :: j != k ==> Find(r, j) == Find(s, j)
  {
    var e := Find(s, k).value;
    if s.lookup[k] then
      Stores(s.saved - {k}, s.unsaved[k := e.(saved := false, data := data)], s.lookup[k := false])
    else
      Stores(s.saved, s.unsaved[k := e.(data := data)], s.lookup)
  }

  /** The saved entries after the save loop has handled the keys `done` of
      the drained `pending` entries: those whose save succeeded, marked saved,
      over `base`. */
  ghost function SavedPart<K(!new), V>(saveItem: (K, V) -> bool, base: map<K, Entry<V>>, pending: map<K, Entry<V>>,
                                       done: set<K>): map<K, Entry<V>>
  {
    base + map k | k in pending && k in done && saveItem(k, pending[k].data) :: pending[k].(saved := true)
  }

  /** The entries whose save failed, over `base`. */
  ghost function FailedPart<K(!new), V>(saveItem: (K, V) -> bool, base: map<K, Entry<V>>, pending: map<K, Entry<V>>,
                                        done: set<K>): map<K, Entry<V>>
  {
    base + map k | k in pending && k in done && !saveItem(k, pending[k].data) :: pending[k]
  }

  /** `lookup` with the keys whose save succeeded set to true. */
  ghost function LookupPart<K(!new), V>(saveItem: (K, V) -> bool, base: map<K, bool>, pending: map<K, Entry<V>>,
                                        done: set<K>): map<K, bool>
  {
    map k | k in base :: if k in pending && k in done && saveItem(k, pending[k].data) then true else base[k]
  }

  lemma SavedPartStep<K(!new), V>(saveItem: (K, V) -> bool, base: map<K, Entry<V>>, pending: map<K, Entry<V>>,
                                  done: set<K>, k: K)
    requires k in pending && k !in done
    ensures var before := SavedPart(saveItem, base, pending, done);
      SavedPart(saveItem, base, pending, done + {k}) ==
        if saveItem(k, pending[k].data) then before[k := pending[k].(saved := true)] else before
  {
  }

  lemma FailedPartStep<K(!new), V>(saveItem: (K, V) -> bool, base: map<K, Entry<V>>, pending: map<K, Entry<V>>,
                                   done: set<K>, k: K)
    requires k in pending && k !in done
    ensures var before := FailedPart(saveItem, base, pending, done);
      FailedPart(saveItem, base, pending, done + {k}) ==
        if saveItem(k, pending[k].data) then before else before[k := pending[k]]
  {
  }

  lemma LookupPartStep<K(!new), V>(saveItem: (K, V) -> bool, base: map<K, bool>, pending: map<K, Entry<V>>,
                                   done: set<K>, k: K)
    requires k in pending && k !in done && k in base
    ensures var before := LookupPart(saveItem, base, pending, done);
      LookupPart(saveItem, base, pending, done + {k}) ==
        if saveItem(k, pending[k].data) then before[k := true] else before
  {
  }

  /** The save phase as written: `unsaved` is drained and an entry whose save
      fails is dropped. */
  ghost function SavedAsWritten<K(!new), V>(saveItem: (K, V) -> bool, s: Stores<K, V>): (r: Stores<K, V>)
    ensures r.unsaved == map[] && Tracked(r)
    ensures forall k :: k in r.saved <==> k in s.saved || (k in s.unsaved && saveItem(k, s.unsaved[k].data))
    ensures r.lookup.Keys == s.lookup.Keys
  {
    Stores(SavedPart(saveItem, s.saved, s.unsaved, s.unsaved.Keys), map[],
           LookupPart(saveItem, s.lookup, s.unsaved, s.unsaved.Keys))
  }

  /** An entry whose save fails is lost as written: its key stays in `lookup`,
      so it is never reloaded, yet `lookup` points at no entry. */
  lemma {:induction false} FailedSaveLosesEntry<K(!new), V>(saveItem: (K, V) -> bool, s: Stores<K, V>, k: K)
    requires Coherent(s) && k in s.unsaved && !saveItem(k, s.unsaved[k].data)
    ensures var r := SavedAsWritten(saveItem, s); k in r.lookup && Find(r, k) == None && !Coherent(r)
  {
    var r := SavedAsWritten(saveItem, s);
    assert k in s.lookup && !s.lookup[k];
    assert k !in s.saved;
    assert k !in r.saved;
    assert r.lookup[k] == s.lookup[k];
  }

  /** The save phase as intended: an entry whose save fails stays in
      `unsaved`, to be saved by a later check. */
  ghost function Saved<K(!new), V>(saveItem: (K, V) -> bool, s: Stores<K, V>): (r: Stores<K, V>)
    ensures Coherent(s) ==> Coherent(r)
    ensures forall k :: k in s.unsaved ==>
      if saveItem(k, s.unsaved[k].data) then k in r.saved && r.saved[k] == s.unsaved[k].(saved := true)
      else k in r.unsaved && r.unsaved[k] == s.unsaved[k]
    ensures Coherent(s) ==> forall k :: Find(s, k).Some? ==> Find(r, k).Some? && Find(r, k).value.data == Find(s, k).value.data
  {
    Stores(SavedPart(saveItem, s.saved, s.unsaved, s.unsaved.Keys),
           FailedPart(saveItem, map[], s.unsaved, s.unsaved.Keys),
           LookupPart(saveItem, s.lookup, s.unsaved, s.unsaved.Keys))
  }

  /** The purge as written: `saved.retain(|_, v| !v.to_evict(now))`. */
  function PurgedAsWritten<K(!new), V>(s: Stores<K, V>, now: nat): (r: Stores<K, V>)
    ensures r.unsaved == s.unsaved && r.lookup == s.lookup
    ensures (forall k :: k in s.saved ==> s.saved[k].time <= now) ==> r == s
  {
    s.(saved := map k | k in s.saved && !ToEvictAsWritten(s.saved[k], now) :: s.saved[k])
  }

  /** The purge as intended: evict the saved entries older than
      VALID_DURATION, and forget their `lookup` records so that they are
      loaded again on the next access. */
  function Purged<K(!new), V>(s: Stores<K, V>, now: nat): (r: Stores<K, V>)
    ensures Coherent(s) ==> Coherent(r)
    ensures r.unsaved == s.unsaved
    ensures forall k :: k in s.saved ==> (k in r.saved <==> !ToEvict(s.saved[k], now))
    ensures forall k :: k in r.saved ==> k in s.saved && r.saved[k] == s.saved[k]
  {
    var evicted := set k | k in s.saved && ToEvict(s.saved[k], now);
    Stores(s.saved - evicted, s.unsaved, s.lookup - evicted)
  }

  class HLTimedCache<K(==,!new), V> {
    const loadItem: K -> Option<V>
    const saveItem: (K, V) -> bool
    var saved: map<K, Entry<V>>
    var unsaved: map<K, Entry<V>>
    var lookup: map<K, bool>
    var lastSaved: nat
    var lastPurged: nat

    ghost function Stored(): Stores<K, V>
      reads this
    {
      Stores(saved, unsaved, lookup)
    }

    /** `new`: empty maps, both timestamps `now`. */
    constructor New(loadItem: K -> Option<V>, saveItem: (K, V) -> bool, now: nat)
      ensures Coherent(Stored()) && saved == map[] && unsaved == map[] && lookup == map[]
      ensures lastSaved == now && lastPurged == now
      ensures this.loadItem == loadItem && this.saveItem == saveItem
    {
      this.loadItem, this.saveItem := loadItem, saveItem;
      saved, unsaved, lookup := map[], map[], map[];
      lastSaved, lastPurged := now, now;
    }

    /** The stores after `load_item(k)` at time `now`: a key without a
        `lookup` record is loaded, as a new saved entry stamped `now`, when the
        loader finds it. */
    function Load(s: Stores<K, V>, k: K, now: nat): (r: Stores<K, V>)
      ensures Coherent(s) ==> Coherent(r)
      ensures Tracked(s) ==> Tracked(r)
      ensures r.unsaved == s.unsaved
      ensures k in r.lookup <==> k in s.lookup || loadItem(k).Some?
      ensures forall j :: j in s.lookup ==> Find(r, j) == Find(s, j)
      ensures k !in s.lookup && loadItem(k).Some? ==> Find(r, k) == Some(Entry(now, true, loadItem(k).value))
      ensures forall j :: j in r.lookup && j != k ==> j in s.lookup
    {
      if k in s.lookup then s
      else match loadItem(k)
        case Some(v) => Stores(s.saved[k := Entry(now, true, v)], s.unsaved, s.lookup[k := true])
        case None => s
    }

    /** `load_item`. */
    method LoadItem(k: K, now: nat)
      modifies this
      ensures Stored() == Load(old(Stored()), k, now)
      ensures lastSaved == old(lastSaved) && lastPurged == old(lastPurged)
    {
      if k !in lookup {
        var loaded := loadItem(k);
        if loaded.Some? {
          lookup := lookup[k := true];
          saved := saved[k := Entry(now, true, loaded.value)];
        }
      }
    }

    /** `map`: load the key, then apply `f` to the entry `lookup` points to;
        an `unwrap` panics when there is none. */
    method Map<T>(k: K, f: V -> T, now: nat) returns (r: Checked<T>)
      modifies this
      ensures Stored() == Load(old(Stored()), k, now)
      ensures lastSaved == old(lastSaved) && lastPurged == old(lastPurged)
      ensures r.Panics? <==> Find(Stored(), k).None?
      ensures r.Returns? ==> r.value == f(Find(Stored(), k).value.data)
    {
      LoadItem(k, now);
      if k !in lookup {
        return Panics;
      }
      if lookup[k] {
        if k !in saved {
          return Panics;
        }
        r := Returns(f(saved[k].data));
      } else {
        if k !in unsaved {
          return Panics;
        }
        r := Returns(f(unsaved[k].data));
      }
    }

    /** `map_mut`: load the key; an entry in `saved` is moved to `unsaved`,
        marked unsaved, with `lookup` false; then `f` updates the value in
        `unsaved` and produces the result. */
    method MapMut<T>(k: K, f: V -> (V, T), now: nat) returns (r: Checked<T>)
      modifies this
      ensures lastSaved == old(lastSaved) && lastPurged == old(lastPurged)
      ensures var l := Load(old(Stored()), k, now);
        && (Find(l, k).None? ==> r.Panics? && Stored() == l)
        && (Find(l, k).Some? ==>
              var data := Find(l, k).value.data;
              r == Returns(f(data).1) && Stored() == Touched(l, k, f(data).0))
    {
      LoadItem(k, now);
      if k !in lookup {
        return Panics;
      }
      if lookup[k] {
        if k !in saved {
          return Panics;
        }
        var e := saved[k];
        saved := saved - {k};
        unsaved := unsaved[k := e.(saved := false)];
        lookup := lookup[k := false];
      }
      if k !in unsaved {
        return Panics;
      }
      var (data, t) := f(unsaved[k].data);
      unsaved := unsaved[k := unsaved[k].(data := data)];
      r := Returns(t);
    }

    /** The closure the save phase runs on one drained entry `k`: on a
        successful save, `lookup` true and the entry in `saved`, marked saved;
        on a failure, the entry is dropped, or collected into `failed` when
        `keepFailed` holds. */
    method SaveEntry(pending: map<K, Entry<V>>, saved0: map<K, Entry<V>>, lookup0: map<K, bool>, keepFailed: bool,
                     ghost done: set<K>, k: K, saved: map<K, Entry<V>>, failed: map<K, Entry<V>>, lookup: map<K, bool>)
      returns (saved': map<K, Entry<V>>, failed': map<K, Entry<V>>, lookup': map<K, bool>)
      requires k in pending && k !in done && k in lookup0
      requires saved == SavedPart(saveItem, saved0, pending, done)
      requires failed == if keepFailed then FailedPart(saveItem, map[], pending, done) else map[]
      requires lookup == LookupPart(saveItem, lookup0, pending, done)
      ensures saved' == SavedPart(saveItem, saved0, pending, done + {k})
      ensures failed' == if keepFailed then FailedPart(saveItem, map[], pending, done + {k}) else map[]
      ensures lookup' == LookupPart(saveItem, lookup0, pending, done + {k})
    {
      SavedPartStep(saveItem, saved0, pending, done, k);
      FailedPartStep(saveItem, map[], pending, done, k);
      LookupPartStep(saveItem, lookup0, pending, done, k);
      var v := pending[k];
      saved', failed', lookup' := saved, failed, lookup;
      if saveItem(k, v.data) {
        lookup' := lookup[k := true];
        saved' := saved[k := v.(saved := true)];
      } else if keepFailed {
        failed' := failed[k := v];
      }
    }

    /** The loop of the save phase over the drained `pending` entries, on
        the maps `saved` and `lookup` it updates. `keepFailed` false is the
        code as written; true is the correction that collects the entries
        whose save fails, to be put back into `unsaved`. */
    method SaveLoop(pending: map<K, Entry<V>>, saved0: map<K, Entry<V>>, lookup0: map<K, bool>, keepFailed: bool)
      returns (saved: map<K, Entry<V>>, failed: map<K, Entry<V>>, lookup: map<K, bool>)
      requires pending.Keys <= lookup0.Keys
      ensures saved == SavedPart(saveItem, saved0, pending, pending.Keys)
      ensures failed == if keepFailed then FailedPart(saveItem, map[], pending, pending.Keys) else map[]
      ensures lookup == LookupPart(saveItem, lookup0, pending, pending.Keys)
    {
      saved, failed, lookup := saved0, map[], lookup0;
      var todo := pending.Keys;
      ghost var done: set<K> := {};
      while todo != {}
        invariant todo <= pending.Keys && done == pending.Keys - todo
        invariant saved == SavedPart(saveItem, saved0, pending, done)
        invariant failed == if keepFailed then FailedPart(saveItem, map[], pending, done) else map[]
        invariant lookup == LookupPart(saveItem, lookup0, pending, done)
        decreases todo
      {
        var k :| k in todo;
        saved, failed, lookup := SaveEntry(pending, saved0, lookup0, keepFailed, done, k, saved, failed, lookup);
        todo := todo - {k};
        done := done + {k};
      }
      assert done == pending.Keys;
    }

    /** The save phase of `do_check`: drain `unsaved` and call the saver once
        per drained entry; as written, or with the entries whose save fails
        put back into `unsaved`. It needs only `Tracked`, which the code as
        written keeps even after a failed save has broken `Coherent`. */
    method SavePhase(keepFailed: bool)
      requires Tracked(Stored())
      modifies this
      ensures Stored() == if keepFailed then Saved(saveItem, old(Stored())) else SavedAsWritten(saveItem, old(Stored()))
      ensures lastSaved == old(lastSaved) && lastPurged == old(lastPurged)
    {
      saved, unsaved, lookup := SaveLoop(unsaved, saved, lookup, keepFailed);
    }

    /** `do_check` as written: the save phase when more than SAVE_INTERVAL has
        passed since the last save, then the purge when more than
        VALID_CHECK_INTERVAL has passed since the last purge. */
    method DoCheckAsWritten(now: nat)
      requires Tracked(Stored())
      modifies this
      ensures Tracked(Stored())
      ensures lastSaved == if Elapsed(now, old(lastSaved)) > SAVE_INTERVAL then now else old(lastSaved)
      ensures lastPurged == if Elapsed(now, old(lastPurged)) > VALID_CHECK_INTERVAL then now else old(lastPurged)
      ensures var afterSave := if Elapsed(now, old(lastSaved)) > SAVE_INTERVAL then SavedAsWritten(saveItem, old(Stored())) else old(Stored());
        Stored() == if Elapsed(now, old(lastPurged)) > VALID_CHECK_INTERVAL then PurgedAsWritten(afterSave, now) else afterSave
    {
      if Elapsed(now, lastSaved) > SAVE_INTERVAL {
        lastSaved := now;
        SavePhase(false);
      }
      if Elapsed(now, lastPurged) > VALID_CHECK_INTERVAL {
        lastPurged := now;
        var purged := PurgedAsWritten(Stores(saved, unsaved, lookup), now);
        saved := purged.saved;
      }
    }

    /** `do_check` as intended: it keeps `lookup` coherent, so every key
        `lookup` knows keeps its value until it is evicted. */
    method DoCheck(now: nat)
      requires Coherent(Stored())
      modifies this
      ensures Coherent(Stored())
      ensures lastSaved == if Elapsed(now, old(lastSaved)) > SAVE_INTERVAL then now else old(lastSaved)
      ensures lastPurged == if Elapsed(now, old(lastPurged)) > VALID_CHECK_INTERVAL then now else old(lastPurged)
      ensures var afterSave := if Elapsed(now, old(lastSaved)) > SAVE_INTERVAL then Saved(saveItem, old(Stored())) else old(Stored());
        Stored() == if Elapsed(now, old(lastPurged)) > VALID_CHECK_INTERVAL then Purged(afterSave, now) else afterSave
    {
      if Elapsed(now, lastSaved) > SAVE_INTERVAL {
        lastSaved := now;
        SavePhase(true);
      }
      if Elapsed(now, lastPurged) > VALID_CHECK_INTERVAL {
        lastPurged := now;
        var purged := Purged(Stores(saved, unsaved, lookup), now);
        saved, lookup := purged.saved, purged.lookup;
      }
    }
  }

  /** As written: a value changed by `map_mut` whose save fails is gone, and
      every later `map` of its key panics, also after a further check. */
  method LostAfterFailedSave() returns (r: Checked<int>, later: Checked<int>)
    ensures r == Panics && later == Panics
  {
    var cache := new HLTimedCache<int, int>.New(k => Some(k), (k, v) => false, 0);
    var _ := cache.MapMut(1, v => (v + 1, 0), 0);
    cache.DoCheckAsWritten(SAVE_INTERVAL + 1);
    r := cache.Map(1, v => v, SAVE_INTERVAL + 1);
    cache.DoCheckAsWritten(2 * SAVE_INTERVAL + 2);
    later := cache.Map(1, v => v, 2 * SAVE_INTERVAL + 2);
  }

  /** As intended: the same calls keep the changed value. */
  method KeptAfterFailedSave() returns (r: Checked<int>)
    ensures r == Returns(2)
  {
    var cache := new HLTimedCache<int, int>.New(k => Some(k), (k, v) => false, 0);
    var _ := cache.MapMut(1, v => (v + 1, 0), 0);
    cache.DoCheck(SAVE_INTERVAL + 1);
    r := cache.Map(1, v => v, SAVE_INTERVAL + 1);
  }
}
