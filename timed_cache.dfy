/** `TimedCache` (src/timedcache.rs): a cache of loaded values, each stored
    with its load time and a saved flag. `do_check` saves the dirty entries
    every `save_interval` and evicts the old saved ones every
    `valid_check_interval`. Instants and durations are counts of nanoseconds;
    `Instant::now()` is the `now` input of each operation, and the loader and
    saver are function parameters. */
module TimedCaches {
  import opened Common

  const SECOND: nat := 1_000_000_000
  const VALID_DURATION: nat := 6 * 60 * 60 * SECOND
  const VALID_CHECK_INTERVAL: nat := 30 * 60 * SECOND
  const SAVE_INTERVAL: nat := 3 * 60 * SECOND

  /** A stored `(V, Instant, bool)`: the value, its load time, and whether it
      is saved (false once `map_mut` has handed it out). */
  datatype Record<V> = Record(value: V, loaded: nat, saved: bool)

  /** The saver's effect on one entry: a dirty entry whose save succeeds
      becomes saved; the saver is not consulted for a saved entry. */
  function SaveStep<K, V>(saveItem: (K, V) -> bool, k: K, r: Record<V>): (s: Record<V>)
    ensures s.value == r.value && s.loaded == r.loaded
    ensures s.saved <==> r.saved || saveItem(k, r.value)
  {
    if !r.saved && saveItem(k, r.value) then r.(saved := true) else r
  }

  /** The save phase over the whole storage. */
  function SavedAll<K, V>(saveItem: (K, V) -> bool, storage: map<K, Record<V>>): (r: map<K, Record<V>>)
    ensures r.Keys == storage.Keys
    ensures forall k :: k in r ==> r[k].value == storage[k].value && r[k].loaded == storage[k].loaded
    ensures forall k :: k in r ==> (r[k].saved <==> storage[k].saved || saveItem(k, storage[k].value))
  {
    map k | k in storage :: SaveStep(saveItem, k, storage[k])
  }

  /** `check_to_evict`: older than `validDuration` and saved. */
  predicate Expired<V>(r: Record<V>, now: nat, validDuration: nat)
  {
    Elapsed(now, r.loaded) > validDuration && r.saved
  }

  /** `retain(|k, v| !check_to_evict(k, v))`. */
  function Purged<K, V>(storage: map<K, Record<V>>, now: nat, validDuration: nat): (r: map<K, Record<V>>)
    ensures r.Keys <= storage.Keys
    ensures forall k :: k in r ==> r[k] == storage[k]
    ensures forall k :: k in storage && !storage[k].saved ==> k in r
    ensures forall k :: k in storage && Elapsed(now, storage[k].loaded) <= validDuration ==> k in r
    ensures forall k :: k in storage && storage[k].saved && Elapsed(now, storage[k].loaded) > validDuration ==> k !in r
  {
    map k | k in storage && !Expired(storage[k], now, validDuration) :: storage[k]
  }

  /** The keys the save phase hands to the saver: the dirty ones. */
  ghost function DirtyKeys<K, V>(storage: map<K, Record<V>>): set<K>
  {
    set k | k in storage && !storage[k].saved
  }

  /** No key occurs twice in `s` from index `from` on. */
  ghost predicate DistinctFrom<K>(s: seq<K>, from: nat)
  {
    forall i, j :: from <= i < j < |s| ==> s[i] != s[j]
  }

  class TimedCache<K(==), V> {
    const loadItem: K -> Option<V>
    const saveItem: (K, V) -> bool
    const validDuration: nat
    const validCheckInterval: nat
    const saveInterval: nat
    var storage: map<K, Record<V>>
    var lastSaved: nat
    var lastPurged: nat
    /** The keys handed to the saver, in call order. */
    ghost var saveCalls: seq<K>

    /** `new`: an empty cache; a duration passed as None takes its default. */
    constructor New(loadItem: K -> Option<V>, saveItem: (K, V) -> bool,
                    validDuration: Option<nat>, validCheckInterval: Option<nat>, saveInterval: Option<nat>,
                    now: nat)
      ensures storage == map[] && lastSaved == now && lastPurged == now && saveCalls == []
      ensures this.loadItem == loadItem && this.saveItem == saveItem
      ensures this.validDuration == (if validDuration.Some? then validDuration.value else VALID_DURATION)
      ensures this.validCheckInterval == (if validCheckInterval.Some? then validCheckInterval.value else VALID_CHECK_INTERVAL)
      ensures this.saveInterval == (if saveInterval.Some? then saveInterval.value else SAVE_INTERVAL)
    {
      this.loadItem, this.saveItem := loadItem, saveItem;
      this.validDuration := match validDuration case Some(d) => d case None => VALID_DURATION;
      this.validCheckInterval := match validCheckInterval case Some(d) => d case None => VALID_CHECK_INTERVAL;
      this.saveInterval := match saveInterval case Some(d) => d case None => SAVE_INTERVAL;
      storage, lastSaved, lastPurged, saveCalls := map[], now, now, [];
    }

    /** The storage after `load_item(k)` at time `now`. */
    function Loaded(storage: map<K, Record<V>>, k: K, now: nat): (r: map<K, Record<V>>)
      ensures forall j :: j in storage ==> j in r && r[j] == storage[j]
      ensures forall j :: j in r && j != k ==> j in storage
      ensures k in r <==> k in storage || loadItem(k).Some?
      ensures k !in storage && k in r ==> r[k] == Record(loadItem(k).value, now, true)
    {
      if k in storage then storage
      else match loadItem(k)
        case Some(v) => storage[k := Record(v, now, true)]
        case None => storage
    }

    /** `load_item`: a present key is left alone; an absent one is stored,
        saved and stamped `now`, when the loader finds it. */
    method LoadItem(k: K, now: nat)
      modifies this
      ensures storage == Loaded(old(storage), k, now)
      ensures lastSaved == old(lastSaved) && lastPurged == old(lastPurged) && saveCalls == old(saveCalls)
    {
      if k !in storage {
        var loaded := loadItem(k);
        if loaded.Some? {
          storage := storage[k := Record(loaded.value, now, true)];
        }
      }
    }

    /** `map`: load the key, then apply `f` to its value; the `unwrap` panics
        when the key is neither present nor loadable. Nothing stored is
        changed beyond the load. */
    method Map<T>(k: K, f: V -> T, now: nat) returns (r: Checked<T>)
      modifies this
      ensures storage == Loaded(old(storage), k, now)
      ensures lastSaved == old(lastSaved) && lastPurged == old(lastPurged) && saveCalls == old(saveCalls)
      ensures r.Panics? <==> k !in storage
      ensures r.Returns? ==> r.value == f(storage[k].value)
    {
      LoadItem(k, now);
      if k in storage {
        r := Returns(f(storage[k].value));
      } else {
        r := Panics;
      }
    }

    /** `map_mut`: load the key, mark its entry unsaved, then let `f` update
        the value in place and produce the result; the load time is kept. */
    method MapMut<T>(k: K, f: V -> (V, T), now: nat) returns (r: Checked<T>)
      modifies this
      ensures lastSaved == old(lastSaved) && lastPurged == old(lastPurged) && saveCalls == old(saveCalls)
      ensures var loaded := Loaded(old(storage), k, now);
        && (k !in loaded ==> r.Panics? && storage == loaded)
        && (k in loaded ==>
              && r == Returns(f(loaded[k].value).1)
              && storage == loaded[k := Record(f(loaded[k].value).0, loaded[k].loaded, false)])
    {
      LoadItem(k, now);
      if k in storage {
        var e := storage[k];
        storage := storage[k := e.(saved := false)];
        var (v, t) := f(e.value);
        storage := storage[k := storage[k].(value := v)];
        r := Returns(t);
      } else {
        r := Panics;
      }
    }

    /** The save phase of `do_check`: every entry is visited once; the saver is
        called exactly once for each dirty entry, and a successful save marks
        the entry saved. */
    method SaveAll()
      modifies this
      ensures storage == SavedAll(saveItem, old(storage))
      ensures lastSaved == old(lastSaved) && lastPurged == old(lastPurged)
      ensures |saveCalls| >= |old(saveCalls)| && saveCalls[..|old(saveCalls)|] == old(saveCalls)
      ensures forall k :: k in saveCalls[|old(saveCalls)|..] <==> k in DirtyKeys(old(storage))
      ensures DistinctFrom(saveCalls, |old(saveCalls)|)
    {
      var todo := storage.Keys;
      ghost var done: set<K> := {};
      while todo != {}
        invariant todo !! done && todo + done == old(storage).Keys
        invariant storage.Keys == old(storage).Keys
        invariant forall k :: k in done ==> storage[k] == SaveStep(saveItem, k, old(storage)[k])
        invariant forall k :: k in todo ==> storage[k] == old(storage)[k]
        invariant lastSaved == old(lastSaved) && lastPurged == old(lastPurged)
        invariant |saveCalls| >= |old(saveCalls)| && saveCalls[..|old(saveCalls)|] == old(saveCalls)
        invariant forall k :: k in saveCalls[|old(saveCalls)|..] <==> k in done && !old(storage)[k].saved
        invariant DistinctFrom(saveCalls, |old(saveCalls)|)
        decreases todo
      {
        var k :| k in todo;
        var e := storage[k];
        ghost var before := saveCalls;
        if !e.saved {
          saveCalls := saveCalls + [k];
          assert saveCalls[|old(saveCalls)|..] == before[|old(saveCalls)|..] + [k];
          if saveItem(k, e.value) {
            storage := storage[k := e.(saved := true)];
          }
        }
        todo := todo - {k};
        done := done + {k};
      }
    }

    /** `do_check`: when more than `save_interval` has passed since the last
        save, stamp it and run the save phase; then, when more than
        `valid_check_interval` has passed since the last purge, stamp it and
        evict the expired saved entries. */
    method DoCheck(now: nat)
      modifies this
      ensures lastSaved == if Elapsed(now, old(lastSaved)) > saveInterval then now else old(lastSaved)
      ensures |saveCalls| >= |old(saveCalls)| && saveCalls[..|old(saveCalls)|] == old(saveCalls)
      ensures Elapsed(now, old(lastSaved)) > saveInterval ==>
        && DistinctFrom(saveCalls, |old(saveCalls)|)
        && (forall k :: k in saveCalls[|old(saveCalls)|..] <==> k in DirtyKeys(old(storage)))
      ensures Elapsed(now, old(lastSaved)) <= saveInterval ==> saveCalls == old(saveCalls)
      ensures var purgeDue := Elapsed(now, old(lastPurged)) > validCheckInterval;
        lastPurged == if purgeDue then now else old(lastPurged)
      ensures var afterSave := if Elapsed(now, old(lastSaved)) > saveInterval then SavedAll(saveItem, old(storage)) else old(storage);
        storage == if Elapsed(now, old(lastPurged)) > validCheckInterval then Purged(afterSave, now, validDuration) else afterSave
    {
      if Elapsed(now, lastSaved) > saveInterval {
        lastSaved := now;
        SaveAll();
      }
      if Elapsed(now, lastPurged) > validCheckInterval {
        lastPurged := now;
        storage := Purged(storage, now, validDuration);
      }
    }
  }

  /** A dirty entry whose save fails survives `do_check`, whatever its age. */
  lemma {:induction false} FailedSaveSurvives<K, V>(saveItem: (K, V) -> bool, storage: map<K, Record<V>>,
                                                      k: K, now: nat, validDuration: nat)
    requires k in storage && !storage[k].saved && !saveItem(k, storage[k].value)
    ensures k in Purged(SavedAll(saveItem, storage), now, validDuration)
    ensures k in Purged(storage, now, validDuration)
  {
    var saved := SavedAll(saveItem, storage);
    assert k in saved && !saved[k].saved;
  }
}
