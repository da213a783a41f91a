/** The sharded hash maps `DHashMap` (src/dhashmap/mod.rs and its older form
    src/dhashmap.rs) and `DashMap` (src/dashmap.rs). The three share one design:
    2^ncb shards, each an ordinary hash map behind its own lock, and a key lives in
    the shard named by the top `ncb` bits of a nonce-seeded 64-bit hash. They differ
    only in the hash function and in how the nonce seeds it, which the `hasher` and
    `seed` constants of `ShardedMap` capture; the locks are always acquired here. */
module ShardedMaps {
  import opened Common

  /** The shard of a key whose hash is `hash`: `hash >> (64 - ncb)`, the top `ncb`
      bits of the hash. With a single shard (`ncb == 0`) the index is 0; see
      `ShardIndexAsWritten` for what the source computes in that case. */
  function ShardIndex(hash: U64, ncb: nat): (i: nat)
    requires ncb <= 64
    ensures i < Pow2(ncb)
  {
    if ncb == 0 then 0
    else
      Pow2Words();
      ShrTopBits(hash, 64, ncb);
      Shr(hash, 64 - ncb)
  }

  /** `hash >> shift` on a u64 as a release build evaluates it: the shift amount
      is masked to its low six bits (a debug build panics on a shift of 64). */
  function WrappingShr64(hash: U64, shift: nat): nat
  {
    Shr(hash, shift % 64)
  }

  /** `determine_map` as written: `hash >> (64 - ncb)`. */
  function ShardIndexAsWritten(hash: U64, ncb: nat): nat
    requires ncb <= 64
  {
    WrappingShr64(hash, 64 - ncb)
  }

  /** For every shard count the constructors can build except one, the source's
      shift computes the intended shard. */
  lemma ShardIndexAsWrittenAgrees(hash: U64, ncb: nat)
    requires 1 <= ncb <= 64
    ensures ShardIndexAsWritten(hash, ncb) == ShardIndex(hash, ncb)
  {
  }

  /** With `new(0)` there is a single shard, but the shift by 64 leaves the whole
      hash, so the unchecked shard access is out of bounds. */
  lemma ShardIndexAsWrittenOutOfBounds()
    ensures ShardIndexAsWritten(5, 0) == 5 && Pow2(0) == 1
  {
  }

  /** `hash_nonce.wrapping_mul(192_876_129)`: the seed `DashMap` feeds the hasher,
      the product wrapped to 64 bits. */
  function DashMapSeed(nonce: U64): (s: U64)
    ensures (s - nonce * 192876129) % TWO_TO_64 == 0
  {
    var product := nonce * 192876129;
    ModAddMultiple(0, -(product / TWO_TO_64), TWO_TO_64);
    product % TWO_TO_64
  }

  /** The inverse of the odd multiplier 192876129 modulo 2^64. */
  const DASHMAP_SEED_INVERSE: U64 := 0xdf7e_164e_1d2a_15a1

  /** Adding a multiple of `m` to a residue below `m` leaves it unchanged modulo `m`. */
  lemma ModAddMultiple(x: int, k: int, m: int)
    requires 0 <= x < m
    ensures (x + k * m) % m == x
  {
    var r := x + k * m;
    var d := r / m - k;
    assert d * m == x - r % m;
    MulOutside(d, m);
  }

  /** A non-zero multiple of a positive `m` is at least `m` away from zero. */
  lemma MulOutside(d: int, m: int)
    requires m > 0
    ensures d >= 1 ==> d * m >= m
    ensures d <= -1 ==> d * m <= -m
  {
    if d >= 1 {
      assert d * m == (d - 1) * m + m;
      assert (d - 1) * m >= 0;
    } else if d <= -1 {
      assert d * m == -((-d - 1) * m) - m;
      assert (-d - 1) * m >= 0;
    }
  }

  /** The seed mixing loses nothing: multiplying the seed by the inverse of the
      multiplier, again wrapped to 64 bits, gives the nonce back. */
  lemma DashMapSeedInvertible(nonce: U64)
    ensures (DashMapSeed(nonce) * DASHMAP_SEED_INVERSE) % TWO_TO_64 == nonce
  {
    var q := (nonce * 192876129) / TWO_TO_64;
    var s := DashMapSeed(nonce);
    assert s == nonce * 192876129 - q * TWO_TO_64;
    assert 192876129 * DASHMAP_SEED_INVERSE == 1 + 168384272 * TWO_TO_64;
    calc {
      s * DASHMAP_SEED_INVERSE;
      (nonce * 192876129 - q * TWO_TO_64) * DASHMAP_SEED_INVERSE;
      nonce * (192876129 * DASHMAP_SEED_INVERSE) - q * DASHMAP_SEED_INVERSE * TWO_TO_64;
      nonce * (1 + 168384272 * TWO_TO_64) - q * DASHMAP_SEED_INVERSE * TWO_TO_64;
      nonce + (nonce * 168384272 - q * DASHMAP_SEED_INVERSE) * TWO_TO_64;
    }
    ModAddMultiple(nonce, nonce * 168384272 - q * DASHMAP_SEED_INVERSE, TWO_TO_64);
  }

  /** Distinct nonces give distinct seeds. */
  lemma DashMapSeedInjective(n1: U64, n2: U64)
    ensures DashMapSeed(n1) == DashMapSeed(n2) ==> n1 == n2
  {
    DashMapSeedInvertible(n1);
    DashMapSeedInvertible(n2);
  }

  /** The `i32` value of the integer `x`: two's complement wrap-around to 32 bits. */
  function WrapI32(x: int): (r: int)
    ensures -0x8000_0000 <= r < 0x8000_0000
    ensures (r - x) % TWO_TO_32 == 0
  {
    var m := x % TWO_TO_32;
    if m < 0x8000_0000 then m else m - TWO_TO_32
  }

  /** `1 << n` when the literal `1` is an `i32`, the type an otherwise
      unconstrained integer literal takes: the bit moves into the sign at
      n == 31, and with overflow checks a shift by 32 or more panics. */
  function I32OneShl(n: nat): (r: Checked<int>)
    ensures r.Panics? <==> n >= 32
    ensures r.Returns? ==> -0x8000_0000 <= r.value < 0x8000_0000 && (r.value - Pow2(n)) % TWO_TO_32 == 0
  {
    if n >= 32 then Panics else Returns(WrapI32(Pow2(n)))
  }

  /** The number of shards `new(n)` as written builds: `ncm` is `1 << n` on an
      `i32`, used only as the end of the range `0..ncm`, which is empty for a
      negative end. */
  function ShardCountAsWritten(n: nat): Checked<nat>
  {
    match I32OneShl(n)
    case Panics => Panics
    case Returns(ncm) => Returns(if ncm < 0 then 0 else ncm)
  }

  lemma Pow2At30()
    ensures Pow2(30) == 0x4000_0000 && Pow2(31) == 0x8000_0000
  {
    Pow2Words();
    assert Pow2(32) == 4 * Pow2(30);
  }

  /** Up to 2^30 shards the `i32` shift builds the shard count asked for. */
  lemma ShardCountAsWrittenAgrees(n: nat)
    requires n <= 30
    ensures ShardCountAsWritten(n) == Returns(Pow2(n))
  {
    Pow2Monotone(n, 30);
    Pow2At30();
  }

  /** `new(31)` as written builds no shard at all, while `determine_map` still
      routes keys to shards above 0: every access to them is out of bounds. */
  lemma ShardCountAsWrittenAt31()
    ensures ShardCountAsWritten(31) == Returns(0)
    ensures ShardIndex(TWO_TO_64 - 1, 31) >= 1
  {
    Pow2At30();
    Pow2Words();
    Pow2Add(33, 31);
    ShrAtLeastOne(TWO_TO_64 - 1, 33);
  }

  lemma {:induction false} ShrAtLeastOne(x: nat, s: nat)
    requires Pow2(s) <= x
    ensures Shr(x, s) >= 1
  {
    if s > 0 {
      assert Pow2(s - 1) <= x / 2;
      ShrAtLeastOne(x / 2, s - 1);
    }
  }

  /** From `new(32)` on, the `i32` shift overflows and a checked build panics. */
  lemma ShardCountAsWrittenPanics(n: nat)
    requires n >= 32
    ensures ShardCountAsWritten(n).Panics?
  {
  }

  /** `isize::MAX`, the largest size a Rust allocation may have. */
  const ISIZE_MAX: nat := 0x7FFF_FFFF_FFFF_FFFF

  /** The shard count of `new(n)` as intended: `1usize << n`, as `with_capacity`
      computes it, with the documented panic once 2^n exceeds `isize::MAX`. */
  function ShardCount(n: nat): (r: Checked<nat>)
    ensures r.Returns? <==> Pow2(n) <= ISIZE_MAX
    ensures r.Returns? <==> n < 63
    ensures r.Returns? ==> r.value == Pow2(n)
  {
    Pow2Words();
    assert ISIZE_MAX == Pow2(63) - 1 by { Pow2Add(1, 63); }
    if n >= 63 then
      Pow2Monotone(63, n);
      Panics
    else
      Pow2Monotone(n, 62);
      Pow2Add(62, 1);
      Returns(Pow2(n))
  }

  /** `Default`: the smallest exponent `p2exp >= 1` with `vcount <= 2^p2exp`. */
  method DefaultShardExponent(vcount: nat) returns (p2exp: nat)
    ensures p2exp >= 1 && vcount <= Pow2(p2exp)
    ensures p2exp == 1 || Pow2(p2exp - 1) < vcount
  {
    p2exp := 1;
    while !(vcount <= Pow2(p2exp))
      invariant p2exp >= 1
      invariant p2exp == 1 || Pow2(p2exp - 1) < vcount
      decreases vcount - Pow2(p2exp)
    {
      p2exp := p2exp + 1;
    }
  }

  /** The exponent and shard count `Default` picks for `cpus` processors. */
  method DefaultShardCount(cpus: nat) returns (p2exp: nat, count: nat)
    requires 8 * cpus <= Pow2(62)
    ensures 1 <= p2exp <= 62 && count == Pow2(p2exp)
    ensures count >= 2 && 8 * cpus <= count
    ensures p2exp == 1 || Pow2(p2exp - 1) < 8 * cpus
  {
    p2exp := DefaultShardExponent(8 * cpus);
    if p2exp > 62 {
      Pow2Monotone(62, p2exp - 1);
    }
    Pow2Monotone(1, p2exp);
    count := Pow2(p2exp);
  }

  function FilterEntries<K(!new), V>(m: map<K, V>, keep: (K, V) -> bool): map<K, V>
  {
    map k | k in m && keep(k, m[k]) :: m[k]
  }

  function MapValues<K, V>(m: map<K, V>, f: (K, V) -> V): map<K, V>
  {
    map k | k in m :: f(k, m[k])
  }

  /** `shards` partition `contents` by `route`: each key sits in the shard its
      route names, and nowhere else. */
  ghost predicate Routed<K(!new), V>(shards: seq<map<K, V>>, route: K -> nat, contents: map<K, V>)
  {
    && (forall i, k :: 0 <= i < |shards| && k in shards[i] ==> route(k) == i)
    && (forall k :: k in contents ==> route(k) < |shards| && k in shards[route(k)] && shards[route(k)][k] == contents[k])
    && (forall k :: route(k) < |shards| && k in shards[route(k)] ==> k in contents)
  }

  /** Empty shards route the empty map, whatever the route. */
  lemma RoutedEmpty<K(!new), V>(shards: seq<map<K, V>>, route: K -> nat)
    requires forall i :: 0 <= i < |shards| ==> shards[i] == map[]
    ensures Routed(shards, route, map[])
  {
  }

  /** Filtering every shard filters the whole map. */
  lemma RoutedFilter<K(!new), V>(before: seq<map<K, V>>, after: seq<map<K, V>>, route: K -> nat,
                                 contents: map<K, V>, keep: (K, V) -> bool)
    requires Routed(before, route, contents) && |after| == |before|
    requires forall i :: 0 <= i < |before| ==> after[i] == FilterEntries(before[i], keep)
    ensures Routed(after, route, FilterEntries(contents, keep))
  {
  }

  /** Rewriting every value of every shard rewrites the whole map. */
  lemma RoutedMapValues<K(!new), V>(before: seq<map<K, V>>, after: seq<map<K, V>>, route: K -> nat,
                                    contents: map<K, V>, f: (K, V) -> V)
    requires Routed(before, route, contents) && |after| == |before|
    requires forall i :: 0 <= i < |before| ==> after[i] == MapValues(before[i], f)
    ensures Routed(after, route, MapValues(contents, f))
  {
  }

  datatype TryGetError = InvalidKey | WouldBlock | DidNotResolve

  datatype TryGetResult<+V> = Ok(value: V) | Err(error: TryGetError)

  class ShardedMap<K(==,!new), V> {
    /** log2 of the number of shards */
    const ncb: nat
    /** what the hash state is seeded with before the key is hashed */
    const seed: U64
    const hasher: (U64, K) -> U64
    const shards: array<map<K, V>>
    /** `DetermineMap` as a value, to state the routing invariant with */
    const route: K -> nat
    /** the map as a whole */
    ghost var contents: map<K, V>

    function DetermineMap(key: K): (i: nat)
      requires ncb <= 64
    {
      ShardIndex(hasher(seed, key), ncb)
    }

    ghost predicate Valid()
      reads this, shards
    {
      && ncb <= 64
      && shards.Length == Pow2(ncb)
      && (forall k {:trigger DetermineMap(k)} :: route(k) == DetermineMap(k))
      && Routed(shards[..], route, contents)
    }

    /** `new(num_chunks_log_2)` as intended: 2^n shards, the count `ShardCount`
        gives, which panics past `isize::MAX` (see `ShardCountAsWritten` for
        the `i32` shift the source performs). The nonce (random in the source)
        is already folded into `seed`. */
    constructor New(numChunksLog2: nat, seed: U64, hasher: (U64, K) -> U64)
      requires ShardCount(numChunksLog2).Returns?
      ensures Valid() && fresh(shards)
      ensures shards.Length == ShardCount(numChunksLog2).value
      ensures ncb == numChunksLog2 && this.seed == seed && this.hasher == hasher
      ensures shards.Length == Pow2(numChunksLog2)
      ensures forall i :: 0 <= i < shards.Length ==> shards[i] == map[]
      ensures contents == map[]
    {
      ncb := numChunksLog2;
      this.seed := seed;
      this.hasher := hasher;
      route := k => ShardIndex(hasher(seed, k), numChunksLog2);
      shards := new map<K, V>[Pow2(numChunksLog2)](_ => map[]);
      contents := map[];
      new;
      RoutedEmpty(shards[..], route);
    }

    /** `Default::default()` on a machine with `cpus` processors: the shard
        count is the smallest power of two, at least 2, not below `8 * cpus`. */
    constructor Default(cpus: nat, seed: U64, hasher: (U64, K) -> U64)
      requires 8 * cpus <= Pow2(62)
      ensures Valid() && fresh(shards)
      ensures ncb >= 1 && shards.Length >= 2 && 8 * cpus <= shards.Length
      ensures ncb == 1 || Pow2(ncb - 1) < 8 * cpus
      ensures contents == map[]
    {
      var p2exp, count := DefaultShardCount(cpus);
      ncb := p2exp;
      this.seed := seed;
      this.hasher := hasher;
      route := k => ShardIndex(hasher(seed, k), p2exp);
      shards := new map<K, V>[count](_ => map[]);
      contents := map[];
      new;
      forall k
        ensures route(k) == DetermineMap(k)
      {
      }
      RoutedEmpty(shards[..], route);
    }

    function ChunksCount(): (n: nat)
      requires Valid()
      reads this, shards
      ensures n == Pow2(ncb)
    {
      shards.Length
    }

    method Insert(key: K, value: V)
      requires Valid()
      modifies this, shards
      ensures Valid()
      ensures contents == old(contents)[key := value]
      ensures shards[DetermineMap(key)] == old(shards[DetermineMap(key)])[key := value]
      ensures forall i :: 0 <= i < shards.Length && i != DetermineMap(key) ==> shards[i] == old(shards[i])
    {
      var mapi := DetermineMap(key);
      shards[mapi] := shards[mapi][key := value];
      contents := contents[key := value];
    }

    /** Returns the value now stored for `key`: the existing one, or `default`
        freshly inserted. The second presence check runs under the write lock. */
    method GetOrInsert(key: K, default: V) returns (v: V)
      requires Valid()
      modifies this, shards
      ensures Valid()
      ensures key in old(contents) ==> v == old(contents)[key] && contents == old(contents)
      ensures key !in old(contents) ==> v == default && contents == old(contents)[key := default]
      ensures key in contents && contents[key] == v
    {
      var mapi := DetermineMap(key);
      if key in shards[mapi] {
        return shards[mapi][key];
      }
      if key !in shards[mapi] {
        shards[mapi] := shards[mapi][key := default];
        contents := contents[key := default];
      }
      v := shards[mapi][key];
    }

    /** Like GetOrInsert, but the default comes from calling `default`, which
        happens exactly when the key was absent (`calledDefault`). */
    method GetOrInsertWith(key: K, default: () -> V) returns (v: V, ghost calledDefault: bool)
      requires Valid()
      modifies this, shards
      ensures Valid()
      ensures calledDefault <==> key !in old(contents)
      ensures key in old(contents) ==> v == old(contents)[key] && contents == old(contents)
      ensures key !in old(contents) ==> v == default() && contents == old(contents)[key := default()]
    {
      calledDefault := false;
      var mapi := DetermineMap(key);
      if key in shards[mapi] {
        return shards[mapi][key], false;
      }
      if key !in shards[mapi] {
        var d := default();
        calledDefault := true;
        shards[mapi] := shards[mapi][key := d];
        contents := contents[key := d];
      }
      v := shards[mapi][key];
    }

    function ContainsKey(key: K): (b: bool)
      requires Valid()
      reads this, shards
      ensures b <==> key in contents
    {
      key in shards[DetermineMap(key)]
    }

    function Get(key: K): (r: Option<V>)
      requires Valid()
      reads this, shards
      ensures r.None? <==> key !in contents
      ensures r.Some? ==> r.value == contents[key]
    {
      var submap := shards[DetermineMap(key)];
      if key in submap then Some(submap[key]) else None
    }

    /** `try_get`: `lockAvailable` says whether `try_read` obtained the lock. */
    function TryGet(key: K, lockAvailable: bool): (r: TryGetResult<V>)
      requires Valid()
      reads this, shards
      ensures !lockAvailable <==> r == Err(WouldBlock)
      ensures r == Err(InvalidKey) <==> lockAvailable && key !in contents
      ensures r.Ok? ==> key in contents && r.value == contents[key]
    {
      var submap := shards[DetermineMap(key)];
      if !lockAvailable then Err(WouldBlock)
      else if key in submap then Ok(submap[key])
      else Err(InvalidKey)
    }

    /** `try_get_with_timeout`: `acquiredInTime` says whether `try_read_for`
        obtained the lock before the timeout. */
    function TryGetWithTimeout(key: K, acquiredInTime: bool): (r: TryGetResult<V>)
      requires Valid()
      reads this, shards
      ensures !acquiredInTime <==> r == Err(DidNotResolve)
      ensures r == Err(InvalidKey) <==> acquiredInTime && key !in contents
      ensures r.Ok? ==> key in contents && r.value == contents[key]
    {
      var submap := shards[DetermineMap(key)];
      if !acquiredInTime then Err(DidNotResolve)
      else if key in submap then Ok(submap[key])
      else Err(InvalidKey)
    }

    /** `index`: `get(key)` followed by `unwrap`/`expect`. */
    function Index(key: K): (r: Checked<V>)
      requires Valid()
      reads this, shards
      ensures r == Panics <==> key !in contents
      ensures r.Returns? ==> r.value == contents[key]
    {
      match Get(key)
      case Some(v) => Returns(v)
      case None => Panics
    }

    /** `get_mut` followed by writing `update(v)` through the returned reference. */
    method GetMut(key: K, update: V -> V) returns (r: Option<V>)
      requires Valid()
      modifies this, shards
      ensures Valid()
      ensures key !in old(contents) ==> r == None && contents == old(contents)
      ensures key in old(contents) ==>
        r == Some(update(old(contents)[key])) && contents == old(contents)[key := update(old(contents)[key])]
    {
      var mapi := DetermineMap(key);
      if key in shards[mapi] {
        var v := update(shards[mapi][key]);
        shards[mapi] := shards[mapi][key := v];
        contents := contents[key := v];
        r := Some(v);
      } else {
        r := None;
      }
    }

    /** `try_get_mut` (and, with `DidNotResolve` for `WouldBlock`,
        `try_get_mut_with_timeout`) followed by a write through the reference. */
    method TryGetMut(key: K, lockAvailable: bool, update: V -> V) returns (r: TryGetResult<V>)
      requires Valid()
      modifies this, shards
      ensures Valid()
      ensures !lockAvailable ==> r == Err(WouldBlock) && contents == old(contents)
      ensures lockAvailable && key !in old(contents) ==> r == Err(InvalidKey) && contents == old(contents)
      ensures lockAvailable && key in old(contents) ==>
        r == Ok(update(old(contents)[key])) && contents == old(contents)[key := update(old(contents)[key])]
    {
      if !lockAvailable {
        return Err(WouldBlock);
      }
      var found := GetMut(key, update);
      r := if found.Some? then Ok(found.value) else Err(InvalidKey);
    }

    /** `index_mut`: `get_mut(key)` unwrapped, then a write through the reference. */
    method IndexMut(key: K, update: V -> V) returns (r: Checked<V>)
      requires Valid()
      modifies this, shards
      ensures Valid()
      ensures key !in old(contents) ==> r == Panics && contents == old(contents)
      ensures key in old(contents) ==>
        r == Returns(update(old(contents)[key])) && contents == old(contents)[key := update(old(contents)[key])]
    {
      var found := GetMut(key, update);
      r := if found.Some? then Returns(found.value) else Panics;
    }

    /** The keys of the map routed to shards below `i`. */
    ghost function RoutedBelow(i: nat): set<K>
      reads this
    {
      set k | k in contents && route(k) < i
    }

    lemma ShardKeys(i: nat)
      requires Valid() && i < shards.Length
      ensures shards[i].Keys == RoutedBelow(i + 1) - RoutedBelow(i)
      ensures RoutedBelow(i) !! shards[i].Keys
      ensures RoutedBelow(i + 1) == RoutedBelow(i) + shards[i].Keys
    {
      forall k | k in shards[i]
        ensures k in contents && route(k) == i
      {
      }
      forall k | k in contents && route(k) == i
        ensures k in shards[i]
      {
      }
    }

    lemma RoutedCount(i: nat)
      requires Valid() && i < shards.Length
      ensures |RoutedBelow(i + 1)| == |RoutedBelow(i)| + |shards[i]|
    {
      ShardKeys(i);
      assert |shards[i]| == |shards[i].Keys|;
    }

    /** Opening shard `i` of an iteration that has consumed shards `0..i`. */
    lemma OpenShard(i: nat)
      requires Valid() && i < shards.Length
      ensures shards[i].Keys + (contents.Keys - RoutedBelow(i + 1)) == contents.Keys - RoutedBelow(i)
      ensures RoutedBelow(i + 1) - shards[i].Keys == RoutedBelow(i)
      ensures forall k :: k in shards[i] ==> k in contents && contents[k] == shards[i][k] && route(k) == i
    {
      ShardKeys(i);
    }

    lemma RoutedAll()
      requires Valid()
      ensures RoutedBelow(shards.Length) == contents.Keys
    {
    }

    /** `len`: the sum of the shard sizes, which is the number of keys. */
    method Len() returns (n: nat)
      requires Valid()
      ensures n == |contents|
    {
      n := 0;
      for i := 0 to shards.Length
        invariant n == |RoutedBelow(i)|
      {
        RoutedCount(i);
        n := n + |shards[i]|;
      }
      RoutedAll();
    }

    method IsEmpty() returns (b: bool)
      requires Valid()
      ensures b <==> contents == map[]
    {
      var n := Len();
      b := n == 0;
      if !b {
        assert contents != map[];
      }
    }

    /** `remove`: the stored pair, taken out of the key's shard. */
    method Remove(key: K) returns (r: Option<(K, V)>)
      requires Valid()
      modifies this, shards
      ensures Valid()
      ensures key in old(contents) ==> r == Some((key, old(contents)[key]))
      ensures key !in old(contents) ==> r == None
      ensures contents == old(contents) - {key}
      ensures forall i :: 0 <= i < shards.Length && i != DetermineMap(key) ==> shards[i] == old(shards[i])
    {
      var mapi := DetermineMap(key);
      if key in shards[mapi] {
        r := Some((key, shards[mapi][key]));
        shards[mapi] := shards[mapi] - {key};
      } else {
        r := None;
      }
      contents := contents - {key};
    }

    /** `retain`: every shard keeps exactly the entries `keep` accepts. */
    method Retain(keep: (K, V) -> bool)
      requires Valid()
      modifies this, shards
      ensures Valid()
      ensures contents == FilterEntries(old(contents), keep)
    {
      for i := 0 to shards.Length
        invariant forall j :: 0 <= j < i ==> shards[j] == FilterEntries(old(shards[j]), keep)
        invariant forall j :: i <= j < shards.Length ==> shards[j] == old(shards[j])
        invariant contents == old(contents)
      {
        shards[i] := FilterEntries(shards[i], keep);
      }
      RoutedFilter(old(shards[..]), shards[..], route, contents, keep);
      contents := FilterEntries(contents, keep);
    }

    /** `clear`: every shard emptied. */
    method Clear()
      requires Valid()
      modifies this, shards
      ensures Valid()
      ensures contents == map[]
      ensures forall i :: 0 <= i < shards.Length ==> shards[i] == map[]
    {
      for i := 0 to shards.Length
        invariant forall j :: 0 <= j < i ==> shards[j] == map[]
      {
        shards[i] := map[];
      }
      contents := map[];
    }

    /** `alter`: `f` applied once to every entry, shard by shard. */
    method Alter(f: (K, V) -> V)
      requires Valid()
      modifies this, shards
      ensures Valid()
      ensures contents == MapValues(old(contents), f)
    {
      for i := 0 to shards.Length
        invariant forall j :: 0 <= j < i ==> shards[j] == MapValues(old(shards[j]), f)
        invariant forall j :: i <= j < shards.Length ==> shards[j] == old(shards[j])
        invariant contents == old(contents)
      {
        shards[i] := MapValues(shards[i], f);
      }
      RoutedMapValues(old(shards[..]), shards[..], route, contents, f);
      contents := MapValues(contents, f);
    }
  }

  /** The iterator over a sharded map: `c_map_index` is the next shard to open,
      `chunk` what the current shard's iterator has not yielded yet (`c_iter`). */
  class ShardIter<K(==,!new), V> {
    const source: ShardedMap<K, V>
    var chunkIndex: nat
    var chunk: map<K, V>
    /** the keys still to come */
    ghost var remaining: set<K>

    ghost predicate Valid()
      reads this, source, source.shards
    {
      && source.Valid()
      && chunkIndex <= source.shards.Length
      && (forall k :: k in chunk ==>
            k in source.contents && source.contents[k] == chunk[k] && source.route(k) + 1 == chunkIndex)
      && remaining == chunk.Keys + (source.contents.Keys - source.RoutedBelow(chunkIndex))
    }

    constructor New(m: ShardedMap<K, V>)
      requires m.Valid()
      ensures Valid() && source == m
      ensures remaining == m.contents.Keys
    {
      source := m;
      chunkIndex := 0;
      chunk := map[];
      remaining := m.contents.Keys;
    }

    /** `next`: the next entry of the current shard, or, once that shard is
        exhausted, whatever `SlowPathNewChunk` yields. Shards are visited in
        index order: the yielded key lies in the shard just opened. */
    method Next() returns (r: Option<(K, V)>)
      requires Valid()
      modifies this
      ensures Valid()
      ensures r.None? ==> old(remaining) == {} && remaining == {}
      ensures r.Some? ==>
        && r.value.0 in old(remaining)
        && r.value.0 in source.contents && source.contents[r.value.0] == r.value.1
        && remaining == old(remaining) - {r.value.0}
      ensures old(chunkIndex) <= chunkIndex
      ensures r.Some? ==> source.route(r.value.0) + 1 == chunkIndex
      ensures r.None? ==> chunkIndex == source.shards.Length
      decreases source.shards.Length - chunkIndex, 1
    {
      if chunk != map[] {
        var k :| k in chunk;
        assert k in source.RoutedBelow(chunkIndex);
        r := Some((k, chunk[k]));
        chunk := chunk - {k};
        remaining := remaining - {k};
        return;
      }
      r := SlowPathNewChunk();
    }

    /** `slow_path_new_chunk`: None once every shard has been opened, otherwise
        open the next shard and continue with `next`. */
    method SlowPathNewChunk() returns (r: Option<(K, V)>)
      requires Valid() && chunk == map[]
      modifies this
      ensures Valid()
      ensures r.None? ==> old(remaining) == {} && remaining == {}
      ensures r.Some? ==>
        && r.value.0 in old(remaining)
        && r.value.0 in source.contents && source.contents[r.value.0] == r.value.1
        && remaining == old(remaining) - {r.value.0}
      ensures old(chunkIndex) <= chunkIndex
      ensures r.Some? ==> source.route(r.value.0) + 1 == chunkIndex
      ensures r.None? ==> chunkIndex == source.shards.Length
      decreases source.shards.Length - chunkIndex, 0
    {
      if chunkIndex == source.shards.Length {
        source.RoutedAll();
        assert remaining == {};
        return None;
      }
      source.OpenShard(chunkIndex);
      chunk := source.shards[chunkIndex];
      chunkIndex := chunkIndex + 1;
      r := Next();
    }
  }

  /** `map.iter().count()`: the iterator yields every key exactly once. */
  method CountEntries<K(==,!new), V>(m: ShardedMap<K, V>) returns (count: nat)
    requires m.Valid()
    ensures count == |m.contents|
  {
    var it := new ShardIter.New(m);
    count := 0;
    while true
      invariant it.Valid() && it.source == m
      invariant count + |it.remaining| == |m.contents|
      decreases |it.remaining|
    {
      var r := it.Next();
      if r.None? {
        break;
      }
      count := count + 1;
    }
  }
}
