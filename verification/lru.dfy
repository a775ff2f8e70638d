/** The LRU cache (lru.py): an ordered dictionary of bounded length. Its contents are the
    keys in order from least to most recently used plus the value of each key. Reading a
    key moves it to the most recent end; inserting a new key into a full cache first
    evicts the least recently used one. */
module LruCache {
  import opened Error
  import opened Seqs

  /** The capacity a cache gets when none is given. */
  const DefaultCapacity: int := 32

  /** The contents of the ordered dictionary: its keys from oldest to newest, and the
      value each key maps to. */
  datatype Entries<K, V> = Entries(keys: seq<K>, values: map<K, V>)

  /** The keys are distinct and are exactly the keys of the map. */
  ghost predicate Coherent<K(!new), V>(e: Entries<K, V>) {
    Distinct(e.keys) && forall k :: k in e.values <==> k in e.keys
  }

  /** The cache holds no more entries than its capacity allows; a cache whose capacity is
      not positive can only be empty. */
  ghost predicate Bounded<K(!new), V>(e: Entries<K, V>, capacity: int) {
    e.keys == [] || |e.keys| <= capacity
  }

  /** The contents after `get(key)`, with the value it returns: a present key is popped
      and inserted again at the newest end; an absent key leaves the cache as it is and
      yields no value. */
  function AfterGet<K(!new), V>(e: Entries<K, V>, key: K): (r: (Entries<K, V>, Option<V>))
    ensures key !in e.values ==> r == (e, None)
    ensures key in e.values ==> r.1 == Some(e.values[key]) && r.0.values == e.values
    ensures key in e.values ==> |r.0.keys| > 0 && r.0.keys[|r.0.keys| - 1] == key
  {
    if key in e.values then (Entries(Without(e.keys, key) + [key], e.values), Some(e.values[key]))
    else (e, None)
  }

  /** The contents after `set(key, value)`: a present key is popped; an absent key evicts
      the oldest entry when the cache already holds `capacity` entries, and that eviction
      fails on an empty cache. The key is then inserted at the newest end. */
  function AfterSet<K(!new), V>(e: Entries<K, V>, key: K, value: V, capacity: int): (r: Result<Entries<K, V>, StorageError>)
    ensures r.Err? <==> key !in e.values && |e.keys| >= capacity && e.keys == []
    ensures r.Err? ==> r.error == EmptyCache
    ensures r.Ok? ==> key in r.value.values && r.value.values[key] == value
    ensures r.Ok? ==> |r.value.keys| > 0 && r.value.keys[|r.value.keys| - 1] == key
  {
    if key in e.values then
      Ok(Entries(Without(e.keys, key) + [key], e.values[key := value]))
    else if |e.keys| >= capacity then
      if e.keys == [] then Err(EmptyCache)
      else Ok(Entries(e.keys[1..] + [key], (e.values - {e.keys[0]})[key := value]))
    else
      Ok(Entries(e.keys + [key], e.values[key := value]))
  }

  /** Moving a key of a coherent cache to the newest end keeps it coherent. */
  lemma MoveToBack<K(!new), V>(e: Entries<K, V>, key: K, values: map<K, V>)
    requires Coherent(e) && key in e.keys
    requires forall k :: k in values <==> k in e.values
    ensures Coherent(Entries(Without(e.keys, key) + [key], values))
  {
    WithoutDistinct(e.keys, key);
    DistinctAppend(Without(e.keys, key), key);
  }

  /** `get` keeps the keys distinct and in step with the map, and keeps the length. */
  lemma GetPreservesCoherence<K(!new), V>(e: Entries<K, V>, key: K, capacity: int)
    requires Coherent(e) && Bounded(e, capacity)
    ensures Coherent(AfterGet(e, key).0) && Bounded(AfterGet(e, key).0, capacity)
    ensures |AfterGet(e, key).0.keys| == |e.keys|
  {
    if key in e.values {
      MoveToBack(e, key, e.values);
    }
  }

  /** A read of a present key moves only that key: the other keys keep their relative
      order. */
  lemma GetKeepsOrder<K(!new), V>(e: Entries<K, V>, key: K)
    requires Coherent(e) && key in e.values
    ensures AfterGet(e, key).0.keys == Without(e.keys, key) + [key]
    ensures Without(AfterGet(e, key).0.keys, key) == Without(e.keys, key)
  {
    var rest := Without(e.keys, key);
    WithoutDistinct(e.keys, key);
    var i := |rest|;
    var s := rest + [key];
    assert s[i] == key && s[..i] == rest && s[i + 1..] == [];
    WithoutAt(s, i);
  }

  /** `set` of a present key replaces its value and moves it to the newest end; nothing
      is evicted, the size stays the same and the other keys keep their order. */
  lemma SetPresent<K(!new), V>(e: Entries<K, V>, key: K, value: V, capacity: int)
    requires Coherent(e) && key in e.values
    ensures AfterSet(e, key, value, capacity).Ok?
    ensures AfterSet(e, key, value, capacity).value.keys == Without(e.keys, key) + [key]
    ensures AfterSet(e, key, value, capacity).value.values == e.values[key := value]
    ensures |AfterSet(e, key, value, capacity).value.keys| == |e.keys|
  {
  }

  /** `set` of an absent key into a full cache evicts exactly the oldest key and appends
      the new one; the size stays the same. */
  lemma {:induction false} SetEvicts<K(!new), V>(e: Entries<K, V>, key: K, value: V, capacity: int)
    requires Coherent(e) && key !in e.values && |e.keys| >= capacity && e.keys != []
    ensures AfterSet(e, key, value, capacity).Ok?
    ensures AfterSet(e, key, value, capacity).value.keys == e.keys[1..] + [key]
    ensures e.keys[0] !in AfterSet(e, key, value, capacity).value.values
    ensures forall k :: k in AfterSet(e, key, value, capacity).value.values <==> k == key || k in e.keys[1..]
    ensures |AfterSet(e, key, value, capacity).value.keys| == |e.keys|
  {
    assert e.keys[0] !in e.keys[1..] by {
      forall i | 0 <= i < |e.keys[1..]| ensures e.keys[1..][i] != e.keys[0] {
        assert e.keys[1..][i] == e.keys[i + 1];
      }
    }
    assert e.keys[0] != key;
    forall k ensures k in e.values - {e.keys[0]} <==> k in e.keys[1..] {
      assert k in e.keys <==> k == e.keys[0] || k in e.keys[1..] by {
        assert e.keys == [e.keys[0]] + e.keys[1..];
      }
    }
  }

  /** `set` of an absent key into a cache with room appends the key and grows the size by
      one. */
  lemma SetGrows<K(!new), V>(e: Entries<K, V>, key: K, value: V, capacity: int)
    requires Coherent(e) && key !in e.values && |e.keys| < capacity
    ensures AfterSet(e, key, value, capacity).Ok?
    ensures AfterSet(e, key, value, capacity).value.keys == e.keys + [key]
    ensures AfterSet(e, key, value, capacity).value.values == e.values[key := value]
    ensures |AfterSet(e, key, value, capacity).value.keys| == |e.keys| + 1
  {
  }

  /** A cache whose capacity is not positive cannot take its first entry: the eviction
      runs on an empty dictionary and fails. */
  lemma NonPositiveCapacityFails<K(!new), V>(key: K, value: V, capacity: int)
    requires capacity <= 0
    ensures AfterSet(Entries([], map[]), key, value, capacity) == Err(EmptyCache)
  {
  }

  /** A successful `set` keeps the cache coherent and within its capacity. */
  lemma {:induction false} SetPreservesCoherence<K(!new), V>(e: Entries<K, V>, key: K, value: V, capacity: int)
    requires Coherent(e) && Bounded(e, capacity)
    ensures AfterSet(e, key, value, capacity).Ok? ==>
              Coherent(AfterSet(e, key, value, capacity).value) &&
              Bounded(AfterSet(e, key, value, capacity).value, capacity)
  {
    if key in e.values {
      MoveToBack(e, key, e.values[key := value]);
    } else if |e.keys| >= capacity {
      if e.keys != [] {
        SetEvicts(e, key, value, capacity);
        var rest := e.keys[1..];
        assert Distinct(rest) by {
          forall i, j | 0 <= i < j < |rest| ensures rest[i] != rest[j] {
            assert rest[i] == e.keys[i + 1] && rest[j] == e.keys[j + 1];
          }
        }
        DistinctAppend(rest, key);
      }
    } else {
      DistinctAppend(e.keys, key);
    }
  }

  /** Right after `set(key, value)` succeeds, `get(key)` returns `value`. */
  lemma GetAfterSet<K(!new), V>(e: Entries<K, V>, key: K, value: V, capacity: int)
    requires AfterSet(e, key, value, capacity).Ok?
    ensures AfterGet(AfterSet(e, key, value, capacity).value, key).1 == Some(value)
  {
    var e' := AfterSet(e, key, value, capacity).value;
    assert e'.keys[|e'.keys| - 1] == key;
  }

  /** The `Lru` object: `capacity` is `_capacity`, and `keys` with `values` are the
      ordered dictionary `_cache`. */
  class Lru<K(==,!new), V> {
    const capacity: int
    var keys: seq<K>
    var values: map<K, V>

    ghost function Contents(): Entries<K, V>
      reads this
    {
      Entries(keys, values)
    }

    ghost predicate Valid()
      reads this
    {
      Coherent(Contents()) && Bounded(Contents(), capacity)
    }

    /** A new, empty cache of the given capacity. */
    constructor (capacity: int)
      ensures Valid() && this.capacity == capacity
      ensures keys == [] && values == map[]
    {
      this.capacity := capacity;
      keys := [];
      values := map[];
    }

    /** A new, empty cache built without a capacity argument: it gets the default. */
    constructor Default()
      ensures Valid() && capacity == DefaultCapacity
      ensures keys == [] && values == map[]
    {
      capacity := DefaultCapacity;
      keys := [];
      values := map[];
    }

    /** `get(key)`: pop the key and insert it again at the newest end, returning its value;
        an absent key yields no value. */
    method Get(key: K) returns (v: Option<V>)
      requires Valid()
      modifies this
      ensures Valid()
      ensures (Contents(), v) == AfterGet(old(Contents()), key)
    {
      GetPreservesCoherence(Contents(), key, capacity);
      if key in values {
        var value := values[key];
        keys, values := Without(keys, key), values - {key};
        keys, values := keys + [key], values[key := value];
        assert values == old(values);
        v := Some(value);
      } else {
        v := None;
      }
    }

    /** `set(key, value)`: pop the key when present, else evict the oldest entry of a full
        cache; then insert the key at the newest end. Evicting from an empty cache fails
        and changes nothing. */
    method Set(key: K, value: V) returns (out: Outcome<StorageError>)
      requires Valid()
      modifies this
      ensures Valid()
      ensures AfterSet(old(Contents()), key, value, capacity).Ok? ==>
                out == Pass && Contents() == AfterSet(old(Contents()), key, value, capacity).value
      ensures AfterSet(old(Contents()), key, value, capacity).Err? ==>
                out == Fail(EmptyCache) && Contents() == old(Contents())
    {
      SetPreservesCoherence(Contents(), key, value, capacity);
      if key in values {
        keys, values := Without(keys, key), values - {key};
      } else if |keys| >= capacity {
        if keys == [] {
          return Fail(EmptyCache);
        }
        keys, values := keys[1..], values - {keys[0]};
      }
      keys, values := keys + [key], values[key := value];
      out := Pass;
    }
  }
}
