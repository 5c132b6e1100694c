/** Insertion-ordered dictionaries.

    JavaScript's `Map` and plain objects with non-numeric keys iterate their
    keys in the order the keys were first added; setting an existing key keeps
    its position and deleting a key drops it from the order.  `OMap` models such
    a dictionary as the list of keys in that order beside an ordinary map.
 */
module OrderedMaps {

  /** Every element of `s` occurs at most once. */
  ghost predicate Distinct<T>(s: seq<T>) {
    forall i, j | 0 <= i < j < |s| :: s[i] != s[j]
  }

  /** `s` with every occurrence of `x` taken out, the order of the rest kept. */
  function Without<T(==)>(s: seq<T>, x: T): (r: seq<T>)
    ensures forall y | y in r :: y in s && y != x
    ensures forall y | y in s && y != x :: y in r
    ensures |r| <= |s|
  {
    if s == [] then []
    else if s[0] == x then Without(s[1..], x)
    else [s[0]] + Without(s[1..], x)
  }

  lemma {:induction false} WithoutDistinct<T>(s: seq<T>, x: T)
    requires Distinct(s)
    ensures Distinct(Without(s, x))
  {
    if s != [] {
      WithoutDistinct(s[1..], x);
      var r := Without(s, x);
      if s[0] != x {
        assert r == [s[0]] + Without(s[1..], x);
        assert s[0] !in Without(s[1..], x);
      }
    }
  }

  /** An insertion-ordered dictionary: `keys` lists the present keys in the
      order in which they were first added, `entries` holds the values. */
  datatype OMap<K, V> = OMap(keys: seq<K>, entries: map<K, V>) {

    /** The key list has no repetition and lists exactly the keys of `entries`. */
    ghost predicate Valid() {
      && Distinct(keys)
      && (forall k | k in keys :: k in entries)
      && (forall k | k in entries :: k in keys)
    }
  }

  /** The dictionary with no entries (`new Map()`, `{}`). */
  function Empty<K, V>(): (r: OMap<K, V>)
    ensures r.Valid() && r.keys == [] && r.entries == map[]
  {
    OMap([], map[])
  }

  /** The value stored under `k`, or `default` when `k` is absent. */
  function Get<K, V>(m: OMap<K, V>, k: K, default: V): V {
    if k in m.entries then m.entries[k] else default
  }

  /** `m.set(k, v)`: a new key goes to the end of the order, an existing key
      keeps its place and gets the new value. */
  function Put<K, V>(m: OMap<K, V>, k: K, v: V): (r: OMap<K, V>)
    ensures m.Valid() ==> r.Valid()
  {
    if k in m.entries then OMap(m.keys, m.entries[k := v])
    else OMap(m.keys + [k], m.entries[k := v])
  }

  /** `delete m[k]`: the key leaves both the order and the entries. */
  function Remove<K, V>(m: OMap<K, V>, k: K): (r: OMap<K, V>)
    ensures m.Valid() ==> r.Valid()
  {
    WithoutDistinctIfValid(m, k);
    OMap(Without(m.keys, k), m.entries - {k})
  }

  lemma WithoutDistinctIfValid<K, V>(m: OMap<K, V>, k: K)
    ensures m.Valid() ==> Distinct(Without(m.keys, k))
  {
    if m.Valid() {
      WithoutDistinct(m.keys, k);
    }
  }

  /** After `Put(m, k, v)` the key `k` maps to `v`; it is appended to the key
      order when it was new and stays where it was otherwise (it is never
      duplicated or moved); every other key keeps its value. */
  lemma PutSpec<K, V>(m: OMap<K, V>, k: K, v: V)
    requires m.Valid()
    ensures var r := Put(m, k, v);
      && r.Valid()
      && k in r.entries && r.entries[k] == v
      && k in r.keys
      && (k in m.entries ==> r.keys == m.keys)
      && (k !in m.entries ==> r.keys == m.keys + [k])
      && |r.keys| == (if k in m.entries then |m.keys| else |m.keys| + 1)
      && (forall k' | k' != k :: (k' in r.entries <==> k' in m.entries))
      && (forall k' | k' != k && k' in m.entries :: r.entries[k'] == m.entries[k'])
  {
  }

  /** After `Remove(m, k)` the key is gone, the other keys keep their values
      and their relative order. */
  lemma RemoveSpec<K, V>(m: OMap<K, V>, k: K)
    requires m.Valid()
    ensures var r := Remove(m, k);
      && r.Valid()
      && k !in r.entries && k !in r.keys
      && r.keys == Without(m.keys, k)
      && (forall k' | k' != k :: (k' in r.entries <==> k' in m.entries))
      && (forall k' | k' != k && k' in m.entries :: r.entries[k'] == m.entries[k'])
  {
  }
}
