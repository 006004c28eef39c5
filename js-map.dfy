/**
 * The ECMAScript `Map` the comment index keeps its two partitions in: a
 * key-value table that remembers the order in which keys were first set.
 */
module JsMaps {
  import opened Util

  /** All elements differ. */
  ghost predicate Distinct<K>(s: seq<K>) {
    forall i, j :: 0 <= i < j < |s| ==> s[i] != s[j]
  }

  /** `keys` lists the keys of `entries` in insertion order. */
  datatype JsMap<K(==,!new), V> = JsMap(keys: seq<K>, entries: map<K, V>) {

    ghost predicate Valid() {
      && Distinct(keys)
      && (forall k :: k in keys <==> k in entries)
    }

    /** `map.size`. */
    function Size(): nat {
      |keys|
    }

    /** `map.get(k)`. */
    function Get(k: K): Option<V> {
      if k in entries then Some(entries[k]) else None
    }

    /** `map.set(k, v)`: a new key goes last, an existing key keeps its place. */
    function Set(k: K, v: V): JsMap<K, V> {
      if k in entries then JsMap(keys, entries[k := v]) else JsMap(keys + [k], entries[k := v])
    }

    /** `map.delete(k)`: the map without k, and whether k was there. */
    function Delete(k: K): (JsMap<K, V>, bool) {
      if k in entries then (JsMap(Without(keys, k), entries - {k}), true) else (this, false)
    }

    /** `[...map.values()]`: the values in key order. */
    function Values(): seq<V>
      decreases |keys|
    {
      if keys == [] then []
      else
        JsMap(keys[..|keys| - 1], entries).Values()
          + (if keys[|keys| - 1] in entries then [entries[keys[|keys| - 1]]] else [])
    }
  }

  function Empty<K(!new), V>(): JsMap<K, V> {
    JsMap([], map[])
  }

  /** s without the occurrences of k. */
  function Without<K(==)>(s: seq<K>, k: K): seq<K> {
    if s == [] then []
    else Without(s[..|s| - 1], k) + (if s[|s| - 1] == k then [] else [s[|s| - 1]])
  }

  lemma {:induction false} WithoutFacts<K>(s: seq<K>, k: K)
    requires Distinct(s)
    ensures Distinct(Without(s, k))
    ensures forall x :: x in Without(s, k) <==> x in s && x != k
    ensures k in s ==> |Without(s, k)| == |s| - 1
    ensures k !in s ==> Without(s, k) == s
    decreases |s|
  {
    if s != [] {
      var front, last := s[..|s| - 1], s[|s| - 1];
      assert s == front + [last];
      WithoutFacts(front, k);
      assert last !in front;
    }
  }

  /** Without drops exactly the occurrences of k, duplicates or not, and keeps a sequence without k as it is. */
  lemma {:induction false} WithoutMembers<K>(s: seq<K>, k: K)
    ensures forall x :: x in Without(s, k) <==> x in s && x != k
    ensures k !in s ==> Without(s, k) == s
    decreases |s|
  {
    if s != [] {
      var front, last := s[..|s| - 1], s[|s| - 1];
      assert s == front + [last];
      WithoutMembers(front, k);
    }
  }

  /** Without works piece by piece: what stays of s + t is what stays of s, then what stays of t, in order. */
  lemma {:induction false} WithoutSplits<K>(s: seq<K>, t: seq<K>, k: K)
    ensures Without(s + t, k) == Without(s, k) + Without(t, k)
    decreases |t|
  {
    if t == [] {
      assert s + t == s;
    } else {
      var front, last := t[..|t| - 1], t[|t| - 1];
      assert (s + t)[..|s + t| - 1] == s + front;
      assert (s + t)[|s + t| - 1] == last;
      WithoutSplits(s, front, k);
    }
  }

  /** Of a single element, Without drops k and keeps anything else. */
  lemma WithoutOne<K>(x: K, k: K)
    ensures Without([x], k) == if x == k then [] else [x]
  {
    assert [x][..0] == [];
  }

  /** Without keeps every other element as many times as it occurs. */
  lemma {:induction false} WithoutCounts<K>(s: seq<K>, k: K)
    ensures multiset(Without(s, k)) == multiset(s)[k := 0]
    decreases |s|
  {
    if s != [] {
      var front, last := s[..|s| - 1], s[|s| - 1];
      assert s == front + [last];
      WithoutCounts(front, k);
    }
  }

  /** `new Map([...a, ...b])`: a's entries, then b's set over them in b's order. */
  function Union<K(!new), V>(a: JsMap<K, V>, b: JsMap<K, V>): JsMap<K, V> {
    SetAll(a, b.keys, b.entries)
  }

  function SetAll<K(!new), V>(m: JsMap<K, V>, ks: seq<K>, source: map<K, V>): JsMap<K, V> {
    if ks == [] then m
    else
      var rest := SetAll(m, ks[..|ks| - 1], source);
      var k := ks[|ks| - 1];
      if k in source then rest.Set(k, source[k]) else rest
  }

  /** A valid map stays valid under set; the set key reads back; other keys are untouched; the size grows exactly when the key is new. */
  lemma SetFacts<K(!new), V>(m: JsMap<K, V>, k: K, v: V)
    requires m.Valid()
    ensures m.Set(k, v).Valid()
    ensures m.Set(k, v).Get(k) == Some(v)
    ensures forall x :: x != k ==> m.Set(k, v).Get(x) == m.Get(x)
    ensures m.Set(k, v).Size() == if m.Get(k).Some? then m.Size() else m.Size() + 1
    ensures m.Get(k).Some? ==> m.Set(k, v).keys == m.keys
    ensures m.Get(k).None? ==> m.Set(k, v).keys == m.keys + [k]
  {
  }

  /** Delete answers whether the key was present, removes only that key and shrinks the size accordingly. */
  lemma DeleteFacts<K(!new), V>(m: JsMap<K, V>, k: K)
    requires m.Valid()
    ensures m.Delete(k).0.Valid()
    ensures m.Delete(k).1 <==> m.Get(k).Some?
    ensures m.Delete(k).0.Get(k) == None
    ensures forall x :: x != k ==> m.Delete(k).0.Get(x) == m.Get(x)
    ensures m.Delete(k).0.Size() == if m.Delete(k).1 then m.Size() - 1 else m.Size()
  {
    WithoutFacts(m.keys, k);
  }

  /** In the union, a key of b reads b's value, any other key reads a's; the union is valid. */
  lemma {:induction false} SetAllFacts<K(!new), V>(m: JsMap<K, V>, ks: seq<K>, source: map<K, V>)
    requires m.Valid()
    requires forall k :: k in ks ==> k in source
    ensures SetAll(m, ks, source).Valid()
    ensures forall x :: SetAll(m, ks, source).Get(x) == if x in ks then Some(source[x]) else m.Get(x)
    decreases |ks|
  {
    if ks != [] {
      var front, last := ks[..|ks| - 1], ks[|ks| - 1];
      assert ks == front + [last];
      SetAllFacts(m, front, source);
      SetFacts(SetAll(m, front, source), last, source[last]);
    }
  }

  lemma UnionFacts<K(!new), V>(a: JsMap<K, V>, b: JsMap<K, V>)
    requires a.Valid() && b.Valid()
    ensures Union(a, b).Valid()
    ensures forall x :: Union(a, b).Get(x) == if b.Get(x).Some? then b.Get(x) else a.Get(x)
  {
    SetAllFacts(a, b.keys, b.entries);
  }

  /** Merging into an empty map copies the other map, order included. */
  lemma {:induction false} UnionWithEmpty<K(!new), V>(b: JsMap<K, V>)
    requires b.Valid()
    ensures Union(Empty(), b) == b
  {
    SetAllFromEmpty(b.keys, b.entries);
    assert b.entries == map k | k in b.keys :: b.entries[k];
  }

  /** Setting distinct keys one by one into an empty map gives a map with exactly those keys, in that order. */
  lemma {:induction false} SetAllFromEmpty<K(!new), V>(ks: seq<K>, source: map<K, V>)
    requires Distinct(ks)
    requires forall k :: k in ks ==> k in source
    ensures SetAll(Empty(), ks, source) == JsMap(ks, map k | k in ks :: source[k])
    decreases |ks|
  {
    if ks != [] {
      var front, last := ks[..|ks| - 1], ks[|ks| - 1];
      DistinctFront(ks);
      SetAllFromEmpty(front, source);
      assert SetAll(Empty(), ks, source) == SetAll(Empty(), front, source).Set(last, source[last]);
      ComprehensionSnoc(ks, source);
    }
  }

  /** The map of the keys of ks is the map of its front with the last key set. */
  lemma ComprehensionSnoc<K(!new), V>(ks: seq<K>, source: map<K, V>)
    requires Distinct(ks) && ks != []
    requires forall k :: k in ks ==> k in source
    ensures ks[|ks| - 1] !in ks[..|ks| - 1]
    ensures ks[..|ks| - 1] + [ks[|ks| - 1]] == ks
    ensures (map k | k in ks :: source[k]) == (map k | k in ks[..|ks| - 1] :: source[k])[ks[|ks| - 1] := source[ks[|ks| - 1]]]
  {
    var front, last := ks[..|ks| - 1], ks[|ks| - 1];
    assert ks == front + [last];
  }

  lemma DistinctFront<K>(s: seq<K>)
    requires Distinct(s) && s != []
    ensures Distinct(s[..|s| - 1])
  {
    var front := s[..|s| - 1];
    forall i, j | 0 <= i < j < |front| ensures front[i] != front[j] {
      assert front[i] == s[i] && front[j] == s[j];
    }
  }

  /** A sequence without repetitions has as many distinct elements as positions. */
  lemma {:induction false} DistinctCount<K>(s: seq<K>)
    requires Distinct(s)
    ensures |set k | k in s| == |s|
    decreases |s|
  {
    if s != [] {
      var front, last := s[..|s| - 1], s[|s| - 1];
      DistinctFront(s);
      DistinctCount(front);
      assert s == front + [last];
      assert (set k | k in s) == (set k | k in front) + {last};
      assert last !in front;
    }
  }

  /** A valid map holds exactly as many entries as it lists keys. */
  lemma SizeCountsEntries<K(!new), V>(m: JsMap<K, V>)
    requires m.Valid()
    ensures m.Size() == |m.entries|
  {
    assert m.entries.Keys == set k | k in m.keys;
    DistinctCount(m.keys);
  }

  /** The values of a valid map, one per key, in key order. */
  lemma {:induction false} ValuesFollowKeys<K(!new), V>(m: JsMap<K, V>)
    requires forall k :: k in m.keys ==> k in m.entries
    ensures |m.Values()| == |m.keys|
    ensures forall i :: 0 <= i < |m.keys| ==> m.Values()[i] == m.entries[m.keys[i]]
    decreases |m.keys|
  {
    if m.keys != [] {
      ValuesFollowKeys(JsMap(m.keys[..|m.keys| - 1], m.entries));
    }
  }

  /** Setting a new key appends its value to the values. */
  lemma SetNewValues<K(!new), V>(m: JsMap<K, V>, k: K, v: V)
    requires m.Valid() && m.Get(k).None?
    ensures m.Set(k, v).Values() == m.Values() + [v]
  {
    assert m.Set(k, v) == JsMap(m.keys + [k], m.entries[k := v]);
    assert (m.keys + [k])[..|m.keys|] == m.keys;
    ValuesOfSameKeys(m.keys, m.entries[k := v], m.entries);
  }

  /** The values along keys depend only on the entries of those keys. */
  lemma {:induction false} ValuesOfSameKeys<K(!new), V>(keys: seq<K>, e1: map<K, V>, e2: map<K, V>)
    requires forall k :: k in keys ==> (k in e1 <==> k in e2) && (k in e1 ==> e1[k] == e2[k])
    ensures JsMap(keys, e1).Values() == JsMap(keys, e2).Values()
    decreases |keys|
  {
    if keys != [] {
      ValuesOfSameKeys(keys[..|keys| - 1], e1, e2);
    }
  }

  /** Setting a present key replaces its value where it stands and leaves the other values. */
  lemma SetPresentValues<K(!new), V>(m: JsMap<K, V>, k: K, v: V)
    requires m.Valid() && m.Get(k).Some?
    ensures |m.Set(k, v).Values()| == |m.Values()| == |m.keys|
    ensures forall i :: 0 <= i < |m.keys| ==>
      m.Set(k, v).Values()[i] == if m.keys[i] == k then v else m.Values()[i]
  {
    ValuesFollowKeys(m);
    ValuesFollowKeys(m.Set(k, v));
  }
}
