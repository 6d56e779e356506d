/** The abstract value of an insertion-ordered map: its keys in order, and what each
    maps to. `LinkedMap` is proved to implement it, and the send buffer's in-flight
    packets are one. */
module OrderedMap {
  import opened Common

  datatype OMap<K(==), V> = OMap(keys: seq<K>, vals: map<K, V>)

  ghost predicate NoDuplicates<K>(keys: seq<K>) {
    forall i, j :: 0 <= i < j < |keys| ==> keys[i] != keys[j]
  }

  /** The two halves agree. */
  ghost predicate WellFormed<K(!new), V>(m: OMap<K, V>) {
    && NoDuplicates(m.keys)
    && (forall k :: k in m.keys <==> k in m.vals)
  }

  function Empty<K(==), V>(): OMap<K, V> { OMap([], map[]) }

  /** Where `k` is first, or |keys| when it is absent. */
  function IndexOf<K(==)>(keys: seq<K>, k: K): (r: nat)
    ensures r <= |keys|
    ensures r < |keys| <==> k in keys
    ensures r < |keys| ==> keys[r] == k
    ensures k !in keys[..r]
  {
    if keys == [] then 0
    else if keys[0] == k then 0
    else
      var r := 1 + IndexOf(keys[1..], k);
      assert keys[..r] == [keys[0]] + keys[1..][..r - 1];
      r
  }

  function Without<K(==)>(keys: seq<K>, k: K): seq<K> {
    var i := IndexOf(keys, k);
    if i < |keys| then keys[..i] + keys[i + 1..] else keys
  }

  /** An update keeps its position; a new key goes to the end. */
  function Put<K(==), V>(m: OMap<K, V>, k: K, v: V): OMap<K, V> {
    OMap(if k in m.vals then m.keys else m.keys + [k], m.vals[k := v])
  }

  function Remove<K(==), V>(m: OMap<K, V>, k: K): OMap<K, V> {
    if k in m.vals then OMap(Without(m.keys, k), m.vals - {k}) else m
  }

  /** Whether `Replace` takes effect: the old key is present, the new one is not
      used by another entry. */
  predicate CanReplace<K(==), V>(m: OMap<K, V>, oldKey: K, newKey: K) {
    oldKey in m.vals && (oldKey == newKey || newKey !in m.vals)
  }

  function Replace<K(==), V>(m: OMap<K, V>, oldKey: K, newKey: K, v: V): OMap<K, V> {
    if CanReplace(m, oldKey, newKey) then
      var i := IndexOf(m.keys, oldKey);
      OMap(if i < |m.keys| then m.keys[i := newKey] else m.keys, (m.vals - {oldKey})[newKey := v])
    else m
  }

  lemma {:induction false} PutWellFormed<K(!new), V>(m: OMap<K, V>, k: K, v: V)
    requires WellFormed(m)
    ensures WellFormed(Put(m, k, v))
  {
  }

  lemma {:induction false} WithoutIs<K(!new)>(keys: seq<K>, k: K)
    requires NoDuplicates(keys)
    ensures NoDuplicates(Without(keys, k))
    ensures forall x :: x in Without(keys, k) <==> x in keys && x != k
  {
    var i := IndexOf(keys, k);
    if i < |keys| {
      assert keys == keys[..i] + [k] + keys[i + 1..];
      assert k !in keys[i + 1..];
    }
  }

  lemma {:induction false} RemoveAbsent<K, V>(m: OMap<K, V>, k: K)
    requires k !in m.vals
    ensures Remove(m, k) == m
  {
  }

  lemma {:induction false} RemoveWellFormed<K(!new), V>(m: OMap<K, V>, k: K)
    requires WellFormed(m)
    ensures WellFormed(Remove(m, k))
  {
    WithoutIs(m.keys, k);
  }

  lemma {:induction false} ReplaceWellFormed<K(!new), V>(m: OMap<K, V>, oldKey: K, newKey: K, v: V)
    requires WellFormed(m)
    ensures WellFormed(Replace(m, oldKey, newKey, v))
  {
    if CanReplace(m, oldKey, newKey) {
      var i := IndexOf(m.keys, oldKey);
      var keys' := m.keys[i := newKey];
      assert NoDuplicates(keys');
      forall k ensures k in keys' <==> k == newKey || (k in m.keys && k != oldKey) {
        if k in m.keys && k != oldKey {
          var j :| 0 <= j < |m.keys| && m.keys[j] == k;
          assert keys'[j] == k;
        }
        assert keys'[i] == newKey;
      }
    }
  }

  lemma {:induction false} ReplaceSame<K, V>(m: OMap<K, V>, k: K, v: V)
    requires k in m.vals
    ensures Replace(m, k, k, v) == Put(m, k, v)
  {
    assert (m.vals - {k})[k := v] == m.vals[k := v];
  }

  // ---------- Reading in order ----------

  function EntryAt<K(==), V>(m: OMap<K, V>, i: int): Option<(K, V)> {
    if 0 <= i < |m.keys| && m.keys[i] in m.vals then Some((m.keys[i], m.vals[m.keys[i]])) else None
  }

  function First<K(==), V>(m: OMap<K, V>): Option<(K, V)> { EntryAt(m, 0) }

  function Next<K(==), V>(m: OMap<K, V>, k: K): Option<(K, V)> {
    if k in m.vals then EntryAt(m, IndexOf(m.keys, k) + 1) else None
  }

  function Previous<K(==), V>(m: OMap<K, V>, k: K): Option<(K, V)> {
    if k in m.vals then EntryAt(m, IndexOf(m.keys, k) - 1) else None
  }

  /** Where a traversal starts: after the given key, or at the front when there is no such key or it
      is the last. */
  function StartIndex<K(==), V>(m: OMap<K, V>, start: Option<K>): (i: nat)
    ensures i <= |m.keys|
  {
    if start.Some? && start.value in m.vals && IndexOf(m.keys, start.value) + 1 < |m.keys|
    then IndexOf(m.keys, start.value) + 1 else 0
  }

  lemma {:induction false} IndexOfUnique<K(!new)>(keys: seq<K>, i: nat)
    requires NoDuplicates(keys) && i < |keys|
    ensures IndexOf(keys, keys[i]) == i
  {
  }

  /** Both maps agree on a key. */
  predicate SameEntry<K(==), V(==)>(m: OMap<K, V>, m': OMap<K, V>, k: K) {
    (k in m'.vals <==> k in m.vals) && (k in m.vals ==> m'.vals[k] == m.vals[k])
  }

  /** An update changes one value and no place; a new key comes last. */
  lemma {:induction false} PutKeepsPlaces<K(!new), V>(m: OMap<K, V>, k: K, v: V)
    requires WellFormed(m)
    ensures var m' := Put(m, k, v);
            && k in m'.vals && m'.vals[k] == v && (forall x :: x != k ==> SameEntry(m, m', x))
            && (forall x :: x in m.vals ==> IndexOf(m'.keys, x) == IndexOf(m.keys, x))
            && (k !in m.vals ==> IndexOf(m'.keys, k) == |m.keys|)
  {
    hide IndexOf;
    var m' := Put(m, k, v);
    PutWellFormed(m, k, v);
    forall x | x in m.vals ensures IndexOf(m'.keys, x) == IndexOf(m.keys, x) {
      PlaceIs(m'.keys, x, IndexOf(m.keys, x));
    }
    if k !in m.vals { PlaceIs(m'.keys, k, |m.keys|); }
  }

  /** A key has one place. */
  lemma {:induction false} PlaceIs<K(!new)>(keys: seq<K>, k: K, i: nat)
    requires NoDuplicates(keys) && i < |keys| && keys[i] == k
    ensures IndexOf(keys, k) == i
  {
    hide IndexOf;
    assert k in keys;
  }

  lemma {:induction false} PlaceWithout<K(!new)>(keys: seq<K>, k: K, x: K)
    requires NoDuplicates(keys) && k in keys && x in keys && x != k
    ensures var i, j := IndexOf(keys, k), IndexOf(keys, x);
            IndexOf(Without(keys, k), x) == if i < j then j - 1 else j
  {
    hide IndexOf;
    var i, j := IndexOf(keys, k), IndexOf(keys, x);
    WithoutIs(keys, k);
    PlaceIs(Without(keys, k), x, if i < j then j - 1 else j);
  }

  /** Removal takes one entry out and leaves the others in their order. */
  lemma {:induction false} RemoveKeepsOrder<K(!new), V>(m: OMap<K, V>, k: K)
    requires WellFormed(m)
    ensures var m' := Remove(m, k);
            && k !in m'.vals && (forall x :: x != k ==> SameEntry(m, m', x))
            && forall x, y :: x in m'.vals && y in m'.vals ==>
                 (IndexOf(m'.keys, x) < IndexOf(m'.keys, y) <==> IndexOf(m.keys, x) < IndexOf(m.keys, y))
  {
    hide IndexOf, Without;
    var m' := Remove(m, k);
    forall x, y | x in m'.vals && y in m'.vals
      ensures IndexOf(m'.keys, x) < IndexOf(m'.keys, y) <==> IndexOf(m.keys, x) < IndexOf(m.keys, y)
    {
      if k in m.vals {
        PlaceWithout(m.keys, k, x);
        PlaceWithout(m.keys, k, y);
        if x != y { Places(m.keys, x, y); }
        Places(m.keys, x, k);
        Places(m.keys, y, k);
      }
    }
  }

  lemma {:induction false} Places<K>(keys: seq<K>, x: K, y: K)
    requires x in keys && y in keys && x != y
    ensures IndexOf(keys, x) != IndexOf(keys, y)
  {
    hide IndexOf;
  }

  /** The first entry is the one at the front, the next of a key the one behind it. */
  lemma {:induction false} NextIsBehind<K(!new), V(!new)>(m: OMap<K, V>, k: K, e: (K, V))
    requires WellFormed(m) && k in m.vals
    ensures First(m) == Some(e) <==> e.0 in m.vals && m.vals[e.0] == e.1 && IndexOf(m.keys, e.0) == 0
    ensures Next(m, k) == Some(e) <==>
            e.0 in m.vals && m.vals[e.0] == e.1 && IndexOf(m.keys, e.0) == IndexOf(m.keys, k) + 1
  {
    hide IndexOf;
    assert k in m.keys;
    var i := IndexOf(m.keys, k);
    PlaceIs(m.keys, m.keys[0], 0);
    if i + 1 < |m.keys| { PlaceIs(m.keys, m.keys[i + 1], i + 1); }
    if e.0 in m.vals { assert e.0 in m.keys; }
  }

  /** Going on and going back undo each other. */
  lemma {:induction false} NextPreviousInverse<K(!new), V>(m: OMap<K, V>, k: K)
    requires WellFormed(m) && k in m.vals
    ensures Next(m, k).Some? ==> Previous(m, Next(m, k).value.0) == Some((k, m.vals[k]))
    ensures Previous(m, k).Some? ==> Next(m, Previous(m, k).value.0) == Some((k, m.vals[k]))
  {
    var i := IndexOf(m.keys, k);
    if i + 1 < |m.keys| { IndexOfUnique(m.keys, i + 1); }
    if 0 < i { IndexOfUnique(m.keys, i - 1); }
  }

  /** Replacing a key keeps every entry's place. */
  lemma {:induction false} ReplaceKeepsPlace<K(!new), V>(m: OMap<K, V>, oldKey: K, newKey: K, v: V)
    requires WellFormed(m) && CanReplace(m, oldKey, newKey)
    ensures var m' := Replace(m, oldKey, newKey, v);
            && |m'.keys| == |m.keys| && IndexOf(m'.keys, newKey) == IndexOf(m.keys, oldKey)
            && (forall k :: k in m.vals && k != oldKey ==> IndexOf(m'.keys, k) == IndexOf(m.keys, k))
            && newKey in m'.vals && m'.vals[newKey] == v
            && forall k :: k != newKey ==> if k == oldKey then k !in m'.vals else SameEntry(m, m', k)
  {
    var m', i := Replace(m, oldKey, newKey, v), IndexOf(m.keys, oldKey);
    ReplaceWellFormed(m, oldKey, newKey, v);
    IndexOfUnique(m'.keys, i);
    forall k | k in m.vals && k != oldKey ensures IndexOf(m'.keys, k) == IndexOf(m.keys, k) {
      var j := IndexOf(m.keys, k);
      assert m'.keys[j] == k;
      IndexOfUnique(m'.keys, j);
    }
  }

  /** A walk from behind a key begins with the next entry, or at the front when there is none. */
  lemma {:induction false} StartIsNext<K(!new), V>(m: OMap<K, V>, k: K)
    requires WellFormed(m)
    ensures EntryAt(m, StartIndex(m, Some(k))) == if Next(m, k).Some? then Next(m, k) else First(m)
    ensures EntryAt(m, StartIndex(m, None)) == First(m)
  {
    hide IndexOf;
    var i := IndexOf(m.keys, k);
    if i + 1 < |m.keys| { assert m.keys[i + 1] in m.keys; }
  }
}
