/** The linked hash map: a hash index over a doubly linked list with a sentinel at each end. */
module LinkedMap {
  import opened Common
  import OM = OrderedMap
  import opened Seqs

  class Node<K(0), V(0)> {
    var key: K
    var value: V
    var next: Node?<K, V>
    var prev: Node?<K, V>

    constructor Sentinel() {
      next, prev := null, null;
    }

    constructor (key: K, value: V)
      ensures this.key == key && this.value == value
    {
      this.key, this.value := key, value;
      next, prev := null, null;
    }
  }

  /** From head over the nodes in order to tail and back, all within `repr`. */
  ghost predicate Linked<K(0), V(0)>(repr: set<Node<K, V>>, head: Node<K, V>, mid: seq<Node<K, V>>, tail: Node<K, V>)
    reads repr`next, repr`prev
  {
    && head in repr && tail in repr && head != tail && head !in mid && tail !in mid
    && (forall i {:trigger mid[i]} :: 0 <= i < |mid| ==> mid[i] in repr)
    && head.next == (if mid == [] then tail else mid[0])
    && tail.prev == (if mid == [] then head else mid[|mid| - 1])
    && (forall i {:trigger mid[i].next} :: 0 <= i < |mid| ==> mid[i].next == if i + 1 < |mid| then mid[i + 1] else tail)
    && (forall i {:trigger mid[i].prev} :: 0 <= i < |mid| ==> mid[i].prev == if 0 < i then mid[i - 1] else head)
  }

  /** The nodes hold the entries of m in order. */
  ghost predicate Holds<K(0), V(0)>(repr: set<Node<K, V>>, mid: seq<Node<K, V>>, m: OM.OMap<K, V>)
    reads repr`key, repr`value
  {
    && |mid| == |m.keys|
    && (forall i {:trigger mid[i]} :: 0 <= i < |mid| ==> mid[i] in repr)
    && (forall i {:trigger mid[i]} :: 0 <= i < |mid| ==>
          mid[i].key == m.keys[i] && m.keys[i] in m.vals && mid[i].value == m.vals[m.keys[i]])
  }

  /** The index finds, under each key and no other, the node in that key's place `at`. */
  ghost predicate Indexed<K(!new), N>(items: map<K, N>, mid: seq<N>, keys: seq<K>, at: map<K, nat>) {
    && |mid| == |keys|
    && (forall i {:trigger keys[i]} :: 0 <= i < |keys| ==>
          keys[i] in items && items[keys[i]] == mid[i] && keys[i] in at && at[keys[i]] == i)
    && (forall k {:trigger k in items} :: k in items ==> k in at && at[k] < |keys| && keys[at[k]] == k)
  }

  /** Places have their own keys and nodes. */
  lemma {:induction false} KeysApart<K(!new), N>(items: map<K, N>, mid: seq<N>, keys: seq<K>, at: map<K, nat>)
    requires Indexed(items, mid, keys, at)
    ensures OM.NoDuplicates(keys)
  {
    forall i, j | 0 <= i < j < |keys| ensures keys[i] != keys[j] {
      assert at[keys[i]] == i && at[keys[j]] == j;
    }
  }

  lemma {:induction false} NodesApart<K(0,!new), V(0)>(repr: set<Node<K, V>>, mid: seq<Node<K, V>>, m: OM.OMap<K, V>)
    requires Holds(repr, mid, m) && OM.NoDuplicates(m.keys)
    ensures AllLone(mid)
  {
    forall b | 0 <= b < |mid| ensures Lone(mid, b) {
      forall p | 0 <= p < |mid| && p != b ensures mid[p] != mid[b] {
        assert mid[p].key == m.keys[p] && mid[b].key == m.keys[b];
      }
    }
  }

  lemma {:induction false} HoldsAppend<K(0), V(0)>(repr: set<Node<K, V>>, mid: seq<Node<K, V>>, m: OM.OMap<K, V>,
                                                   n: Node<K, V>)
    requires Holds(repr, mid, m) && n.key !in m.vals
    ensures Holds(repr + {n}, mid + [n], OM.Put(m, n.key, n.value))
  {
  }

  lemma {:induction false} IndexedAppend<K(!new), N>(items: map<K, N>, mid: seq<N>, keys: seq<K>, at: map<K, nat>, k: K,
                                                     n: N)
    requires Indexed(items, mid, keys, at) && k !in items
    ensures Indexed(items[k := n], mid + [n], keys + [k], at[k := |keys|])
  {
  }

  lemma {:induction false} IndexedRemove<K(!new), N>(items: map<K, N>, mid: seq<N>, keys: seq<K>, at: map<K, nat>,
                                                     i: nat)
    requires Indexed(items, mid, keys, at) && i < |keys|
    ensures Indexed(items - {keys[i]}, Delete(mid, i), Delete(keys, i), ShiftDown(at, i))
  {
    var items', mid', keys', at' := items - {keys[i]}, Delete(mid, i), Delete(keys, i), ShiftDown(at, i);
    forall p | 0 <= p < |keys'|
      ensures keys'[p] in items' && items'[keys'[p]] == mid'[p] && keys'[p] in at' && at'[keys'[p]] == p
    {
      var o := Shift(p, i);
      assert keys'[p] == keys[o] && keys[o] in items && at[keys[o]] == o && at[keys[i]] == i;
    }
    forall k | k in items' ensures k in at' && at'[k] < |keys'| && keys'[at'[k]] == k {
      assert k in items && at[k] != i;
    }
  }

  lemma {:induction false} IndexedRename<K(!new), N>(items: map<K, N>, mid: seq<N>, keys: seq<K>, at: map<K, nat>,
                                                     i: nat, k: K)
    requires Indexed(items, mid, keys, at) && i < |keys| && OM.NoDuplicates(keys) && (k == keys[i] || k !in items)
    ensures Indexed((items - {keys[i]})[k := mid[i]], mid, keys[i := k], at[k := i])
  {
    var items', keys', at' := (items - {keys[i]})[k := mid[i]], keys[i := k], at[k := i];
    forall x | x in items' ensures x in at' && at'[x] < |keys'| && keys'[at'[x]] == x {
      if x != k { assert x in items && at[x] != i; }
    }
  }

  lemma {:induction false} HoldsRemove<K(0,!new), V(0)>(repr: set<Node<K, V>>, mid: seq<Node<K, V>>, m: OM.OMap<K, V>,
                                                        i: nat)
    requires Holds(repr, mid, m) && OM.NoDuplicates(m.keys) && i < |mid|
    ensures Holds(repr, Delete(mid, i), OM.Remove(m, m.keys[i]))
    ensures OM.Remove(m, m.keys[i]).keys == m.keys[..i] + m.keys[i + 1..]
  {
    OM.IndexOfUnique(m.keys, i);
    assert mid[i].key == m.keys[i] && m.keys[i] in m.vals;
    var m', mid' := OM.Remove(m, m.keys[i]), Delete(mid, i);
    forall j | 0 <= j < |mid'|
      ensures mid'[j].key == m'.keys[j] && m'.keys[j] in m'.vals && mid'[j].value == m'.vals[m'.keys[j]]
    {
      var o := if j < i then j else j + 1;
      assert mid'[j] == mid[o] && m'.keys[j] == m.keys[o] && m.keys[o] != m.keys[i];
    }
  }

  class LinkedMap<K(==,0,!new), V(0)> {
    var items: map<K, Node<K, V>>
    const head: Node<K, V>
    const tail: Node<K, V>
    var size: nat
    // The nodes between the sentinels, and the abstract value they stand for.
    ghost var repr: set<Node<K, V>>
    ghost var mid: seq<Node<K, V>>
    ghost var Contents: OM.OMap<K, V>
    // The place of each key.
    ghost var at: map<K, nat>

    ghost predicate Valid()
      reads this, repr
    {
      && Linked(repr, head, mid, tail)
      && Holds(repr, mid, Contents)
      && Indexed(items, mid, Contents.keys, at)
      && items.Keys == Contents.vals.Keys && size == |mid|
    }

    constructor ()
      ensures Valid() && fresh(repr) && Contents == OM.Empty()
    {
      var h := new Node<K, V>.Sentinel();
      var t := new Node<K, V>.Sentinel();
      h.next := t;
      t.prev := h;
      items, head, tail, size := map[], h, t, 0;
      repr, mid, Contents, at := {h, t}, [], OM.Empty(), map[];
    }

    lemma Distinct()
      requires Valid()
      ensures OM.NoDuplicates(Contents.keys) && AllLone(mid)
    {
      KeysApart(items, mid, Contents.keys, at);
      NodesApart(repr, mid, Contents);
    }

    /** The abstract value is a proper ordered map. */
    lemma ContentsWellFormed()
      requires Valid()
      ensures OM.WellFormed(Contents)
    {
      Distinct();
      forall k ensures k in Contents.keys <==> k in Contents.vals {
        if k in items { assert Contents.keys[at[k]] == k; }
      }
    }

    /** A key is where its node is. */
    lemma KeyIndex(k: K)
      requires Valid() && k in items
      ensures var i := at[k];
              && k in at && i < |mid| == |Contents.keys| && mid[i] == items[k] && items[k] in mid && items[k] in repr
              && items[k].key == k && k in Contents.vals && items[k].value == Contents.vals[k]
              && Contents.keys[i] == k && OM.IndexOf(Contents.keys, k) == i
    {
      Distinct();
      var i := at[k];
      assert Contents.keys[i] == k;
      OM.IndexOfUnique(Contents.keys, i);
    }

    method Get(key: K) returns (r: Option<V>)
      requires Valid()
      ensures r == if key in Contents.vals then Some(Contents.vals[key]) else None
    {
      if key in items {
        KeyIndex(key);
        r := Some(items[key].value);
      } else {
        r := None;
      }
    }

    method First() returns (r: Option<(K, V)>)
      requires Valid()
      ensures r == OM.First(Contents)
    {
      if head.next != tail {
        r := Some((head.next.key, head.next.value));
      } else {
        r := None;
      }
    }

    method Next(key: K) returns (r: Option<(K, V)>)
      requires Valid()
      ensures r == OM.Next(Contents, key)
    {
      r := None;
      if key in items {
        KeyIndex(key);
        var node := items[key];
        if node.next != tail {
          r := Some((node.next.key, node.next.value));
        }
      }
    }

    method Previous(key: K) returns (r: Option<(K, V)>)
      requires Valid()
      ensures r == OM.Previous(Contents, key)
    {
      r := None;
      if key in items {
        KeyIndex(key);
        var node := items[key];
        if node.prev != head {
          r := Some((node.prev.key, node.prev.value));
        }
      }
    }

    method Put(key: K, value: V)
      requires Valid()
      modifies this, repr
      ensures Valid() && fresh(repr - old(repr))
      ensures Contents == OM.Put(old(Contents), key, value)
    {
      if key in items {
        Update(key, value);
      } else {
        Append(key, value);
      }
    }

    method Update(key: K, value: V)
      requires Valid() && key in items
      modifies this, repr`key, repr`value
      ensures Valid() && repr == old(repr) && Contents == OM.Put(old(Contents), key, value)
    {
      hide Linked, Holds, Indexed;
      KeyIndex(key);
      OM.ReplaceSame(Contents, key, value);
      SetEntry(items[key], key, value);
      Install(items, size, repr, mid, OM.Put(Contents, key, value), at);
    }

    method Append(key: K, value: V)
      requires Valid() && key !in items
      modifies this, repr
      ensures Valid() && fresh(repr - old(repr))
      ensures Contents == OM.Put(old(Contents), key, value)
    {
      hide Linked, Holds, Indexed;
      Distinct();
      var newNode := LinkLast(key, value);
      HoldsAppend(repr, mid, Contents, newNode);
      IndexedAppend(items, mid, Contents.keys, at, key, newNode);
      Install(items[key := newNode], size + 1,
        repr + {newNode}, mid + [newNode], OM.Put(Contents, key, value), at[key := |mid|]);
    }

    /** Sets the index and the size for the list as it now is. */
    method Install(items': map<K, Node<K, V>>, size': int,
                   ghost repr': set<Node<K, V>>, ghost mid': seq<Node<K, V>>, ghost m: OM.OMap<K, V>,
                   ghost at': map<K, nat>)
      requires Linked(repr', head, mid', tail) && Holds(repr', mid', m) && Indexed(items', mid', m.keys, at')
      requires items'.Keys == m.vals.Keys && size' == |mid'|
      modifies this
      ensures Valid() && repr == repr' && Contents == m
    {
      hide Linked, Holds, Indexed;
      items, size := items', size';
      repr, mid, Contents, at := repr', mid', m, at';
    }

    method LinkLast(key: K, value: V) returns (newNode: Node<K, V>)
      requires Linked(repr, head, mid, tail) && AllLone(mid)
      modifies repr`next, repr`prev
      ensures fresh(newNode) && newNode.key == key && newNode.value == value
      ensures Linked(repr + {newNode}, head, mid + [newNode], tail)
    {
      newNode := new Node(key, value);
      var predecessor := tail.prev;
      newNode.next := tail;
      newNode.prev := predecessor;
      assert mid != [] ==> Lone(mid, |mid| - 1);
      predecessor.next := newNode;
      tail.prev := newNode;
    }

    /** What the list without a key's node stands for. */
    lemma WithoutKey(key: K)
      requires Valid() && key in items
      ensures AllLone(mid) && key in at && at[key] < |mid|
      ensures Holds(repr, Delete(mid, at[key]), OM.Remove(Contents, key))
      ensures Indexed(items - {key}, Delete(mid, at[key]), OM.Remove(Contents, key).keys, ShiftDown(at, at[key]))
      ensures (items - {key}).Keys == OM.Remove(Contents, key).vals.Keys && |Delete(mid, at[key])| == size - 1
    {
      hide Linked, Holds, Indexed, AllLone, ShiftDown, OM.NoDuplicates;
      Distinct();
      KeyIndex(key);
      HoldsRemove(repr, mid, Contents, at[key]);
      IndexedRemove(items, mid, Contents.keys, at, at[key]);
    }

    method Remove(key: K) returns (r: Option<V>)
      requires Valid()
      modifies this, repr
      ensures Valid() && repr == old(repr)
      ensures Contents == OM.Remove(old(Contents), key)
      ensures r == if key in old(Contents).vals then Some(old(Contents).vals[key]) else None
    {
      hide Linked, Holds, Indexed, AllLone, ShiftDown, Delete, OM.Remove;
      if key !in items {
        OM.RemoveAbsent(Contents, key);
        return None;
      }
      KeyIndex(key);
      var node := items[key];
      ghost var i := at[key];
      WithoutKey(key);
      r := Some(node.value);
      Unlink(node, i);
      Install(items - {key}, size - 1, repr, Delete(mid, i), OM.Remove(Contents, key), ShiftDown(at, i));
    }

    method Unlink(node: Node<K, V>, ghost i: nat)
      requires Linked(repr, head, mid, tail) && AllLone(mid) && i < |mid| && node == mid[i]
      modifies repr`next, repr`prev
      ensures Linked(repr, head, Delete(mid, i), tail)
    {
      assert (0 < i ==> Lone(mid, i - 1)) && (i + 1 < |mid| ==> Lone(mid, i + 1));
      node.prev.next := node.next;
      node.next.prev := node.prev;
    }

    method Replace(oldKey: K, newKey: K, value: V) returns (ok: bool)
      requires Valid()
      modifies this, repr
      ensures Valid() && repr == old(repr)
      ensures ok == OM.CanReplace(old(Contents), oldKey, newKey)
      ensures Contents == OM.Replace(old(Contents), oldKey, newKey, value)
    {
      if oldKey !in items {
        return false;
      }
      if oldKey != newKey && newKey in items {
        return false;
      }
      Rename(oldKey, newKey, value);
      return true;
    }

    method Rename(oldKey: K, newKey: K, value: V)
      requires Valid() && OM.CanReplace(Contents, oldKey, newKey)
      modifies this, repr`key, repr`value
      ensures Valid() && repr == old(repr) && Contents == OM.Replace(old(Contents), oldKey, newKey, value)
    {
      hide Linked, Holds, Indexed;
      KeyIndex(oldKey);
      var oldNode := items[oldKey];
      ghost var i := at[oldKey];
      assert Indexed((items - {oldKey})[newKey := oldNode], mid, Contents.keys[i := newKey], at[newKey := i]) by {
        Distinct();
        IndexedRename(items, mid, Contents.keys, at, i, newKey);
      }
      SetEntry(oldNode, newKey, value);
      Install((items - {oldKey})[newKey := oldNode], size,
        repr, mid, OM.Replace(Contents, oldKey, newKey, value), at[newKey := i]);
    }

    /** Changes the entry of one node in place. */
    method SetEntry(node: Node<K, V>, newKey: K, value: V)
      requires Valid() && node in mid && node.key in items && items[node.key] == node
      requires OM.CanReplace(Contents, node.key, newKey)
      modifies node`key, node`value
      ensures Holds(repr, mid, OM.Replace(Contents, old(node.key), newKey, value))
    {
      Distinct();
      KeyIndex(node.key);
      assert Lone(mid, at[node.key]);
      ghost var m, m', i := Contents, OM.Replace(Contents, node.key, newKey, value), at[node.key];
      node.key := newKey;
      node.value := value;
      forall j | 0 <= j < |mid|
        ensures mid[j].key == m'.keys[j] && m'.keys[j] in m'.vals && mid[j].value == m'.vals[m'.keys[j]]
      {
        if j != i { assert m.keys[j] != m.keys[i]; }
      }
    }

    /** Visits entries in order until the consumer has taken `limit` of them. */
    method Iterate(start: Option<K>, limit: nat) returns (out: seq<(K, V)>)
      requires Valid()
      ensures var from := OM.StartIndex(Contents, start);
              && |out| == Min(limit, |Contents.keys| - from)
              && forall i :: 0 <= i < |out| ==> Some(out[i]) == OM.EntryAt(Contents, from + i)
    {
      var node := head.next;
      if start.Some? && start.value in items {
        KeyIndex(start.value);
        if items[start.value].next != tail {
          node := items[start.value].next;
        }
      }
      out := WalkFrom(node, OM.StartIndex(Contents, start), limit);
    }

    method WalkFrom(startNode: Node<K, V>, ghost from: nat, limit: nat) returns (out: seq<(K, V)>)
      requires Valid() && from <= |mid| && startNode == if from < |mid| then mid[from] else tail
      ensures |out| == Min(limit, |Contents.keys| - from)
      ensures forall i :: 0 <= i < |out| ==> Some(out[i]) == OM.EntryAt(Contents, from + i)
    {
      var node := startNode;
      ghost var at := from;
      out := [];
      while node != tail && |out| < limit
        invariant at == from + |out| <= |mid| && node == if at < |mid| then mid[at] else tail
        invariant |out| <= limit
        invariant forall i :: 0 <= i < |out| ==> Some(out[i]) == OM.EntryAt(Contents, from + i)
        decreases |mid| - at
      {
        out := out + [(node.key, node.value)];
        node := node.next;
        at := at + 1;
      }
    }
  }
}
