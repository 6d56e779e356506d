/** The sorted map: a hash index over a skip list. */
module SortedMap {
  import opened Common
  import opened Seqs
  import opened SkipLevels
  import opened SkipNodes
  import opened SortedKeys

  /** Where things are: the chain, the levels, the keys in order, and the place of each key. */
  datatype Layout<V(0)> = Layout(chain: seq<Node<V>>, spans: seq<Span>, keys: seq<int>, at: map<int, nat>)

  ghost predicate Fits<V(0)>(lay: Layout<V>, items: map<int, Node<V>>, level: int) {
    && Heights(lay.spans, level) && Sorted(lay.keys) && Lone(lay.chain, 0)
    && Indexed(items, lay.chain, lay.keys, lay.at)
  }

  ghost predicate Drawn<V(0)>(repr: set<Node<V>>, lay: Layout<V>, tail: Node<V>, m: map<int, V>)
    reads repr
  {
    && Woven(repr, lay.chain, lay.spans) && Chained(repr, lay.chain, tail)
    && Holds(repr, lay.chain, lay.keys, m)
  }

  ghost function Inserted<V(0)>(lay: Layout<V>, pos: nat, key: int, node: Node<V>, height: nat): Layout<V>
    requires pos <= |lay.chain| == |lay.spans| == |lay.keys|
  {
    Layout(Insert(lay.chain, pos, node), Insert(lay.spans, pos, Span(0, height)), Insert(lay.keys, pos, key),
           ShiftUp(lay.at, pos)[key := pos])
  }

  ghost function Deleted<V(0)>(lay: Layout<V>, pos: nat): Layout<V>
    requires pos < |lay.chain| == |lay.spans| == |lay.keys|
  {
    Layout(Delete(lay.chain, pos), Delete(lay.spans, pos), Delete(lay.keys, pos), ShiftDown(lay.at, pos))
  }

  lemma {:induction false} FitsInserted<V(0)>(lay: Layout<V>, items: map<int, Node<V>>, level: int,
                                              pos: nat, key: int, node: Node<V>, height: nat)
    requires Fits(lay, items, level) && |lay.chain| == |lay.spans| && key !in items && node !in lay.chain
    requires Cut(lay.keys, key, false, pos) && 1 <= height <= MAX_LEVEL
    ensures Fits(Inserted(lay, pos, key, node, height), items[key := node], Common.Max(level, height))
  {
    assert pos < |lay.keys| ==> lay.keys[pos] in items;
    SortedInsert(lay.keys, pos, key);
    IndexedInsert(items, lay.chain, lay.keys, lay.at, pos, key, node);
  }

  lemma {:induction false} FitsDeleted<V(0)>(lay: Layout<V>, items: map<int, Node<V>>, level: int, pos: nat)
    requires Fits(lay, items, level) && |lay.chain| == |lay.spans| && 0 < pos < |lay.keys|
    ensures Fits(Deleted(lay, pos), items - {lay.keys[pos]}, level)
  {
    SortedDelete(lay.keys, pos);
    IndexedDelete(items, lay.chain, lay.keys, lay.at, pos);
  }

  class SortedMap<V(0)> {
    var items: map<int, Node<V>>
    const head: Node<V>
    const tail: Node<V>
    var level: int
    var size: int
    ghost var repr: set<Node<V>>
    ghost var lay: Layout<V>
    ghost var Contents: map<int, V>

    ghost predicate Valid()
      reads this, repr
    {
      && Drawn(repr, lay, tail, Contents) && Fits(lay, items, level)
      && head == lay.chain[0] && items.Keys == Contents.Keys && size == |lay.chain| - 1
    }

    constructor ()
      ensures Valid() && fresh(repr) && Contents == map[]
    {
      var h := new Node<V>.Sentinel(MAX_LEVEL);
      var t := new Node<V>.Sentinel(0);
      h.after := t;
      t.prev := h;
      items, head, tail, level, size := map[], h, t, 1, 0;
      repr, Contents := {h, t}, map[];
      lay := Layout([h], [Span(0, MAX_LEVEL)], [0], map[]);
    }

    /** Sets the index, the level and the size for the nodes as they now are. */
    method Install(items': map<int, Node<V>>, level': int, size': int,
                   ghost repr': set<Node<V>>, ghost lay': Layout<V>, ghost m: map<int, V>)
      requires Drawn(repr', lay', tail, m) && Fits(lay', items', level')
      requires head == lay'.chain[0] && items'.Keys == m.Keys && size' == |lay'.chain| - 1
      modifies this
      ensures Valid() && repr == repr' && Contents == m
    {
      hide Drawn, Fits;
      items, level, size := items', level', size';
      repr, lay, Contents := repr', lay', m;
    }

    lemma Aligned()
      requires Valid()
      ensures 0 < |lay.chain| == |lay.spans| == |lay.keys| && lay.spans[0] == Span(0, MAX_LEVEL)
      ensures forall p {:trigger lay.chain[p]} :: 0 <= p < |lay.chain| ==> lay.chain[p] in repr
    {
    }

    lemma NodesLone()
      requires Valid()
      ensures AllLone(lay.chain)
    {
      forall b | 0 <= b < |lay.chain| ensures Lone(lay.chain, b) {
        NodesApart(repr, lay.chain, lay.keys, Contents, b);
      }
    }

    /** A key is where its node is. */
    lemma KeyPlace(k: int)
      requires Valid() && k in items
      ensures k in lay.at && 0 < lay.at[k] < |lay.chain| && lay.chain[lay.at[k]] == items[k] && items[k] in repr
      ensures items[k].key == k == lay.keys[lay.at[k]] && items[k].value == Contents[k]
    {
      var p := lay.at[k];
      assert lay.keys[p] == k && lay.chain[p] == items[k];
    }

    /** A key found nowhere in the chain is not in the map. */
    lemma KeyInChain(k: int)
      requires Valid() && k in Contents
      ensures exists p :: 0 < p < |lay.keys| && lay.keys[p] == k
    {
      assert k in items;
      assert lay.keys[lay.at[k]] == k;
    }

    /** Level i is the sub-list of the nodes taller than i: from each of them it leads to the next such node,
        which has a larger key, and past none; it ends behind the last. */
    lemma LevelIsSublist(p: nat, i: nat)
      requires Valid() && p < |lay.chain| && i < lay.spans[p].hi
      ensures |lay.spans| == |lay.chain| == |lay.keys| && i < |lay.chain[p].next|
      ensures var n := lay.chain[p].next[i];
              if n == null then forall q :: p < q < |lay.chain| ==> lay.spans[q].hi <= i
              else exists q :: p < q < |lay.chain| && n == lay.chain[q] && i < lay.spans[q].hi
                             && (0 < p ==> lay.keys[p] < lay.keys[q]) && forall o :: p < o < q ==> lay.spans[o].hi <= i
    {
      var q := First(lay.spans, p + 1, i);
      forall o | p < o < q ensures lay.spans[o].hi <= i { assert !Tall(lay.spans, o, i); }
      assert lay.chain[p].next[i] == Place(lay.chain, q);
    }

    /** Levels that are not in use are empty. */
    lemma UnusedLevelIsEmpty(i: nat)
      requires Valid() && level <= i < MAX_LEVEL
      ensures |head.next| > i && head.next[i] == null
    {
      Aligned();
      FirstIs(lay.spans, 1, i, |lay.spans|);
      assert lay.chain[0].next[i] == Place(lay.chain, First(lay.spans, 1, i));
    }

    /** Descends the levels, on each to the last node before the key. */
    method Search(key: int, orEqual: bool) returns (update: seq<Node<V>>, current: Node<V>, ghost pos: nat)
      requires Valid()
      ensures Cut(lay.keys, key, orEqual, pos) && current == lay.chain[pos - 1]
      ensures |update| == MAX_LEVEL
      ensures forall i {:trigger update[i]} :: 0 <= i < level ==> update[i] == lay.chain[Last(lay.spans, pos, i)]
    {
      pos := CutExists(lay.keys, key, orEqual);
      update, current := seq(MAX_LEVEL, _ => head), head;
      ghost var s, p := lay.spans, 0;
      var i := level;
      while i > 0
        invariant 0 <= i <= level && |update| == MAX_LEVEL
        invariant 0 <= p < pos && current == lay.chain[p] && i <= s[p].hi
        invariant forall q {:trigger Tall(s, q, i)} :: p < q < pos ==> !Tall(s, q, i)
        invariant forall j {:trigger update[j]} :: i <= j < level ==> update[j] == lay.chain[Last(s, pos, j)]
      {
        i := i - 1;
        current, p := Walk(current, key, orEqual, i, p, pos);
        LastIs(s, pos, i, p);
        update := update[i := current];
      }
      assert p + 1 < pos ==> Tall(s, p + 1, 0);
    }

    /** Follows one level up to the last node before the key. */
    method Walk(start: Node<V>, key: int, orEqual: bool, i: nat, ghost from: nat, ghost pos: nat)
      returns (current: Node<V>, ghost p: nat)
      requires Valid() && Cut(lay.keys, key, orEqual, pos) && from < pos && start == lay.chain[from]
      requires Tall(lay.spans, from, i)
      ensures p < pos && current == lay.chain[p] && Tall(lay.spans, p, i)
      ensures forall q {:trigger Tall(lay.spans, q, i)} :: p < q < pos ==> !Tall(lay.spans, q, i)
    {
      current, p := start, from;
      while current.next[i] != null && current.next[i] != tail && Before(current.next[i].key, key, orEqual)
        invariant p < pos && current == lay.chain[p] && Tall(lay.spans, p, i)
        decreases pos - p
      {
        p := First(lay.spans, p + 1, i);
        current := current.next[i];
      }
    }

    method NodeLevel() returns (r: nat)
      requires Valid()
      ensures r == Common.Min(Height(size + 1), MAX_LEVEL) && 1 <= r <= MAX_LEVEL
    {
      var pos := size + 1;
      r := 1;
      while pos % NODES_PER_LEVEL == 0
        invariant 0 < pos && 1 <= r && Height(pos) + r == Height(size + 1) + 1
        decreases pos
      {
        r := r + 1;
        pos := pos / NODES_PER_LEVEL;
      }
      if r > MAX_LEVEL {
        r := MAX_LEVEL;
      }
    }

    method Get(key: int) returns (r: Option<V>)
      requires Valid()
      ensures r == if key in Contents then Some(Contents[key]) else None
    {
      if key in items {
        KeyPlace(key);
        r := Some(items[key].value);
      } else {
        r := None;
      }
    }

    // ---------- Reading in order ----------

    /** What follows a cut that takes equal keys along is the next key. */
    lemma NextAtCut(key: int, pos: nat)
      requires Valid() && Cut(lay.keys, key, true, pos)
      ensures NextKey(Contents, key) == if pos < |lay.keys| then Some(lay.keys[pos]) else None
    {
      forall y | y in Contents && key < y ensures exists p :: pos <= p < |lay.keys| && lay.keys[p] == y {
        KeyInChain(y);
      }
      if pos < |lay.keys| { assert lay.keys[pos] in items && !Before(lay.keys[pos], key, true); }
    }

    /** What precedes a strict cut is the previous key. */
    lemma PrevAtCut(key: int, pos: nat)
      requires Valid() && Cut(lay.keys, key, false, pos)
      ensures PrevKey(Contents, key) == if 1 < pos then Some(lay.keys[pos - 1]) else None
    {
      forall y | y in Contents && y < key ensures exists p :: 0 < p < pos && lay.keys[p] == y {
        KeyInChain(y);
      }
      if 1 < pos { assert lay.keys[pos - 1] in items && Before(lay.keys[pos - 1], key, false); }
    }

    /** A present key is itself at a cut. */
    lemma CutAtKey(k: int)
      requires Valid() && k in items
      ensures k in lay.at && Cut(lay.keys, k, false, lay.at[k]) && Cut(lay.keys, k, true, lay.at[k] + 1)
    {
      KeyPlace(k);
    }

    method Min() returns (r: Option<(int, V)>)
      requires Valid()
      ensures r == EntryOf(Contents, MinKey(Contents))
    {
      MinAtFront();
      if head.after != tail {
        r := Some((head.after.key, head.after.value));
      } else {
        r := None;
      }
    }

    lemma MinAtFront()
      requires Valid()
      ensures MinKey(Contents) == if 1 < |lay.keys| then Some(lay.keys[1]) else None
    {
      forall y | y in Contents ensures exists p :: 0 < p < |lay.keys| && lay.keys[p] == y {
        KeyInChain(y);
      }
      if 1 < |lay.keys| { assert lay.keys[1] in items; }
    }

    method Next(key: int) returns (r: Option<(int, V)>)
      requires Valid()
      ensures r == EntryOf(Contents, NextKey(Contents, key))
    {
      if key in items {
        KeyPlace(key);
        CutAtKey(key);
        NextAtCut(key, lay.at[key] + 1);
        r := EntryAfter(items[key], lay.at[key]);
      } else {
        var _, current, pos := Search(key, true);
        NextAtCut(key, pos);
        r := EntryAfter(current, pos - 1);
      }
    }

    method EntryAfter(node: Node<V>, ghost p: nat) returns (r: Option<(int, V)>)
      requires Valid() && p < |lay.chain| && node == lay.chain[p]
      ensures p + 1 == |lay.keys| ==> r == None
      ensures p + 1 < |lay.keys|
              ==> lay.keys[p + 1] in Contents && r == Some((lay.keys[p + 1], Contents[lay.keys[p + 1]]))
    {
      if node.after != tail {
        r := Some((node.after.key, node.after.value));
      } else {
        r := None;
      }
    }

    method Prev(key: int) returns (r: Option<(int, V)>)
      requires Valid()
      ensures r == EntryOf(Contents, PrevKey(Contents, key))
    {
      r := None;
      if key in items {
        KeyPlace(key);
        CutAtKey(key);
        PrevAtCut(key, lay.at[key]);
        var node := items[key];
        if node.prev != head {
          r := Some((node.prev.key, node.prev.value));
        }
      } else {
        var _, current, pos := Search(key, false);
        PrevAtCut(key, pos);
        if current != head {
          r := Some((current.key, current.value));
        }
      }
    }

    // ---------- Changing the map ----------

    method Put(key: int, value: V)
      requires Valid()
      modifies this, repr
      ensures Valid() && fresh(repr - old(repr)) && Contents == old(Contents)[key := value]
    {
      if key in items {
        Update(key, value);
      } else {
        InsertNew(key, value);
      }
    }

    method Update(key: int, value: V)
      requires Valid() && key in items
      modifies this, repr
      ensures Valid() && repr == old(repr) && Contents == old(Contents)[key := value]
    {
      KeyPlace(key);
      SetValue(items[key], value);
      Install(items, level, size, repr, lay, Contents[key := value]);
    }

    method SetValue(node: Node<V>, value: V)
      requires Valid() && node.key in items && items[node.key] == node && node in repr
      modifies node`value
      ensures Holds(repr, lay.chain, lay.keys, Contents[node.key := value])
    {
      KeyPlace(node.key);
      NodesApart(repr, lay.chain, lay.keys, Contents, lay.at[node.key]);
      node.value := value;
    }

    method InsertNew(key: int, value: V)
      requires Valid() && key !in items
      modifies this, repr
      ensures Valid() && fresh(repr - old(repr)) && Contents == old(Contents)[key := value]
    {
      hide Woven, Chained, Holds, Indexed, Heights, Sorted, Lone;
      Aligned();
      var update, current, pos := Search(key, false);
      var height := NodeLevel();
      update := RaiseHead(update, height, pos);
      var node := Attach(key, value, height, update, pos);
      Install(items[key := node], Common.Max(level, height), size + 1,
        repr + {node}, Inserted(lay, pos, key, node, height), Contents[key := value]);
    }

    /** Links a new node in, behind the nodes found on each of its levels. */
    method Attach(key: int, value: V, height: nat, update: seq<Node<V>>, ghost pos: nat) returns (node: Node<V>)
      requires Valid() && key !in items && Cut(lay.keys, key, false, pos) && 1 <= height <= MAX_LEVEL
      requires |update| == MAX_LEVEL && update[0] == lay.chain[pos - 1]
      requires forall i {:trigger update[i]} :: 0 <= i < height ==> update[i] == lay.chain[Last(lay.spans, pos, i)]
      modifies repr`next, repr`after, repr`prev
      ensures fresh(node)
      ensures Drawn(repr + {node}, Inserted(lay, pos, key, node, height), tail, Contents[key := value])
      ensures Fits(Inserted(lay, pos, key, node, height), items[key := node], Common.Max(level, height))
    {
      hide Woven, Chained, Holds, Indexed, AllLone, Heights, Sorted, Lone;
      Aligned();
      node := new Node(key, value, height);
      NodesLone();
      FitsInserted(lay, items, level, pos, key, node, height);
      HoldsInsert(repr, lay.chain, lay.keys, Contents, pos, node);
      LinkLevels(node, update, height, repr, lay.chain, lay.spans, pos);
      LinkBottom(node, update[0], repr, lay.chain, tail, pos);
    }

    /** On levels not in use before, the head comes before the new node. */
    method RaiseHead(below: seq<Node<V>>, height: nat, ghost pos: nat) returns (update: seq<Node<V>>)
      requires Valid() && 0 < pos <= |lay.chain| && 1 <= height <= MAX_LEVEL && |below| == MAX_LEVEL
      requires forall i {:trigger below[i]} :: 0 <= i < level ==> below[i] == lay.chain[Last(lay.spans, pos, i)]
      ensures |update| == MAX_LEVEL && update[0] == lay.chain[pos - 1]
      ensures forall i {:trigger update[i]} :: 0 <= i < height ==> update[i] == lay.chain[Last(lay.spans, pos, i)]
    {
      update := below;
      LastIs(lay.spans, pos, 0, pos - 1);
      if height > level {
        for i := level to height
          invariant |update| == MAX_LEVEL
          invariant forall j {:trigger update[j]} :: 0 <= j < i ==> update[j] == lay.chain[Last(lay.spans, pos, j)]
        {
          LastIs(lay.spans, pos, i, 0);
          update := update[i := head];
        }
      }
    }

    method Remove(key: int) returns (r: Option<V>)
      requires Valid()
      modifies this, repr
      ensures Valid() && repr == old(repr) && Contents == old(Contents) - {key}
      ensures r == if key in old(Contents) then Some(old(Contents)[key]) else None
    {
      if key !in items {
        return None;
      }
      var update, current, pos := Search(key, false);
      TargetAtCut(key, pos);
      r := Some(items[key].value);
      RemoveAt(key, items[key], current, update, pos);
    }

    method RemoveAt(key: int, node: Node<V>, current: Node<V>, update: seq<Node<V>>, ghost pos: nat)
      requires Valid() && 0 < pos < |lay.chain| && node == lay.chain[pos] && current == lay.chain[pos - 1]
      requires |update| == MAX_LEVEL && First(lay.spans, pos, 0) == pos && lay.keys[pos] == key
      requires forall i {:trigger update[i]} :: 0 <= i < level ==> update[i] == lay.chain[Last(lay.spans, pos, i)]
      modifies this, repr
      ensures Valid() && repr == old(repr) && Contents == old(Contents) - {key}
    {
      hide Woven, Chained, Holds, Indexed, Heights, Sorted, Lone;
      Aligned();
      var level' := DetachAndShrink(node, current, update, pos);
      Install(items - {key}, level', size - 1, repr, Deleted(lay, pos), Contents - {key});
    }

    lemma TargetAtCut(key: int, pos: nat)
      requires Valid() && key in items && Cut(lay.keys, key, false, pos)
      ensures pos < |lay.chain| && lay.chain[pos] == items[key] && lay.keys[pos] == key
              && items[key].value == Contents[key]
      ensures First(lay.spans, pos, 0) == pos
    {
      KeyPlace(key);
      assert lay.keys[lay.at[key]] == key;
      assert pos < lay.at[key] ==> !Before(lay.keys[pos], key, false);
      FirstIs(lay.spans, pos, 0, pos);
    }

    method DetachAndShrink(node: Node<V>, current: Node<V>, update: seq<Node<V>>, ghost pos: nat) returns (level': int)
      requires Valid() && 0 < pos < |lay.chain| && node == lay.chain[pos] && current == lay.chain[pos - 1]
      requires |update| == MAX_LEVEL && First(lay.spans, pos, 0) == pos
      requires forall i {:trigger update[i]} :: 0 <= i < level ==> update[i] == lay.chain[Last(lay.spans, pos, i)]
      modifies repr`next, repr`after, repr`prev
      ensures Drawn(repr, Deleted(lay, pos), tail, Contents - {lay.keys[pos]})
      ensures Fits(Deleted(lay, pos), items - {lay.keys[pos]}, level')
    {
      hide Woven, Chained, Holds, Indexed, AllLone, Heights, Sorted, Lone;
      Aligned();
      Detach(node, current, update, pos);
      level' := ShrinkLevel(pos);
    }

    /** Takes a node out of the skip list and out of the bottom list. */
    method Detach(node: Node<V>, current: Node<V>, update: seq<Node<V>>, ghost pos: nat)
      requires Valid() && 0 < pos < |lay.chain| && node == lay.chain[pos] && current == lay.chain[pos - 1]
      requires |update| == MAX_LEVEL && First(lay.spans, pos, 0) == pos
      requires forall i {:trigger update[i]} :: 0 <= i < level ==> update[i] == lay.chain[Last(lay.spans, pos, i)]
      modifies repr`next, repr`after, repr`prev
      ensures Drawn(repr, Deleted(lay, pos), tail, Contents - {lay.keys[pos]})
    {
      hide Woven, Chained, Holds, Indexed, AllLone, Heights, Sorted, Lone;
      Aligned();
      NodesLone();
      DetachLevels(node, current, update, pos);
      UnlinkBottom(node, repr, lay.chain, tail, pos);
      HoldsDelete(repr, lay.chain, lay.keys, Contents, pos);
    }

    method DetachLevels(node: Node<V>, current: Node<V>, update: seq<Node<V>>, ghost pos: nat)
      requires Valid() && 0 < pos < |lay.chain| && node == lay.chain[pos] && current == lay.chain[pos - 1]
      requires |update| == MAX_LEVEL && First(lay.spans, pos, 0) == pos
      requires forall i {:trigger update[i]} :: 0 <= i < level ==> update[i] == lay.chain[Last(lay.spans, pos, i)]
      modifies repr`next
      ensures Woven(repr, Delete(lay.chain, pos), Delete(lay.spans, pos))
    {
      NodesLone();
      assert current.next[0] == node;
      if current.next[0] == node {
        UnlinkLevels(node, update, level, repr, lay.chain, lay.spans, pos);
      }
    }

    /** Gives up the levels that no node is on any more. */
    method ShrinkLevel(ghost pos: nat) returns (level': int)
      requires Fits(lay, items, level) && 0 < pos < |lay.keys| == |lay.spans| && head == lay.chain[0]
      requires Woven(repr, Delete(lay.chain, pos), Delete(lay.spans, pos))
      ensures Fits(Deleted(lay, pos), items - {lay.keys[pos]}, level')
    {
      FitsDeleted(lay, items, level, pos);
      ghost var lay' := Deleted(lay, pos);
      assert lay'.chain[0] == head;
      level' := level;
      while level' > 1 && head.next[level' - 1] == null
        invariant Heights(lay'.spans, level')
      {
        forall p | 0 < p < |lay'.spans| ensures lay'.spans[p].hi <= level' - 1 {
          assert !Tall(lay'.spans, p, level' - 1);
        }
        level' := level' - 1;
      }
    }
  }
}
