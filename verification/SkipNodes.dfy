/** The nodes of a skip list whose bottom level is also doubly linked, and how one is linked in and out. */
module SkipNodes {
  import opened Common
  import opened Seqs
  import opened SkipLevels

  const MAX_LEVEL := 32
  const NODES_PER_LEVEL := 4

  class Node<V(0)> {
    var key: int
    var value: V
    // Where each level leads; null at its end.
    var next: seq<Node?<V>>
    // The bottom level once more, in both directions and up to the tail sentinel.
    var after: Node?<V>
    var prev: Node?<V>

    constructor Sentinel(height: nat)
      ensures |next| == height && forall i :: 0 <= i < height ==> next[i] == null
    {
      key, after, prev := 0, null, null;
      next := seq(height, _ => null);
    }

    constructor (key: int, value: V, height: nat)
      ensures this.key == key && this.value == value && |next| == height
    {
      this.key, this.value := key, value;
      after, prev := null, null;
      next := seq(height, _ => null);
    }
  }

  // ---------- What the nodes look like ----------
  // A chain is the head sentinel followed by the nodes in key order.

  ghost function Place<V(0)>(chain: seq<Node<V>>, q: nat): Node?<V> {
    if q < |chain| then chain[q] else null
  }

  ghost predicate Inside<V(0)>(repr: set<Node<V>>, chain: seq<Node<V>>) {
    forall p {:trigger chain[p]} :: 0 <= p < |chain| ==> chain[p] in repr
  }

  /** Every level leads from each node that takes part in it to the first later node that does. */
  ghost predicate Woven<V(0)>(repr: set<Node<V>>, chain: seq<Node<V>>, s: seq<Span>)
    reads repr`next
  {
    && |chain| == |s| && Inside(repr, chain)
    && (forall p {:trigger chain[p].next} :: 0 <= p < |chain| ==> s[p].hi <= |chain[p].next|)
    && (forall p, i {:trigger chain[p].next[i]} :: 0 <= p < |chain| && s[p].lo <= i < s[p].hi ==>
          chain[p].next[i] == Place(chain, First(s, p + 1, i)))
  }

  /** The bottom level runs through all nodes, there and back. */
  ghost predicate Chained<V(0)>(repr: set<Node<V>>, chain: seq<Node<V>>, tail: Node<V>)
    reads repr`after, repr`prev
  {
    && |chain| > 0 && Inside(repr, chain) && tail in repr && tail !in chain
    && (forall p {:trigger chain[p].after} :: 0 <= p < |chain| ==>
          chain[p].after == if p + 1 < |chain| then chain[p + 1] else tail)
    && (forall p {:trigger chain[p].prev} :: 0 < p < |chain| ==> chain[p].prev == chain[p - 1])
    && tail.prev == chain[|chain| - 1]
  }

  /** The nodes behind the head hold the entries of m. */
  ghost predicate Holds<V(0)>(repr: set<Node<V>>, chain: seq<Node<V>>, keys: seq<int>, m: map<int, V>)
    reads repr`key, repr`value
  {
    && |chain| == |keys| && Inside(repr, chain)
    && (forall p {:trigger chain[p]} :: 0 < p < |chain| ==>
          chain[p].key == keys[p] && keys[p] in m && chain[p].value == m[keys[p]])
  }

  ghost predicate Sorted(keys: seq<int>) {
    forall p, q :: 0 < p < q < |keys| ==> keys[p] < keys[q]
  }

  /** The index finds, under each key and no other, the node in that key's place `at`. */
  ghost predicate Indexed<N>(items: map<int, N>, chain: seq<N>, keys: seq<int>, at: map<int, nat>) {
    && |chain| == |keys|
    && (forall p {:trigger keys[p]} :: 0 < p < |keys| ==> keys[p] in items && items[keys[p]] == chain[p])
    && (forall k {:trigger k in items} :: k in items ==> k in at && 0 < at[k] < |keys| && keys[at[k]] == k)
  }

  /** The head takes part in every level there can be, the others in as many as are in use. */
  ghost predicate Heights(s: seq<Span>, level: int) {
    && |s| > 0 && s[0] == Span(0, MAX_LEVEL) && 1 <= level <= MAX_LEVEL
    && forall p {:trigger s[p]} :: 0 < p < |s| ==> s[p].lo == 0 && 1 <= s[p].hi <= level
  }

  /** Nodes with different keys are different nodes. */
  lemma {:induction false} NodesApart<V(0)>(repr: set<Node<V>>, chain: seq<Node<V>>, keys: seq<int>, m: map<int, V>,
                                            b: nat)
    requires Holds(repr, chain, keys, m) && Sorted(keys) && Lone(chain, 0) && b < |chain|
    ensures Lone(chain, b)
  {
    forall p | 0 <= p < |chain| && p != b ensures chain[p] != chain[b] {
      assert 0 < p ==> chain[p].key == keys[p];
      assert 0 < b ==> chain[b].key == keys[b];
    }
  }

  // ---------- Changing one level ----------

  /** Links a node into level l, behind the last earlier node on it. */
  method LinkLevel<V(0)>(node: Node<V>, before: Node<V>, l: nat,
                         ghost repr: set<Node<V>>, ghost chain: seq<Node<V>>, ghost s: seq<Span>, ghost pos: nat)
    requires Woven(repr, chain, s) && 0 < pos < |s| && s[pos] == Span(0, l) && chain[pos] == node
    requires Tall(s, 0, l) && before == chain[Last(s, pos, l)] && l < |node.next|
    requires Lone(chain, pos) && Lone(chain, Last(s, pos, l))
    modifies node`next, before`next
    ensures Woven(repr, chain, s[pos := Span(0, l + 1)]) && |node.next| == old(|node.next|)
  {
    hide First, Last;
    ghost var t, b := s[pos := Span(0, l + 1)], Last(s, pos, l);
    assert AddsLevel(s, t, pos, l);
    node.next := node.next[l := before.next[l]];
    before.next := before.next[l := node];
    forall p, i | 0 <= p < |chain| && t[p].lo <= i < t[p].hi
      ensures chain[p].next[i] == Place(chain, First(t, p + 1, i))
    {
      if p == pos {
        if i == l { AddedPlace(s, t, pos, l); } else { OtherLevels(s, t, pos, l, i); }
      } else {
        AddedLevel(s, t, pos, l, p, i);
      }
    }
  }

  /** Takes a node out of level l, the lowest it is still on. */
  method UnlinkLevel<V(0)>(node: Node<V>, before: Node<V>, l: nat,
                           ghost repr: set<Node<V>>, ghost chain: seq<Node<V>>, ghost s: seq<Span>, ghost pos: nat)
    requires Woven(repr, chain, s) && 0 < pos < |s| && s[pos].lo == l < s[pos].hi && chain[pos] == node
    requires Tall(s, 0, l) && before == chain[Last(s, pos, l)] && l < |before.next| && l < |node.next|
    requires Lone(chain, pos) && Lone(chain, Last(s, pos, l))
    modifies before`next
    ensures Woven(repr, chain, s[pos := Span(l + 1, s[pos].hi)])
  {
    hide First, Last, Place;
    ghost var t, b := s[pos := Span(l + 1, s[pos].hi)], Last(s, pos, l);
    assert AddsLevel(t, s, pos, l);
    assert Last(t, pos, l) == b by {
      forall q | b < q < pos ensures !Tall(t, q, l) { assert !Tall(s, q, l); }
      LastIs(t, pos, l, b);
    }
    assert node.next[l] == Place(chain, First(t, b + 1, l)) by { AddedPlace(t, s, pos, l); }
    before.next := before.next[l := node.next[l]];
    forall p, i | 0 <= p < |chain| && t[p].lo <= i < t[p].hi
      ensures chain[p].next[i] == Place(chain, First(t, p + 1, i))
    {
      if p == pos {
        OtherLevels(t, s, pos, l, i);
      } else {
        AddedLevel(t, s, pos, l, p, i);
      }
    }
  }

  // ---------- Changing a whole node ----------

  lemma {:induction false} PlaceMoves<V(0)>(chain: seq<Node<V>>, pos: nat, node: Node<V>, q: nat)
    requires pos <= |chain| && q <= |chain|
    ensures Place(Insert(chain, pos, node), Shift(q, pos)) == Place(chain, q)
  {
  }

  /** A node that is on no level yet can be counted into the chain. */
  lemma {:induction false} CountIn<V(0)>(repr: set<Node<V>>, chain: seq<Node<V>>, s: seq<Span>, node: Node<V>, pos: nat)
    requires Woven(repr, chain, s) && 0 < pos <= |s|
    ensures Woven(repr + {node}, Insert(chain, pos, node), Insert(s, pos, NOWHERE))
  {
    var chain', s' := Insert(chain, pos, node), Insert(s, pos, NOWHERE);
    forall p, i | 0 <= p < |chain'| && s'[p].lo <= i < s'[p].hi
      ensures chain'[p].next[i] == Place(chain', First(s', p + 1, i))
    {
      var o := if p < pos then p else p - 1;
      SkipsNowhere(s, pos, NOWHERE, o, i);
      PlaceMoves(chain, pos, node, First(s, o + 1, i));
    }
  }

  /** A node that is on no level any more can be left out of the chain. */
  lemma {:induction false} CountOut<V(0)>(repr: set<Node<V>>, chain: seq<Node<V>>, s: seq<Span>, node: Node<V>,
                                          pos: nat, x: Span)
    requires 0 < pos <= |s| == |chain| && x.lo == x.hi
    requires Woven(repr, Insert(chain, pos, node), Insert(s, pos, x))
    ensures Woven(repr, chain, s)
  {
    var chain', s' := Insert(chain, pos, node), Insert(s, pos, x);
    forall p | 0 <= p < |chain| ensures chain[p] in repr && s[p].hi <= |chain[p].next| {
      assert chain[p] == chain'[Shift(p, pos)];
    }
    forall p, i | 0 <= p < |chain| && s[p].lo <= i < s[p].hi
      ensures chain[p].next[i] == Place(chain, First(s, p + 1, i))
    {
      SkipsNowhere(s, pos, x, p, i);
      PlaceMoves(chain, pos, node, First(s, p + 1, i));
      var o := Shift(p, pos);
      assert chain'[o].next[i] == Place(chain', First(s', o + 1, i));
    }
  }

  lemma {:induction false} LeaveOut<V(0)>(repr: set<Node<V>>, chain: seq<Node<V>>, s: seq<Span>, pos: nat, height: nat)
    requires 0 < pos < |s| && Woven(repr, chain, s[pos := Span(height, height)])
    ensures Woven(repr, Delete(chain, pos), Delete(s, pos))
  {
    var t := s[pos := Span(height, height)];
    assert Delete(t, pos) == Delete(s, pos);
    CountOut(repr, Delete(chain, pos), Delete(t, pos), chain[pos], pos, t[pos]);
  }

  /** What comes at `pos` and behind does not matter to the levels before it. */
  lemma {:induction false} LastSame(s: seq<Span>, t: seq<Span>, pos: nat, i: int)
    requires 0 < pos <= |s| && pos <= |t| && s[..pos] == t[..pos] && Tall(s, 0, i)
    ensures Tall(t, 0, i) && Last(t, pos, i) == Last(s, pos, i)
  {
    assert forall p :: 0 <= p < pos ==> s[..pos][p] == t[..pos][p];
    var b := Last(s, pos, i);
    forall p | b < p < pos ensures !Tall(t, p, i) { assert !Tall(s, p, i); }
    LastIs(t, pos, i, b);
  }

  /** Links a new node into its levels from the bottom up. */
  method LinkLevels<V(0)>(node: Node<V>, update: seq<Node<V>>, height: nat,
                          ghost repr: set<Node<V>>, ghost chain: seq<Node<V>>, ghost s: seq<Span>, ghost pos: nat)
    requires Woven(repr, chain, s) && 0 < pos <= |s| && s[0] == Span(0, MAX_LEVEL)
    requires node !in repr && |node.next| == height <= |update| <= MAX_LEVEL
    requires forall i {:trigger update[i]} :: 0 <= i < height ==> update[i] == chain[Last(s, pos, i)]
    requires AllLone(chain)
    modifies repr`next, node`next
    ensures Woven(repr + {node}, Insert(chain, pos, node), Insert(s, pos, Span(0, height)))
  {
    hide First, Last;
    ghost var chain', s' := Insert(chain, pos, node), Insert(s, pos, NOWHERE);
    CountIn(repr, chain, s, node, pos);
    assert s'[pos := Span(0, 0)] == s';
    for i := 0 to height
      invariant |node.next| == height
      invariant Woven(repr + {node}, chain', s'[pos := Span(0, i)])
    {
      ghost var t := s'[pos := Span(0, i)];
      LastSame(s, t, pos, i);
      ghost var b := Last(s, pos, i);
      assert Lone(chain', b) by { assert Lone(chain, b); }
      LinkLevel(node, update[i], i, repr + {node}, chain', t, pos);
      assert t[pos := Span(0, i + 1)] == s'[pos := Span(0, i + 1)];
    }
    assert s'[pos := Span(0, height)] == Insert(s, pos, Span(0, height));
  }

  /** Takes a node out of all its levels. */
  method UnlinkLevels<V(0)>(node: Node<V>, update: seq<Node<V>>, level: nat,
                            ghost repr: set<Node<V>>, ghost chain: seq<Node<V>>, ghost s: seq<Span>, ghost pos: nat)
    requires Woven(repr, chain, s) && 0 < pos < |s| && chain[pos] == node && Heights(s, level)
    requires |update| == MAX_LEVEL
    requires forall i {:trigger update[i]} :: 0 <= i < level ==> update[i] == chain[Last(s, pos, i)]
    requires AllLone(chain)
    modifies repr`next
    ensures Woven(repr, Delete(chain, pos), Delete(s, pos))
  {
    hide First, Last;
    ghost var height := s[pos].hi;
    assert s[pos := Span(Min(0, height), height)] == s;
    for i := 0 to level
      invariant Woven(repr, chain, s[pos := Span(Min(i, height), height)])
    {
      ghost var t := s[pos := Span(Min(i, height), height)];
      ghost var b := Last(s, pos, i);
      LastSame(s, t, pos, i);
      assert Lone(chain, b) && Lone(chain, pos);
      assert update[i].next[i] == Place(chain, First(t, b + 1, i));
      Meets(t, pos, i);
      if update[i].next[i] == node {
        UnlinkLevel(node, update[i], i, repr, chain, t, pos);
      }
      assert t[pos := Span(Min(i + 1, height), height)] == s[pos := Span(Min(i + 1, height), height)];
    }
    LeaveOut(repr, chain, s, pos, height);
  }

  /** The last place before `pos` on a level leads to `pos` exactly when `pos` is on it too. */
  lemma {:induction false} Meets(s: seq<Span>, pos: nat, i: int)
    requires 0 < pos < |s| && Tall(s, 0, i)
    ensures First(s, Last(s, pos, i) + 1, i) == pos <==> Tall(s, pos, i)
  {
    if Tall(s, pos, i) { FirstIs(s, Last(s, pos, i) + 1, i, pos); }
  }

  // ---------- The bottom level ----------

  /** Puts a new node between `before`, at pos - 1, and what followed it. */
  method LinkBottom<V(0)>(node: Node<V>, before: Node<V>,
                          ghost repr: set<Node<V>>, ghost chain: seq<Node<V>>, ghost tail: Node<V>, ghost pos: nat)
    requires Chained(repr, chain, tail) && 0 < pos <= |chain| && before == chain[pos - 1] && node !in repr
    requires AllLone(chain)
    modifies repr`after, repr`prev, node`after, node`prev
    ensures Chained(repr + {node}, Insert(chain, pos, node), tail)
  {
    assert Lone(chain, pos - 1) && (pos < |chain| ==> Lone(chain, pos));
    ghost var chain' := Insert(chain, pos, node);
    var successor := before.after;
    node.after := successor;
    node.prev := before;
    before.after := node;
    successor.prev := node;
    assert tail !in chain';
  }

  method UnlinkBottom<V(0)>(node: Node<V>,
                            ghost repr: set<Node<V>>, ghost chain: seq<Node<V>>, ghost tail: Node<V>, ghost pos: nat)
    requires Chained(repr, chain, tail) && 0 < pos < |chain| && node == chain[pos]
    requires AllLone(chain)
    modifies repr`after, repr`prev
    ensures Chained(repr, Delete(chain, pos), tail)
  {
    assert Lone(chain, pos - 1) && (pos + 1 < |chain| ==> Lone(chain, pos + 1));
    node.prev.after := node.after;
    node.after.prev := node.prev;
    assert tail !in Delete(chain, pos);
  }

  // ---------- The height of a new node ----------

  /** One more than the number of times 4 divides n. */
  function Height(n: nat): nat
    requires 0 < n
  {
    if n % NODES_PER_LEVEL == 0 then 1 + Height(n / NODES_PER_LEVEL) else 1
  }

  function Pow4(n: nat): nat { if n == 0 then 1 else 4 * Pow4(n - 1) }

  /** A quarter of the insertions reach each next level: those whose number divides by the next power. */
  lemma {:induction false} HeightIsPower(n: nat) returns (k: nat)
    requires 0 < n
    ensures n == k * Pow4(Height(n) - 1) && k % 4 != 0
  {
    if n % NODES_PER_LEVEL == 0 {
      k := HeightIsPower(n / NODES_PER_LEVEL);
      var e := Pow4(Height(n) - 2);
      assert n == 4 * (k * e) == k * (4 * e);
    } else {
      k := n;
    }
  }

  // ---------- Which nodes a search passes ----------

  predicate Before(x: int, key: int, orEqual: bool) {
    x < key || (orEqual && x == key)
  }

  /** Nodes up to place pos - 1 come before the key, the others do not. */
  ghost predicate Cut(keys: seq<int>, key: int, orEqual: bool, pos: nat) {
    && 0 < pos <= |keys|
    && (forall p {:trigger keys[p]} :: 0 < p < pos ==> Before(keys[p], key, orEqual))
    && (forall p {:trigger keys[p]} :: pos <= p < |keys| ==> !Before(keys[p], key, orEqual))
  }

  lemma {:induction false} CutExists(keys: seq<int>, key: int, orEqual: bool) returns (pos: nat)
    requires |keys| > 0 && Sorted(keys)
    ensures Cut(keys, key, orEqual, pos)
  {
    pos := |keys|;
    while 1 < pos && !Before(keys[pos - 1], key, orEqual)
      invariant 0 < pos <= |keys|
      invariant forall p {:trigger keys[p]} :: pos <= p < |keys| ==> !Before(keys[p], key, orEqual)
    {
      pos := pos - 1;
    }
  }

  // ---------- Keys and index ----------

  ghost function ShiftUp(at: map<int, nat>, pos: nat): map<int, nat> {
    map k | k in at :: Shift(at[k], pos)
  }

  lemma {:induction false} SortedInsert(keys: seq<int>, pos: nat, key: int)
    requires Sorted(keys) && Cut(keys, key, false, pos) && (pos < |keys| ==> keys[pos] != key)
    ensures Sorted(Insert(keys, pos, key))
  {
    var keys' := Insert(keys, pos, key);
    forall p, q | 0 < p < q < |keys'| ensures keys'[p] < keys'[q] {
      if q == pos { assert Before(keys[p], key, false); }
      if p == pos { assert !Before(keys[q - 1], key, false); }
      if p == pos && pos + 1 < q { assert keys[pos] < keys[q - 1]; }
    }
  }

  lemma {:induction false} SortedDelete(keys: seq<int>, pos: nat)
    requires Sorted(keys) && 0 < pos < |keys|
    ensures Sorted(Delete(keys, pos))
  {
  }

  lemma {:induction false} IndexedInsert<N>(items: map<int, N>, chain: seq<N>, keys: seq<int>, at: map<int, nat>,
                                            pos: nat, key: int, node: N)
    requires Indexed(items, chain, keys, at) && 0 < pos <= |keys| && key !in items
    ensures Indexed(items[key := node], Insert(chain, pos, node), Insert(keys, pos, key), ShiftUp(at, pos)[key := pos])
  {
    var items', chain', keys' := items[key := node], Insert(chain, pos, node), Insert(keys, pos, key);
    forall p | 0 < p < |keys'| ensures keys'[p] in items' && items'[keys'[p]] == chain'[p] {
      if p != pos {
        var o := if p < pos then p else p - 1;
        assert keys'[p] == keys[o] && keys[o] in items;
      }
    }
  }

  lemma {:induction false} IndexedDelete<N>(items: map<int, N>, chain: seq<N>, keys: seq<int>, at: map<int, nat>,
                                            pos: nat)
    requires Indexed(items, chain, keys, at) && 0 < pos < |keys| && Sorted(keys)
    ensures Indexed(items - {keys[pos]}, Delete(chain, pos), Delete(keys, pos), ShiftDown(at, pos))
  {
    var items', chain', keys', at' := items - {keys[pos]}, Delete(chain, pos), Delete(keys, pos), ShiftDown(at, pos);
    forall p | 0 < p < |keys'| ensures keys'[p] in items' && items'[keys'[p]] == chain'[p] {
      var o := if p < pos then p else p + 1;
      assert keys'[p] == keys[o] && keys[o] in items && keys[o] != keys[pos];
    }
    forall k | k in items' ensures k in at' && 0 < at'[k] < |keys'| && keys'[at'[k]] == k {
      assert k in items && at[k] != pos;
    }
  }

  lemma {:induction false} HoldsInsert<V(0)>(repr: set<Node<V>>, chain: seq<Node<V>>, keys: seq<int>, m: map<int, V>,
                                             pos: nat, node: Node<V>)
    requires Holds(repr, chain, keys, m) && 0 < pos <= |keys| && node.key !in m
    ensures Holds(repr + {node}, Insert(chain, pos, node), Insert(keys, pos, node.key), m[node.key := node.value])
  {
    var chain', keys', m' := Insert(chain, pos, node), Insert(keys, pos, node.key), m[node.key := node.value];
    forall p | 0 < p < |chain'|
      ensures chain'[p].key == keys'[p] && keys'[p] in m' && chain'[p].value == m'[keys'[p]]
    {
      if p != pos {
        var o := if p < pos then p else p - 1;
        assert chain'[p] == chain[o] && keys'[p] == keys[o];
      }
    }
  }

  lemma {:induction false} HoldsDelete<V(0)>(repr: set<Node<V>>, chain: seq<Node<V>>, keys: seq<int>, m: map<int, V>,
                                             pos: nat)
    requires Holds(repr, chain, keys, m) && 0 < pos < |keys| && Sorted(keys)
    ensures Holds(repr, Delete(chain, pos), Delete(keys, pos), m - {keys[pos]})
  {
    var chain', keys', m' := Delete(chain, pos), Delete(keys, pos), m - {keys[pos]};
    forall p | 0 <= p < |chain'| ensures chain'[p] in repr && (0 < p ==>
      chain'[p].key == keys'[p] && keys'[p] in m' && chain'[p].value == m'[keys'[p]])
    {
      var o := if p < pos then p else p + 1;
      assert chain'[p] == chain[o] && keys'[p] == keys[o];
      if 0 < p { assert keys[o] != keys[pos]; }
    }
  }
}
