/** Streams that are objects of their own: what each is worth, and the objects it lives in, apart from
    every other stream's. */
module Ownership {

  datatype View<V> = View(values: map<nat, V>, owned: map<nat, set<object>>, repr: set<object>)

  ghost predicate Separate<V>(keys: set<nat>, w: View<V>) {
    && keys == w.values.Keys == w.owned.Keys
    && (forall sid {:trigger w.owned[sid]} :: sid in keys ==> w.owned[sid] <= w.repr)
    && (forall a, b {:trigger w.owned[a], w.owned[b]} :: a in keys && b in keys && a != b ==> w.owned[a] !! w.owned[b])
  }

  /** All streams but one. */
  ghost function Others<V>(w: View<V>, sid: nat): View<V> {
    View(w.values - {sid}, w.owned - {sid}, w.repr - if sid in w.owned then w.owned[sid] else {})
  }

  ghost function With<V>(w: View<V>, sid: nat, own: set<object>, v: V): View<V> {
    View(w.values[sid := v], w.owned[sid := own], w.repr + own)
  }

  lemma {:induction false} OthersSeparate<V>(keys: set<nat>, w: View<V>, sid: nat)
    requires Separate(keys, w)
    ensures Separate(keys - {sid}, Others(w, sid))
  {
  }

  lemma {:induction false} WithSeparate<V>(keys: set<nat>, w: View<V>, sid: nat, own: set<object>, v: V)
    requires Separate(keys, w) && sid !in keys && own !! w.repr
    ensures Separate(keys + {sid}, With(w, sid, own, v))
  {
  }
}
