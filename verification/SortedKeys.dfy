/** What a sorted map answers, in terms of the plain map it stands for. */
module SortedKeys {
  import opened Common

  ghost predicate IsGreatest(s: set<int>, x: int) {
    x in s && forall y :: y in s ==> y <= x
  }

  ghost predicate IsLeast(s: set<int>, x: int) {
    x in s && forall y :: y in s ==> x <= y
  }

  lemma Pick<T>(s: set<T>) returns (x: T)
    requires s != {}
    ensures x in s
  {
    x :| x in s;
  }

  lemma {:induction false} GreatestExists(s: set<int>) returns (g: int)
    requires s != {}
    ensures IsGreatest(s, g)
  {
    g := Pick(s);
    assert s == s - {g} + {g};
    if s == {g} {
    } else {
      var rest := GreatestExists(s - {g});
      if g < rest { g := rest; }
    }
  }

  lemma {:induction false} LeastExists(s: set<int>) returns (g: int)
    requires s != {}
    ensures IsLeast(s, g)
  {
    g := Pick(s);
    assert s == s - {g} + {g};
    if s == {g} {
    } else {
      var rest := LeastExists(s - {g});
      if rest < g { g := rest; }
    }
  }

  lemma EveryNonEmptyHasBounds(s: set<int>)
    ensures s != {} ==> exists x :: IsGreatest(s, x)
    ensures s != {} ==> exists x :: IsLeast(s, x)
  {
    if s != {} {
      var g := GreatestExists(s);
      var l := LeastExists(s);
    }
  }

  ghost function Greatest(s: set<int>): (r: Option<int>)
    ensures if s == {} then r.None? else r.Some? && IsGreatest(s, r.value)
  {
    EveryNonEmptyHasBounds(s);
    if s == {} then None else var x :| IsGreatest(s, x); Some(x)
  }

  ghost function Least(s: set<int>): (r: Option<int>)
    ensures if s == {} then r.None? else r.Some? && IsLeast(s, r.value)
  {
    EveryNonEmptyHasBounds(s);
    if s == {} then None else var x :| IsLeast(s, x); Some(x)
  }

  ghost function PrevKey<V>(m: map<int, V>, k: int): (r: Option<int>)
    ensures r.Some? ==> r.value in m && r.value < k && forall y :: y in m && y < k ==> y <= r.value
    ensures r.None? ==> forall y :: y in m ==> k <= y
  {
    var below := set x | x in m && x < k;
    assert forall y :: y in m && y < k ==> y in below;
    Greatest(below)
  }

  ghost function NextKey<V>(m: map<int, V>, k: int): (r: Option<int>)
    ensures r.Some? ==> r.value in m && k < r.value && forall y :: y in m && k < y ==> r.value <= y
    ensures r.None? ==> forall y :: y in m ==> y <= k
  {
    var above := set x | x in m && k < x;
    assert forall y :: y in m && k < y ==> y in above;
    Least(above)
  }

  ghost function MinKey<V>(m: map<int, V>): (r: Option<int>)
    ensures r.Some? ==> r.value in m && forall y :: y in m ==> r.value <= y
    ensures r.None? <==> m == map[]
  {
    Least(m.Keys)
  }

  /** The entry a query answers with. */
  ghost function EntryOf<V>(m: map<int, V>, k: Option<int>): Option<(int, V)>
    requires k.Some? ==> k.value in m
  {
    if k.Some? then Some((k.value, m[k.value])) else None
  }
}
