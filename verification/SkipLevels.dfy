/** The levels of a skip list, apart from the nodes: which places take part in which level,
    and where each level leads from a place. */
module SkipLevels {
  import opened Seqs

  /** The levels lo..hi a place takes part in. A linked node takes part from 0 up to its height; one
      being linked in, or out, has only some of its levels done. */
  datatype Span = Span(lo: nat, hi: nat)

  const NOWHERE := Span(0, 0)

  predicate Tall(s: seq<Span>, p: int, i: int) {
    0 <= p < |s| && s[p].lo <= i < s[p].hi
  }

  /** The first place from `from` on that takes part in level i. */
  ghost function First(s: seq<Span>, from: nat, i: int): (r: nat)
    requires from <= |s|
    ensures from <= r <= |s|
    ensures r < |s| ==> Tall(s, r, i)
    ensures forall q {:trigger Tall(s, q, i)} :: from <= q < r ==> !Tall(s, q, i)
    decreases |s| - from
  {
    if from == |s| || Tall(s, from, i) then from else First(s, from + 1, i)
  }

  /** The last place before `pos` that takes part in level i; the head always does. */
  ghost function Last(s: seq<Span>, pos: nat, i: int): (r: nat)
    requires 0 < pos <= |s| && Tall(s, 0, i)
    ensures r < pos && Tall(s, r, i)
    ensures forall q {:trigger Tall(s, q, i)} :: r < q < pos ==> !Tall(s, q, i)
  {
    if Tall(s, pos - 1, i) then pos - 1 else Last(s, pos - 1, i)
  }

  lemma {:induction false} FirstIs(s: seq<Span>, from: nat, i: int, q: nat)
    requires from <= q <= |s| && (q < |s| ==> Tall(s, q, i))
    requires forall p {:trigger Tall(s, p, i)} :: from <= p < q ==> !Tall(s, p, i)
    ensures First(s, from, i) == q
  {
    var r := First(s, from, i);
    assert r < q ==> Tall(s, r, i);
  }

  lemma {:induction false} LastIs(s: seq<Span>, pos: nat, i: int, q: nat)
    requires q < pos <= |s| && Tall(s, 0, i) && Tall(s, q, i)
    requires forall p {:trigger Tall(s, p, i)} :: q < p < pos ==> !Tall(s, p, i)
    ensures Last(s, pos, i) == q
  {
    var r := Last(s, pos, i);
    assert Tall(s, r, i);
  }

  /** `t` is `s` with level l added at place `pos`. */
  ghost predicate AddsLevel(s: seq<Span>, t: seq<Span>, pos: nat, l: nat) {
    && |s| == |t| && pos < |s|
    && !Tall(s, pos, l) && Tall(t, pos, l)
    && (forall p, i {:trigger Tall(t, p, i)} :: (p != pos || i != l) ==> Tall(t, p, i) == Tall(s, p, i))
  }

  /** Adding a level at a place changes where one place leads, on that level: the last one before it. */
  lemma {:induction false} AddedLevel(s: seq<Span>, t: seq<Span>, pos: nat, l: nat, p: nat, i: int)
    requires AddsLevel(s, t, pos, l) && 0 < pos && Tall(s, 0, l) && Tall(s, p, i)
    ensures First(t, p + 1, i) == if i == l && p == Last(s, pos, l) then pos else First(s, p + 1, i)
  {
    var b := Last(s, pos, l);
    if i == l && p == b {
      forall q | p < q < pos ensures !Tall(t, q, i) { assert !Tall(s, q, i); }
      FirstIs(t, p + 1, i, pos);
    } else {
      var r := First(s, p + 1, i);
      if i == l && p < b { assert r <= b by { assert Tall(s, b, i); } }
      forall q | p + 1 <= q < r ensures !Tall(t, q, i) { assert !Tall(s, q, i); }
      assert r < |s| ==> Tall(t, r, i);
      FirstIs(t, p + 1, i, r);
    }
  }

  /** On the added level, the new place leads where the one before it did. */
  lemma {:induction false} AddedPlace(s: seq<Span>, t: seq<Span>, pos: nat, l: nat)
    requires AddsLevel(s, t, pos, l) && 0 < pos && Tall(s, 0, l)
    ensures First(t, pos + 1, l) == First(s, Last(s, pos, l) + 1, l)
  {
    var b := Last(s, pos, l);
    var r := First(s, b + 1, l);
    assert r < |s| ==> Tall(s, r, l);
    forall q | pos + 1 <= q < r ensures !Tall(t, q, l) { assert !Tall(s, q, l); }
    assert r < |s| ==> Tall(t, r, l);
    FirstIs(t, pos + 1, l, r);
  }

  /** Levels other than l lead on from `pos` as before. */
  lemma {:induction false} OtherLevels(s: seq<Span>, t: seq<Span>, pos: nat, l: nat, i: int)
    requires AddsLevel(s, t, pos, l) && i != l
    ensures First(t, pos + 1, i) == First(s, pos + 1, i)
  {
    var r := First(s, pos + 1, i);
    forall q | pos + 1 <= q < r ensures !Tall(t, q, i) { assert !Tall(s, q, i); }
    assert r < |s| ==> Tall(t, r, i);
    FirstIs(t, pos + 1, i, r);
  }

  // ---------- Places that take part in no level ----------

  /** A place that takes part in no level is skipped: what comes after it moves up by one. */
  lemma {:induction false} SkipsNowhere(s: seq<Span>, pos: nat, x: Span, p: nat, i: int)
    requires 0 < pos <= |s| && p < |s| && !(x.lo <= i < x.hi)
    ensures First(Insert(s, pos, x), Shift(p, pos) + 1, i) == Shift(First(s, p + 1, i), pos)
  {
    var t := Insert(s, pos, x);
    var r := First(s, p + 1, i);
    var from, to := Shift(p, pos) + 1, Shift(r, pos);
    forall q | from <= q < to ensures !Tall(t, q, i) {
      if q < pos { assert !Tall(s, q, i); } else if q > pos { assert !Tall(s, q - 1, i); }
    }
    assert r < |s| ==> Tall(t, to, i);
    FirstIs(t, from, i, to);
  }
}
