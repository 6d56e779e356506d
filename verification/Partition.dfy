/** How a stream is cut into packets: a set of ranges that tile a prefix of it, and a
    log of ranges handed to the network that every tile respects. */
module Partition {
  import opened Ranges

  /** `parts` are non-empty, do not overlap, and cover exactly the first n positions. */
  ghost predicate Tiles(parts: set<Range>, n: nat) {
    && (forall r :: r in parts ==> 0 < r.len && r.End() <= n)
    && (forall a, b {:trigger Apart(a, b)} :: a in parts && b in parts && a != b ==> Apart(a, b))
    && (forall p :: 0 <= p < n ==> Tiled(parts, p))
  }

  ghost predicate Tiled(parts: set<Range>, p: int) {
    exists r :: r in parts && r.Holds(p)
  }

  lemma {:induction false} TilesExtend(parts: set<Range>, n: nat, len: nat)
    requires Tiles(parts, n) && 0 < len
    ensures Tiles(parts + {Range(n, len)}, n + len)
    ensures Range(n, len) !in parts
  {
    var r := Range(n, len);
    forall p | 0 <= p < n + len ensures Tiled(parts + {r}, p) {
      if p < n {
        assert Tiled(parts, p);
        var q :| q in parts && q.Holds(p);
        assert q in parts + {r};
      } else {
        assert r in parts + {r} && r.Holds(p);
      }
    }
  }

  function Left(r: Range, cut: nat): Range { Range(r.offset, cut) }

  function Right(r: Range, cut: nat): Range
    requires cut <= r.len
  {
    Range(r.offset + cut, r.len - cut)
  }

  ghost function CutPart(parts: set<Range>, r: Range, cut: nat): set<Range>
    requires cut <= r.len
  {
    parts - {r} + {Left(r, cut), Right(r, cut)}
  }

  lemma {:induction false} TilesCut(parts: set<Range>, n: nat, r: Range, cut: nat)
    requires Tiles(parts, n) && r in parts && 0 < cut < r.len
    ensures Tiles(CutPart(parts, r, cut), n)
    ensures Left(r, cut) !in parts && Right(r, cut) !in parts
  {
    var parts' := CutPart(parts, r, cut);
    forall p | 0 <= p < n ensures Tiled(parts', p) {
      assert Tiled(parts, p);
      var q :| q in parts && q.Holds(p);
      if q == r {
        assert Left(r, cut) in parts' && Right(r, cut) in parts';
        assert Left(r, cut).Holds(p) || Right(r, cut).Holds(p);
      } else {
        assert q in parts';
      }
    }
    forall a | a in parts && a != r ensures Apart(a, r) && !Within(a, r) {}
  }

  /** Every tile lies inside or outside every logged range, and logged ranges do not cross. */
  ghost predicate Respects(parts: set<Range>, n: nat, log: seq<Range>) {
    && (forall i :: 0 <= i < |log| ==> 0 < log[i].len && log[i].End() <= n)
    && (forall i, r :: 0 <= i < |log| && r in parts ==> Within(r, log[i]) || Apart(r, log[i]))
    && (forall i, j :: 0 <= i < j < |log| ==> NestedOrApart(log[i], log[j]))
  }

  /** A range inside a tile can be logged without crossing anything already logged. */
  lemma {:induction false} RespectsLog(parts: set<Range>, n: nat, log: seq<Range>, r: Range)
    requires Tiles(parts, n) && Respects(parts, n, log) && r in parts
    ensures Respects(parts, n, log + [r])
  {
    forall a | a in parts ensures Within(a, r) || Apart(a, r) {
      if a != r { assert Apart(a, r); }
    }
  }

  lemma {:induction false} RespectsExtend(parts: set<Range>, n: nat, log: seq<Range>, len: nat)
    requires Respects(parts, n, log)
    ensures Respects(parts + {Range(n, len)}, n + len, log)
  {
  }

  lemma {:induction false} RespectsCut(parts: set<Range>, n: nat, log: seq<Range>, r: Range, cut: nat)
    requires Respects(parts, n, log) && r in parts && cut <= r.len
    ensures Respects(CutPart(parts, r, cut), n, log)
  {
    forall i, a | 0 <= i < |log| && a in CutPart(parts, r, cut) ensures Within(a, log[i]) || Apart(a, log[i]) {
      assert Within(r, log[i]) || Apart(r, log[i]);
    }
  }

  /** How often position p was handed to the network. */
  ghost function Count(log: seq<Range>, p: int): nat {
    if log == [] then 0
    else Count(log[..|log| - 1], p) + (if log[|log| - 1].Holds(p) then 1 else 0)
  }

  lemma {:induction false} CountLog(log: seq<Range>, r: Range, p: int)
    ensures Count(log + [r], p) == Count(log, p) + (if r.Holds(p) then 1 else 0)
  {
    assert (log + [r])[..|log|] == log;
  }

  lemma {:induction false} CountBeyond(log: seq<Range>, n: nat, p: int)
    requires forall i :: 0 <= i < |log| ==> log[i].End() <= n
    requires n <= p
    ensures Count(log, p) == 0
  {
    if log == [] {
    } else {
      CountBeyond(log[..|log| - 1], n, p);
    }
  }

  /** Bytes handed to the network, repeats included. */
  ghost function LogBytes(log: seq<Range>): nat {
    if log == [] then 0 else LogBytes(log[..|log| - 1]) + log[|log| - 1].len
  }

  lemma {:induction false} LogBytesLog(log: seq<Range>, r: Range)
    ensures LogBytes(log + [r]) == LogBytes(log) + r.len
  {
    assert (log + [r])[..|log|] == log;
  }
}
