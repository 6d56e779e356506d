/** Inserting into and deleting from a sequence. */
module Seqs {

  function Insert<T>(s: seq<T>, pos: nat, x: T): (r: seq<T>)
    requires pos <= |s|
    ensures |r| == |s| + 1 && r[pos] == x
    ensures forall q {:trigger r[q]} :: 0 <= q < pos ==> r[q] == s[q]
    ensures forall q {:trigger r[q]} :: pos < q < |r| ==> r[q] == s[q - 1]
  {
    s[..pos] + [x] + s[pos..]
  }

  function Delete<T>(s: seq<T>, pos: nat): (r: seq<T>)
    requires pos < |s|
    ensures |r| == |s| - 1
    ensures forall q {:trigger r[q]} :: 0 <= q < pos ==> r[q] == s[q]
    ensures forall q {:trigger r[q]} :: pos <= q < |r| ==> r[q] == s[q + 1]
    ensures Insert(r, pos, s[pos]) == s
  {
    s[..pos] + s[pos + 1..]
  }

  /** Where place q of a sequence is after an insertion at `pos`. */
  function Shift(q: nat, pos: nat): nat {
    if q < pos then q else q + 1
  }

  /** Where each key is after the deletion of place i. */
  ghost function ShiftDown<K>(at: map<K, nat>, i: nat): map<K, nat> {
    map k | k in at :: if i < at[k] then at[k] - 1 else at[k]
  }

  /** What is at place b is nowhere else. */
  ghost predicate Lone<N>(s: seq<N>, b: nat) {
    b < |s| && forall p {:trigger s[p]} :: 0 <= p < |s| && p != b ==> s[p] != s[b]
  }

  ghost predicate AllLone<N>(s: seq<N>) {
    forall b {:trigger Lone(s, b)} :: 0 <= b < |s| ==> Lone(s, b)
  }
}
