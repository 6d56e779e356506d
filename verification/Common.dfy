/** Types and small functions shared by every part of the model. */
module Common {

  type byte = x: int | 0 <= x < 256

  type Bytes = seq<byte>

  datatype Option<+T> = None | Some(value: T)

  // Widths at which the source's integers wrap.
  const U16 := 0x1_0000
  const U32 := 0x1_0000_0000
  const U48 := 0x1_0000_0000_0000
  const U64 := 0x1_0000_0000_0000_0000

  function Min(a: int, b: int): int {
    if a < b then a else b
  }

  /** What is left of x in a register that wraps at m. */
  function Wrap(x: nat, m: nat): (r: nat)
    requires 0 < m
    ensures r < m
    ensures x < m ==> r == x
  {
    if x < m then x else Wrap(x - m, m)
  }

  lemma {:induction false} WrapIsMod(x: nat, m: nat)
    requires 0 < m
    ensures Wrap(x, m) == x % m
  {
    if x < m {
    } else {
      WrapIsMod(x - m, m);
      WrapStep(x, m);
    }
  }

  lemma WrapStep(x: nat, m: nat)
    requires 0 < m <= x
    ensures (x - m) % m == x % m
  {
    var q, r := x / m, x % m;
    assert x - m == (q - 1) * m + r;
    DivUnique(x - m, m, q - 1, r);
  }

  /** Quotient and remainder are what the division gives. */
  lemma DivUnique(x: int, m: nat, q: int, r: nat)
    requires x == q * m + r && r < m
    ensures x / m == q && x % m == r
  {
    var d := x / m - q;
    assert d * m == r - x % m;
    assert d >= 1 ==> d * m >= m;
    assert d <= -1 ==> (-d) * m >= m;
  }

  function Max(a: int, b: int): int {
    if a < b then b else a
  }

  function Pow2(n: nat): (r: nat)
    ensures r > 0
  {
    if n == 0 then 1 else 2 * Pow2(n - 1)
  }
}
