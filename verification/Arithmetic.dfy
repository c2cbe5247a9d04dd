/** Extremes, powers of two and division. */
module Arithmetic {

  function Max(a: int, b: int): int {
    if a < b then b else a
  }

  function Min(a: int, b: int): int {
    if a < b then a else b
  }

  function Pow2(k: nat): (p: nat)
    ensures p >= 1
  {
    if k == 0 then 1 else 2 * Pow2(k - 1)
  }

  lemma MultipleAtLeast(d: nat, k: nat)
    ensures k >= 1 ==> d * k >= d
  {}

  /** Quotient and remainder are unique. */
  lemma DivisionIs(x: nat, d: nat, q: nat, r: nat)
    requires x == d * q + r && r < d
    ensures x / d == q && x % d == r
  {
    var q', r' := x / d, x % d;
    assert x == d * q' + r';
    if q' < q {
      assert d * (q - q') == r' - r;
      MultipleAtLeast(d, q - q');
    } else if q' > q {
      assert d * (q' - q) == r - r';
      MultipleAtLeast(d, q' - q);
    }
  }

  lemma ProductGrows(a: nat, i: nat, j: nat)
    requires i <= j
    ensures a * i <= a * j
  {
    assert a * j == a * i + a * (j - i);
  }
}
