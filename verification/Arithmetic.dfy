/**
  Powers of two, division by its defining property, and the marker that keeps sealed predicates shut.
 */
module Arithmetic {

  function Pow2(k: nat): (r: nat)
    ensures r >= 1
  {
    if k == 0 then 1 else 2 * Pow2(k - 1)
  }

  lemma {:induction false} PowRises(i: nat, j: nat)
    requires i <= j
    ensures Pow2(i) <= Pow2(j)
  {
    if i < j {
      PowRises(i, j - 1);
    }
  }

  lemma PowValues()
    ensures Pow2(0) == 1 && Pow2(1) == 2 && Pow2(2) == 4 && Pow2(3) == 8
    ensures Pow2(4) == 16 && Pow2(5) == 32 && Pow2(6) == 64 && Pow2(7) == 128
  {
    assert Pow2(0) == 1;
    assert Pow2(1) == 2 * Pow2(0);
    assert Pow2(2) == 2 * Pow2(1);
    assert Pow2(3) == 2 * Pow2(2);
    assert Pow2(4) == 2 * Pow2(3);
    assert Pow2(5) == 2 * Pow2(4);
    assert Pow2(6) == 2 * Pow2(5);
    assert Pow2(7) == 2 * Pow2(6);
  }

  // Only 0 has a multiple smaller than the factor.
  lemma ZeroMultiple(d: int, m: int)
    requires m > 0 && -m < d * m < m
    ensures d == 0
  {
    assert d >= 1 ==> d * m >= m;
    assert d <= -1 ==> d * m <= -m;
  }

  // Quotient and remainder are unique.
  lemma DivisionUnique(m: int, k: int, s: int, l: int, t: int)
    requires m > 0 && 0 <= s < m && 0 <= t < m && k * m + s == l * m + t
    ensures k == l && s == t
  {
    assert (k - l) * m == k * m - l * m;
    ZeroMultiple(k - l, m);
  }

  lemma QuotientIs(x: int, m: int, q: int, r: int)
    requires m > 0 && x == q * m + r && 0 <= r < m
    ensures x / m == q && x % m == r
  {
    DivisionUnique(m, x / m, x % m, q, r);
  }

  // Halving first or last is the same.
  lemma HalfOfQuotient(x: int, m: int)
    requires 0 <= x && 0 < m
    ensures x / (2 * m) == x / 2 / m
  {
    var h, c := x / 2, x % 2;
    var q, r := h / m, h % m;
    assert x == 2 * h + c && h == q * m + r;
    assert q * (2 * m) == 2 * (q * m);
    QuotientIs(x, 2 * m, q, 2 * r + c);
  }

  // A predicate sealed behind this marker is opened by `assert Unfold(0)`; elsewhere the verifier passes it
  // on without looking inside.
  ghost predicate Unfold(x: int) { true }
}
