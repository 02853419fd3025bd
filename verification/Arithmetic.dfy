/** Powers of two, quotients and remainders. */
module Arithmetic {

  function Pow2(n: nat): (r: nat)
    ensures r > 0
  {
    if n == 0 then 1 else 2 * Pow2(n - 1)
  }

  lemma AtLeastOne(n: nat, d: nat)
    requires n > 0
    ensures n * d >= d
  {
  }

  lemma Apart(a: nat, b: nat, k: nat, l: nat, d: nat)
    requires k < d && a < b
    ensures a * d + k != b * d + l
  {
    AtLeastOne(b - a, d);
    assert b * d == a * d + (b - a) * d;
  }

  /** Quotient and remainder are unique. */
  lemma SameQuotient(a: nat, k: nat, b: nat, l: nat, d: nat)
    requires k < d && l < d && a * d + k == b * d + l
    ensures a == b && k == l
  {
    if a < b { Apart(a, b, k, l, d); }
    if b < a { Apart(b, a, l, k, d); }
  }

  lemma Quotient(q: nat, r: nat, d: nat)
    requires r < d
    ensures (q * d + r) / d == q
  {
    var n := q * d + r;
    assert n == (n / d) * d + n % d;
    SameQuotient(n / d, n % d, q, r, d);
  }
}
