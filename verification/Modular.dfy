/** Counters of 64 bits that wrap around, compared modulo 2^64. */
module Modular {
  import opened Basics

  ghost predicate Cong(a: int, b: int) { (a - b) % U64 == 0 }

  lemma CongAdd(a: int, b: int, c: int, d: int)
    requires Cong(a, b) && Cong(c, d)
    ensures Cong(a + c, b + d) && Cong(a - c, b - d)
  {
    var p, q := (a - b) / U64, (c - d) / U64;
    assert a - b == U64 * p && c - d == U64 * q;
    Multiple(p + q);
    Multiple(p - q);
    assert (a + c) - (b + d) == U64 * (p + q) && (a - c) - (b - d) == U64 * (p - q);
  }

  lemma Multiple(p: int)
    ensures (U64 * p) % U64 == 0
  {
  }

  /** What a counter of 64 bits holds after adding `d`. */
  function Wrapped(x: int, d: int): (r: int)
    ensures 0 <= r < U64 && Cong(r, x + d)
  {
    var r := (x + d) % U64;
    assert r - (x + d) == U64 * -((x + d) / U64);
    Multiple(-((x + d) / U64));
    r
  }

  lemma CongTrans(a: int, b: int, c: int)
    requires Cong(a, b) && Cong(b, c)
    ensures Cong(a, c)
  {
    CongAdd(a, b, b, c);
  }

  lemma CongSame(a: int)
    ensures Cong(a, a)
  {
  }

  lemma CongMod(n: int, a: int, b: int)
    requires 0 <= n < U64 && Cong(n, a) && Cong(a, b)
    ensures n == b % U64
  {
    CongTrans(n, a, b);
    var q := (n - b) / U64;
    assert n - b == U64 * q && b == U64 * -q + n;
  }
}
