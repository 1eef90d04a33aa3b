/** Multiples and remainders. */
module Arithmetic {
  lemma Multiples(a: int, b: int, d: nat)
    ensures a < b ==> a * d + d <= b * d
  {
    if a < b {
      var more := b - a - 1;
      assert b * d == (a + 1 + more) * d == a * d + d + more * d;
    }
  }

  /** Quotient and remainder are unique. */
  lemma DivisionIsUnique(n: nat, d: nat, q: nat, r: nat)
    requires d > 0 && n == q * d + r && r < d
    ensures n / d == q && n % d == r
  {
    var k := n / d;
    assert n == k * d + n % d;
    Multiples(k, q, d);
    Multiples(q, k, d);
  }
}
