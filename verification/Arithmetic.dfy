/** Division of natural numbers, as far as rates, scores and sizes need it. */
module Arithmetic {

  /** `v` is `a / b`, rounded down. */
  ghost predicate Floor(v: nat, a: nat, b: nat) {
    v * b <= a < v * b + b
  }

  lemma Cancels(x: int, y: int, d: nat)
    requires d > 0 && x * d < y * d
    ensures x < y
  {
  }

  lemma Division(a: nat, b: nat)
    requires b > 0
    ensures Floor(a / b, a, b)
  {
    assert a == a / b * b + a % b;
  }

  /** A quotient that has room below `limit`. */
  lemma FloorBelow(q: nat, a: nat, b: nat, limit: nat)
    requires b > 0 && Floor(q, a, b) && a < limit * b
    ensures q < limit
  {
    Cancels(q, limit, b);
  }

  lemma QuotientGrows(a: nat, b: nat, d: nat)
    requires d > 0 && a <= b
    ensures a / d <= b / d
  {
    var p, q := a / d, b / d;
    Division(a, d);
    Division(b, d);
    assert (q + 1) * d == q * d + d;
    Cancels(p, q + 1, d);
  }

  lemma WholeQuotient(n: nat, d: nat)
    requires d > 0
    ensures n * d / d == n
  {
    var q := n * d / d;
    Division(n * d, d);
    assert (q + 1) * d == q * d + d && (n + 1) * d == n * d + d;
    Cancels(n, q + 1, d);
    Cancels(q, n + 1, d);
  }
}
