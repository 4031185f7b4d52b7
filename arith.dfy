/** Facts about integer division and real multiplication that the solver
    does not find on its own. */
module Arith {

  lemma {:induction false} DivBounds(n: int, d: int)
    requires 0 <= n && 0 < d
    ensures 0 <= n / d
    ensures d * (n / d) <= n < d * (n / d) + d
  {
  }

  lemma {:induction false} MulMonotone(d: int, a: int, b: int)
    requires 0 <= d
    ensures a <= b ==> d * a <= d * b
  {
    assert d * b - d * a == d * (b - a);
  }

  /** `q` is `n / d` as soon as it satisfies the defining inequalities. */
  lemma {:induction false} DivUnique(n: int, d: int, q: int)
    requires 0 <= n && 0 < d
    requires d * q <= n < d * q + d
    ensures n / d == q
  {
    DivBounds(n, d);
    var r := n / d;
    MulMonotone(d, r + 1, q);
    MulMonotone(d, q + 1, r);
    assert d * (r + 1) == d * r + d;
    assert d * (q + 1) == d * q + d;
  }

  lemma {:induction false} DivMonotone(a: int, b: int, d: int)
    requires 0 <= a <= b && 0 < d
    ensures a / d <= b / d
  {
    DivBounds(a, d);
    DivBounds(b, d);
    MulMonotone(d, b / d + 1, a / d);
    assert d * (b / d + 1) == d * (b / d) + d;
  }

  /** Dividing bounds `lo * m <= a < hi * m` by a positive `m`. */
  lemma {:induction false} RealDivBetween(a: real, m: real, lo: real, hi: real)
    requires 0.0 < m && lo * m <= a < hi * m
    ensures lo <= a / m < hi
  {
    assert (a / m) * m == a;
  }

  /** Dividing by a positive `m` keeps strict order. */
  lemma {:induction false} RealDivStrictMonotone(a: real, b: real, m: real)
    requires 0.0 < m && a < b
    ensures a / m < b / m
  {
    assert (b / m - a / m) * m == b - a;
  }
}
