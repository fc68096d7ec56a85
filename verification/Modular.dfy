/** Powers of two, and remainders by a variable divisor. */
module Modular {
  function Pow2(k: nat): (p: nat)
    ensures p > 0
  {
    if k == 0 then 1 else 2 * Pow2(k - 1)
  }

  lemma MulAtLeast(m: nat, k: nat)
    requires k >= 1
    ensures m * k >= m
  {
  }

  lemma ModUnique(a: nat, m: nat, q: nat, r: nat)
    requires r < m && a == m * q + r
    ensures a % m == r
  {
    var q', r' := a / m, a % m;
    assert m * q + r == m * q' + r';
    assert m * (q - q') == r' - r;
    if q > q' {
      MulAtLeast(m, q - q');
    } else if q < q' {
      MulAtLeast(m, q' - q);
    }
  }

  /** The remainder d steps further on, d at most a whole turn. */
  lemma ModAhead(i: nat, d: nat, m: nat)
    requires 0 < m && d <= m
    ensures (i + d) % m == if i % m + d < m then i % m + d else i % m + d - m
  {
    var q, r := i / m, i % m;
    if r + d < m {
      ModUnique(i + d, m, q, r + d);
    } else {
      assert m * (q + 1) == m * q + m;
      ModUnique(i + d, m, q + 1, r + d - m);
    }
  }

  lemma ModOfSum(x: nat, y: nat, m: nat)
    requires 0 < m
    ensures (x % m + y) % m == (x + y) % m
  {
    var q, r := (x % m + y) / m, (x % m + y) % m;
    assert x + y == m * (x / m) + m * q + r == m * (x / m + q) + r;
    ModUnique(x + y, m, x / m + q, r);
  }

  lemma DivUnique(x: nat, m: nat, q: nat, r: nat)
    requires r < m && x == m * q + r
    ensures x / m == q
  {
    ModUnique(x, m, q, r);
    assert m * (x / m) == m * q;
  }

  lemma DivMonotone(a: nat, b: nat, m: nat)
    requires m > 0 && a <= b
    ensures a / m <= b / m
  {
    var p, q := a / m, b / m;
    assert m * p <= a && b < m * q + m;
    if p > q {
      MulAtLeast(m, p - q);
    }
  }
}
