// Facts about remainders, for counters and masks of a fixed width.

module Remainders {
  lemma Remainder(n: nat, m: nat, q: nat, r: nat)
    requires r < m && n == m * q + r
    ensures n % m == r
  {
    Multiples(m, n / m, q);
    Multiples(m, q, n / m);
  }

  lemma Multiples(m: nat, x: nat, y: nat)
    ensures x < y ==> m * x + m <= m * y
  {
    if x < y {
      assert m * y == m * (x + 1) + m * (y - x - 1);
    }
  }

  // Counting on by one, with and without the wrap at `m`.
  lemma Wrap(n: nat, m: nat)
    requires 0 < m
    ensures (n + 1) % m == if n % m == m - 1 then 0 else n % m + 1
    ensures n % m == n <==> n < m
  {
    var q := n / m;
    assert n == m * q + n % m;
    if n % m == m - 1 {
      assert n + 1 == m * (q + 1) + 0;
      Remainder(n + 1, m, q + 1, 0);
    } else {
      Remainder(n + 1, m, q, n % m + 1);
    }
  }
}
