// Picking one of a power of two of shards by masking a hash (src/store.rs).

module Masks {
  import opened Remainders
  import opened Types

  function PowerOfTwo(k: nat): (p: nat)
    ensures 0 < p
  {
    if k == 0 then 1 else 2 * PowerOfTwo(k - 1)
  }

  // The exponent, from `k` on, of the least power of two that is at least `n`.
  function RoundUp(n: nat, k: nat): (j: nat)
    requires k == 0 || PowerOfTwo(k - 1) < n
    ensures n <= PowerOfTwo(j) && (j == 0 || PowerOfTwo(j - 1) < n)
    decreases n - PowerOfTwo(k)
  {
    if n <= PowerOfTwo(k) then k else RoundUp(n, k + 1)
  }

  // `count` is 2^j, and the power of two below it is too small.
  ghost predicate IsRoundedUp(wanted: nat, j: nat, count: nat) {
    count == PowerOfTwo(j) && wanted <= count && (j == 0 || PowerOfTwo(j - 1) < Max(wanted, 1))
  }

  // The bitwise conjunction of two words.
  function BitAnd(a: nat, b: nat): nat {
    if a == 0 then 0 else (a % 2) * (b % 2) + 2 * BitAnd(a / 2, b / 2)
  }

  // Masking with a power of two less one is the remainder by that power.
  lemma {:induction false} MaskIsRemainder(hash: nat, k: nat)
    ensures BitAnd(hash, PowerOfTwo(k) - 1) == hash % PowerOfTwo(k)
    decreases k
  {
    if k == 0 {
      AndZero(hash);
    } else {
      var p := PowerOfTwo(k - 1);
      MaskIsRemainder(hash / 2, k - 1);
      HalfRemainder(hash, p);
      AndOddMask(hash, p);
    }
  }

  lemma AndOddMask(a: nat, p: nat)
    requires 0 < p
    ensures BitAnd(a, 2 * p - 1) == a % 2 + 2 * BitAnd(a / 2, p - 1)
  {
    assert (2 * p - 1) % 2 == 1 && (2 * p - 1) / 2 == p - 1;
  }

  lemma {:induction false} AndZero(a: nat)
    ensures BitAnd(a, 0) == 0
  {
    if a != 0 {
      AndZero(a / 2);
    }
  }

  lemma HalfRemainder(a: nat, p: nat)
    requires 0 < p
    ensures a % 2 + 2 * (a / 2 % p) == a % (2 * p)
  {
    var q, r := a / 2 / p, a / 2 % p;
    assert a == (2 * p) * q + (a % 2 + 2 * r) by {
      assert a / 2 == p * q + r;
      assert a == 2 * (a / 2) + a % 2;
    }
    Remainder(a, 2 * p, q, a % 2 + 2 * r);
  }
}
