/** `itertools.cycle(range(1, n + 1))`: after `i` calls of `next` it has handed
    out `i % n + 1`, and the next call moves one step and wraps from `n` to 1. */
module Cycles {

  lemma MulAtLeast(n: nat, d: nat)
    requires d >= 1
    ensures n * d >= n
  {
    assert n * d == n + n * (d - 1);
  }

  /** Euclidean division has one quotient and one remainder. */
  lemma ModUnique(x: nat, n: nat, q: nat, r: nat)
    requires n > 0 && r < n && x == n * q + r
    ensures x % n == r
  {
    var q0, r0 := x / n, x % n;
    assert x == n * q0 + r0;
    if q > q0 {
      assert n * q == n * q0 + n * (q - q0);
      MulAtLeast(n, q - q0);
    } else if q < q0 {
      assert n * q0 == n * q + n * (q0 - q);
      MulAtLeast(n, q0 - q);
    }
  }

  /** One more `next` on a cycle of length `n`: the position advances by one and
      wraps to the start after the last element. */
  lemma CycleStep(i: nat, n: nat)
    requires n > 0
    ensures (i + 1) % n == if i % n + 1 == n then 0 else i % n + 1
  {
    var q, r := i / n, i % n;
    assert i == n * q + r;
    if r + 1 == n {
      ModUnique(i + 1, n, q + 1, 0);
    } else {
      ModUnique(i + 1, n, q, r + 1);
    }
  }
}
