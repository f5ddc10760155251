/** Division and remainder facts that the solver does not find on its own. */
module Arith {
  lemma {:induction false} MulMono(n: nat, a: int, b: int)
    requires a <= b
    ensures n * a <= n * b
  {
    assert n * b - n * a == n * (b - a);
  }

  lemma {:induction false} DivModUnique(x: int, n: nat, q: int, r: int)
    requires 0 < n && x == n * q + r && 0 <= r < n
    ensures x / n == q && x % n == r
  {
    var a, b := x / n, x % n;
    assert x == n * a + b && 0 <= b < n;
    assert n * (a + 1) == n * a + n && n * (q + 1) == n * q + n;
    if a < q { MulMono(n, a + 1, q); }
    if q < a { MulMono(n, q + 1, a); }
  }

  lemma {:induction false} ModAddMultiple(k: int, n: nat, m: int)
    requires 0 < n
    ensures (k + n * m) % n == k % n && (k + n * m) / n == k / n + m
  {
    assert k == n * (k / n) + k % n;
    assert n * (k / n + m) == n * (k / n) + n * m;
    DivModUnique(k + n * m, n, k / n + m, k % n);
  }

  /** Counters less than `n` apart have different remainders. */
  lemma {:induction false} ModDistinct(i: int, j: int, n: nat)
    requires 0 < n && i < j < i + n
    ensures i % n != j % n
  {
    var a, b := i / n, j / n;
    assert i == n * a + i % n && j == n * b + j % n;
    assert n * b - n * a == n * (b - a);
    if b - a >= 1 { MulMono(n, 1, b - a); } else { MulMono(n, b - a, 0); }
  }

  lemma {:induction false} Associate(a: nat, b: nat, c: nat)
    ensures (a * b) * c == a * (b * c)
  {
  }
}
