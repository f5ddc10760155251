/** The shift-and-subtract division of kernel/i686/builtins.c, in 64-bit arithmetic. */
module Div64 {
  import opened Bytes
  import opened Arith

  function Pow2(i: nat): (p: nat)
    ensures p > 0
  {
    if i == 0 then 1 else 2 * Pow2(i - 1)
  }

  lemma {:induction false} Pow64()
    ensures Pow2(64) == U64
  {
    assert Pow2(8) == 256;
    assert Pow2(16) == 256 * Pow2(8);
    assert Pow2(24) == 256 * Pow2(16);
    assert Pow2(32) == 256 * Pow2(24);
    assert Pow2(40) == 256 * Pow2(32);
    assert Pow2(48) == 256 * Pow2(40);
    assert Pow2(56) == 256 * Pow2(48);
    assert Pow2(64) == 256 * Pow2(56);
  }

  /** Bit i of n. */
  function Bit(n: nat, i: nat): (b: nat)
    ensures b < 2
  {
    n / Pow2(i) % 2
  }

  /** `r << 1`, which drops bit 63. */
  function ShiftLeft(r: nat): nat {
    2 * r % U64
  }

  /** `q | 1 << i`. */
  function SetBit(q: nat, i: nat): nat {
    if Bit(q, i) == 1 then q else q + Pow2(i)
  }

  /** The upper part of n, one bit longer. */
  lemma {:induction false} UpperGrows(n: nat, i: nat)
    ensures n / Pow2(i) == 2 * (n / Pow2(i + 1)) + Bit(n, i)
  {
    HalfAgain(n, Pow2(i));
  }

  lemma {:induction false} HalfAgain(n: nat, p: nat)
    requires p > 0
    ensures n / (2 * p) == n / p / 2
  {
    var a, r := n / p, n % p;
    var c, b := a / 2, a % 2;
    assert n == p * a + r;
    Spread(p, c);
    DivModUnique(n, 2 * p, c, if b == 0 then r else p + r);
  }

  lemma {:induction false} Spread(p: nat, c: nat)
    ensures p * (2 * c) == 2 * p * c && p * (2 * c + 1) == 2 * p * c + p
  {
  }

  lemma {:induction false} UpperHalf(n: nat, i: nat)
    requires n < U64 && 0 < i
    ensures n / Pow2(i) <= n / 2
  {
    if i > 1 {
      UpperHalf(n, i - 1);
      UpperGrows(n, i - 1);
    }
  }

  /** A multiple of 2^(i+1) has bit i clear, and setting it adds 2^i. */
  lemma {:induction false} SetClearBit(k: nat, i: nat)
    ensures SetBit(k * Pow2(i + 1), i) == k * Pow2(i + 1) + Pow2(i) == (2 * k + 1) * Pow2(i)
    ensures k * Pow2(i + 1) == 2 * k * Pow2(i)
  {
    var p := Pow2(i);
    assert k * (2 * p) == 2 * k * p;
    DivModUnique(2 * k * p, p, 2 * k, 0);
  }

  /** `udivmod64`: quotient and remainder for every 64-bit n and nonzero d; the doubled remainder always fits, so the
      shift never loses a bit. A zero divisor yields all ones and n. */
  method UDivMod64(n: nat, d: nat) returns (q: nat, r: nat)
    requires n < U64 && d < U64
    ensures q < U64 && r < U64
    ensures d == 0 ==> q == U64 - 1 && r == n
    ensures d > 0 ==> n == q * d + r && r < d
  {
    if d == 0 { return U64 - 1, n; }
    hide Pow2, Bit, ShiftLeft, SetBit;
    q, r := 0, 0;
    ghost var k: nat := 0;
    Pow64();
    var i := 64;
    while i > 0
      invariant 0 <= i <= 64 && r < d
      invariant q == k * Pow2(i) && n / Pow2(i) == k * d + r
    {
      i := i - 1;
      Step(n, d, i, k, r);
      r := ShiftLeft(r) + Bit(n, i);
      if r >= d {
        r := r - d;
        q := SetBit(q, i);
        k := 2 * k + 1;
      } else {
        k := 2 * k;
      }
    }
    Pow0();
    QuotientFits(n, q, d, r);
  }

  /** One bit: no bit is lost, and the upper part of n divides as before whether or not d is subtracted. */
  lemma {:induction false} Step(n: nat, d: nat, i: nat, k: nat, r: nat)
    requires n < U64 && r < d && n / Pow2(i + 1) == k * d + r
    ensures ShiftLeft(r) == 2 * r && 2 * r + Bit(n, i) < U64
    ensures n / Pow2(i) == 2 * k * d + (2 * r + Bit(n, i)) == (2 * k + 1) * d + (2 * r + Bit(n, i) - d)
    ensures SetBit(k * Pow2(i + 1), i) == (2 * k + 1) * Pow2(i) && k * Pow2(i + 1) == 2 * k * Pow2(i)
  {
    UpperGrows(n, i);
    UpperHalf(n, i + 1);
    SetClearBit(k, i);
    hide Pow2, Bit, SetBit;
    Bounded(k, d, r, n / Pow2(i + 1));
    Doubled(k, d, r, Bit(n, i));
  }

  lemma {:induction false} Pow0()
    ensures Pow2(0) == 1
  {
  }

  lemma {:induction false} Bounded(k: nat, d: nat, r: nat, m: nat)
    requires m == k * d + r
    ensures r <= m
  {
  }

  lemma {:induction false} Doubled(k: nat, d: nat, r: nat, b: nat)
    ensures 2 * (k * d + r) + b == 2 * k * d + (2 * r + b)
    ensures 2 * (k * d + r) + b == (2 * k + 1) * d + (2 * r + b - d)
  {
  }

  lemma {:induction false} QuotientFits(n: nat, q: nat, d: nat, r: nat)
    requires n == q * d + r && d > 0
    ensures q <= n && r <= n
  {
    MulMono(q, 1, d);
  }

  /** The result is determined: no other quotient and remainder satisfy the contract. */
  lemma {:induction false} DivisionUnique(n: nat, d: nat, q: nat, r: nat, q2: nat, r2: nat)
    requires n == q * d + r && r < d && n == q2 * d + r2 && r2 < d
    ensures q == q2 && r == r2
  {
    DivModUnique(n, d, q, r);
    DivModUnique(n, d, q2, r2);
  }
}
