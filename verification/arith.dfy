/**
 * Powers of two and the division facts the bit-level reasoning needs: the
 * quotient and remainder are unique, dividing twice is dividing by the
 * product, and adding a multiple of the divisor moves the quotient only.
 */
module Arith {
  function Pow2(k: nat): (p: nat)
    ensures p >= 1
  {
    if k == 0 then 1 else 2 * Pow2(k - 1)
  }

  lemma {:induction false} Pow2Add(a: nat, b: nat)
    ensures Pow2(a + b) == Pow2(a) * Pow2(b)
    decreases a
  {
    if a > 0 {
      Pow2Add(a - 1, b);
      assert Pow2(a + b) == 2 * Pow2(a - 1 + b);
    }
  }

  lemma MulGrows(a: int, d: int)
    requires a >= 1 && d > 0
    ensures a * d >= d
  {
  }

  /** A quotient and remainder that fit are the ones `/` and `%` give. */
  lemma DivModUnique(n: int, d: int, q: int, r: int)
    requires 0 < d && 0 <= r < d && n == q * d + r
    ensures n / d == q && n % d == r
  {
    var q0, r0 := n / d, n % d;
    assert n == q0 * d + r0;
    if q > q0 {
      MulGrows(q - q0, d);
    } else if q < q0 {
      MulGrows(q0 - q, d);
    }
  }

  /** Adding `m` times the divisor adds `m` to the quotient and leaves the remainder. */
  lemma DivPlusMultiple(x: int, m: int, d: int)
    requires d > 0
    ensures (x + m * d) / d == x / d + m
    ensures (x + m * d) % d == x % d
  {
    DivModUnique(x + m * d, d, x / d + m, x % d);
  }

  /** Dividing by `a` and then by `b` is dividing by `a * b`. */
  lemma DivDiv(x: int, a: int, b: int)
    requires a > 0 && b > 0
    ensures x / a / b == x / (a * b)
  {
    var xa, t := x / a, x % a;
    var q, m := xa / b, xa % b;
    assert x == xa * a + t;
    assert xa == q * b + m;
    assert xa * a == q * (a * b) + m * a by {
      assert (q * b + m) * a == q * b * a + m * a;
      assert q * b * a == q * (a * b);
    }
    MulLe(m, b - 1, a);
    MulNonneg(m, a);
    assert (b - 1) * a == a * b - a;
    DivModUnique(x, a * b, q, m * a + t);
  }

  /** Adding a multiple of `a * b * r` leaves the digit `(x / a) % b` alone. */
  lemma DigitOfMultiple(x: int, c: int, a: int, b: int, r: int)
    requires a > 0 && b > 0 && r > 0
    ensures ((x + c * (a * (b * r))) / a) % b == (x / a) % b
  {
    assert c * (a * (b * r)) == (c * r * b) * a;
    DivPlusMultiple(x, c * r * b, a);
    DivPlusMultiple(x / a, c * r, b);
  }

  /** `2^n` split at bits `k` and `k + m`. */
  lemma Pow2Split(k: nat, m: nat, n: nat)
    requires k + m <= n
    ensures Pow2(n) == Pow2(k) * (Pow2(m) * Pow2(n - k - m))
  {
    Pow2Add(m, n - k - m);
    Pow2Add(k, n - k);
  }

  lemma MulNonneg(a: int, b: int)
    requires a >= 0 && b >= 0
    ensures a * b >= 0
  {
  }

  lemma MulLe(a: int, b: int, c: int)
    requires a <= b && c >= 0
    ensures a * c <= b * c
  {
    MulNonneg(b - a, c);
    assert b * c - a * c == (b - a) * c;
  }
}
