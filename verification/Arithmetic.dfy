/** Facts about quotients and remainders the solver does not see by itself. */
module Arithmetic {
  lemma Small(k: int, d: int)
    requires -d < k * d < d
    ensures k == 0
  {
  }

  lemma Remainder(n: int, q: int, d: nat, r: nat)
    requires r < d && n == q * d + r
    ensures n % d == r
  {
    var p, s := n / d, n % d;
    assert (p - q) * d == p * d - q * d;
    Small(p - q, d);
  }

  lemma NegativeRemainder(n: int, d: nat)
    requires 0 <= n + d && n < 0
    ensures n % d == n + d
  {
    Remainder(n, -1, d, n + d);
  }

  lemma Scaled(a: int, b: int, s: nat)
    requires a < b && s > 0
    ensures a * s < b * s
  {
  }

  lemma Exact(n: int, s: nat)
    requires s > 0
    ensures n * s / s == n
  {
    var q, r := n * s / s, n * s % s;
    assert (n - q) * s == n * s - q * s;
    Small(n - q, s);
  }

  lemma ModOfMod(n: int, big: nat, small: nat, k: nat)
    requires small > 0 && k > 0 && big == k * small && big > 0
    ensures n % big % small == n % small
  {
    var q, r := n / big, n % big;
    var a := r % small;
    assert n == q * big + r && q * big == q * k * small;
    assert r == r / small * small + a;
    assert n == (q * k + r / small) * small + a;
    Remainder(n, q * k + r / small, small, a);
  }

  lemma ScaledMod(m: nat, q: nat, s: nat)
    requires q > 0 && s > 0 && q * s > 0
    ensures m * s % (q * s) == m % q * s
  {
    var a, r := m / q, m % q;
    assert m == a * q + r;
    assert m * s == a * (q * s) + r * s;
    Scaled(r, q, s);
    Remainder(m * s, a, q * s, r * s);
  }

  lemma OneTurnLess(n: nat, d: nat)
    requires 0 < d <= n
    ensures (n - d) % d == n % d
  {
    var q, r := n / d, n % d;
    assert n - d == (q - 1) * d + r;
    Remainder(n - d, q - 1, d, r);
  }
}
