/** Small facts about multiplication and division that the solver does not
    find on its own. */
module Arith {

  lemma MulMono(a: int, b: int, c: nat)
    requires a <= b
    ensures a * c <= b * c
  {
    MulNonNegative(b - a, c);
  }

  lemma MulNonNegative(a: nat, b: nat)
    ensures a * b >= 0
  {
  }

  /** The quotient and remainder are the only ones. */
  lemma DivModUnique(n: int, d: nat, q: int, r: nat)
    requires r < d && n == q * d + r
    ensures n / d == q && n % d == r
  {
    var m, k := n % d, n / d;
    assert n == d * k + m;
    assert (k - q) * d == r - m;
    if k > q {
      MulMono(1, k - q, d);
    } else if k < q {
      MulMono(1, q - k, d);
    }
  }

  lemma ModShift(n: int, q: int, d: nat)
    requires d > 0
    ensures (n + q * d) % d == n % d
  {
    assert n == d * (n / d) + n % d;
    assert n + q * d == (n / d + q) * d + n % d;
    DivModUnique(n + q * d, d, n / d + q, n % d);
  }

  lemma ModSmall(n: nat, d: nat)
    requires n < d
    ensures n % d == n
  {
  }
}
