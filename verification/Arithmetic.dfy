// Quotients, remainders and products, where the solver needs a hand.
module Arithmetic {
  lemma MulStep(a: nat, q: int)
    ensures a * q == a * (q - 1) + a
  {
  }

  lemma DivStep(n: nat, b: nat)
    requires n >= b > 0
    ensures (n - b) / b == n / b - 1 && (n - b) % b == n % b
  {
    var q, r := n / b, n % b;
    MulStep(b, q);
    DivUnique(n - b, b, q - 1, r);
  }

  lemma DivSmall(n: nat, b: nat)
    requires n < b
    ensures n / b == 0 && n % b == n
  {
  }

  lemma DivUnique(n: nat, b: nat, q: int, r: nat)
    requires b > 0 && r < b && n == b * q + r
    ensures n / b == q && n % b == r
  {
    var d := n / b - q;
    assert b * d == r - n % b;
    if d >= 1 { MulAtLeast(b, d); } else if d <= -1 { MulAtLeast(b, -d); }
  }

  lemma MulAtLeast(b: nat, d: int)
    requires d >= 1
    ensures b * d >= b
  {
  }
}
