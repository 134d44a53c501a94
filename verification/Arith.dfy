/** Division facts, kept apart from the proofs that use them. */
module Arith {
  lemma ModAdd(a: int, b: int, m: nat)
    requires m > 0
    ensures (a + b) % m == (a % m + b) % m
  {
    var q := a / m;
    assert a == q * m + a % m;
    ModShift(a % m + b, q, m);
  }

  lemma ModShift(x: int, q: int, m: nat)
    requires m > 0
    ensures (x + q * m) % m == x % m
  {
    var d := x / m;
    assert x == d * m + x % m;
    assert x + q * m == (d + q) * m + x % m;
    ModUnique(x + q * m, d + q, x % m, m);
  }

  lemma ModUnique(x: int, q: int, r: int, m: nat)
    requires m > 0 && x == q * m + r && 0 <= r < m
    ensures x % m == r && x / m == q
  {
    var q' := x / m;
    assert x == q' * m + x % m;
    assert (q' - q) * m == q' * m - q * m;
    SmallMultiple(q' - q, m);
  }

  lemma SmallMultiple(d: int, m: int)
    requires -m < d * m < m
    ensures d == 0
  {
    assert (d - 1) * m == d * m - m && (-d - 1) * m == -(d * m) - m;
    assert d >= 1 ==> (d - 1) * m >= 0;
    assert d <= -1 ==> (-d - 1) * m >= 0;
  }

  lemma MultipleLe(a: int, b: int, n: int)
    requires a <= b && n > 0
    ensures a * n <= b * n
  {
    assert (b - a) * n >= 0;
    assert b * n == a * n + (b - a) * n;
  }
}
