/** Division with a variable divisor, in steps the solver can take. */
module Arithmetic {

  lemma Spread(m: nat, a: nat, b: nat)
    requires a < b
    ensures m * b == m * a + m * (b - a) && m * (b - a) >= m
  {
    var d := b - a;
    assert m * (a + d) == m * a + m * d;
    assert m * (1 + (d - 1)) == m + m * (d - 1);
  }

  lemma Associates(a: int, b: int, c: int)
    ensures a * b * c == a * (b * c)
    ensures a * b == b * a
  {
  }

  lemma DivUnique(x: nat, m: nat, q: nat, r: nat)
    requires r < m && x == m * q + r
    ensures x % m == r && x / m == q
  {
    var q2, r2 := x / m, x % m;
    assert x == m * q2 + r2;
    if q2 > q {
      assert m * q2 == m * q + m * (q2 - q) && m * (q2 - q) >= m by {
        Spread(m, q, q2);
      }
    } else if q2 < q {
      assert m * q == m * q2 + m * (q - q2) && m * (q - q2) >= m by {
        Spread(m, q2, q);
      }
    }
  }

  lemma ModAdd(x: nat, y: nat, m: nat)
    requires m > 0
    ensures (x % m + y) % m == (x + y) % m
  {
    var z := x % m + y;
    var q, r := z / m, z % m;
    assert x == m * (x / m) + x % m && z == m * q + r;
    assert m * (x / m) + m * q == m * (x / m + q);
    DivUnique(x + y, m, x / m + q, r);
  }

  /** One step of an accumulation in wrapping arithmetic. */
  lemma ModStep(x: nat, b: nat, d: nat, m: nat)
    requires m > 0
    ensures (x % m * b + d) % m == (x * b + d) % m
  {
    var q, r := x / m, x % m;
    assert x == m * q + r;
    var z := r * b + d;
    assert x * b + d == m * (q * b) + z by {
      Distributes(m, q, r, b);
    }
    assert z == m * (z / m) + z % m;
    assert m * (q * b) + m * (z / m) == m * (q * b + z / m);
    DivUnique(x * b + d, m, q * b + z / m, z % m);
  }

  lemma Distributes(m: nat, q: nat, r: nat, b: nat)
    ensures (m * q + r) * b == m * (q * b) + r * b
  {
  }

  lemma MulGrows(a: nat, b: nat, p: nat)
    requires a <= b
    ensures a * p <= b * p
  {
  }

  lemma TooSmall(x: nat, n: nat, r: nat)
    requires 0 < x < n
    ensures x != n * r
  {
    if r > 0 {
      assert n * r == n + n * (r - 1);
      assert n * (r - 1) >= 0;
    }
  }
}
