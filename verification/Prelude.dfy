/** Small shared vocabulary: optional values and the facts about division that the byte counters need. */
module Prelude {

  datatype Option<+T> = None | Some(value: T)

  /** No multiple of d lies strictly between -d and d except zero. */
  lemma MultipleBetween(d: int, k: int)
    requires 0 < d
    ensures (k <= -1 ==> d * k <= -d) && (k == 0 ==> d * k == 0) && (k >= 1 ==> d * k >= d)
  {
  }

  /** The quotient and remainder of a division are the only pair that fits. */
  lemma DivModUnique(x: int, d: int, quotient: int, remainder: int)
    requires 0 < d && 0 <= remainder < d
    requires x == quotient * d + remainder
    ensures x / d == quotient && x % d == remainder
  {
    var dq := x / d - quotient;
    assert x == d * (x / d) + x % d;
    assert d * dq == remainder - x % d;
    MultipleBetween(d, dq);
  }

  /** Two positions less than one lap apart lie in different cells of a ring of d cells. */
  lemma LapDistinct(a: int, b: int, d: int)
    requires 0 < d && a < b < a + d
    ensures a % d != b % d
  {
    var k := b / d - a / d;
    assert b - a == d * k + (b % d - a % d);
    MultipleBetween(d, k);
  }

  /** Scaling both sides of a division scales the remainder and keeps the quotient. */
  lemma ScaledDivMod(q: int, a: int, d: int)
    requires 0 < q && 0 < d
    ensures 0 < q * d
    ensures (q * a) % (q * d) == q * (a % d)
    ensures (q * a) % q == 0 && (q * a) / q == a
  {
    var k, r := a / d, a % d;
    assert a == d * k + r;
    assert q * a == k * (q * d) + q * r by {
      assert q * (d * k + r) == q * (d * k) + q * r;
      assert q * (d * k) == k * (q * d);
    }
    assert q * r < q * d;
    DivModUnique(q * a, q * d, k, q * r);
    DivModUnique(q * a, q, a, 0);
  }

  /** Reducing first by a multiple of d does not change the remainder by d. */
  lemma ModOfMod(x: int, m: int, d: int)
    requires 0 < d && 0 < m && m % d == 0
    ensures (x % m) % d == x % d
  {
    var a, b, k := x / m, m / d, (x % m) / d;
    assert m == d * b;
    assert x == m * a + x % m;
    assert x % m == d * k + (x % m) % d;
    assert x == (b * a + k) * d + (x % m) % d by {
      assert m * a == (b * a) * d;
    }
    DivModUnique(x, d, b * a + k, (x % m) % d);
  }

  /** Moving by a distance shorter than the rest of the lap does not wrap; otherwise it wraps once. */
  lemma ModOfSum(p: int, i: int, d: int)
    requires 0 < d && 0 <= i < d
    ensures (p + i) % d == if p % d + i < d then p % d + i else p % d + i - d
  {
    var k := p / d;
    assert p == d * k + p % d;
    if p % d + i < d {
      DivModUnique(p + i, d, k, p % d + i);
    } else {
      DivModUnique(p + i, d, k + 1, p % d + i - d);
    }
  }
}
