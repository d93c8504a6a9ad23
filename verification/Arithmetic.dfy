/** Machine words and the few facts of modular arithmetic the ring proofs share. */
module Arithmetic {

  const TWO32: int := 0x1_0000_0000
  const TWO63: int := 0x8000_0000_0000_0000
  const TWO64: int := 0x1_0000_0000_0000_0000

  type UInt64 = x: int | 0 <= x < TWO64

  /** Unsigned 64-bit arithmetic: every result is taken modulo 2^64. */
  function Wrap64(x: int): UInt64 {
    x % TWO64
  }

  lemma MulMonotone(m: int, a: int, b: int)
    requires 0 <= m && a <= b
    ensures m * a <= m * b
  {
    MulNonNegative(m, b - a);
    assert m * b == m * a + m * (b - a);
  }

  lemma MulNonNegative(a: int, b: int)
    requires 0 <= a && 0 <= b
    ensures 0 <= a * b
  {
  }

  lemma QuotientIsUnique(q1: int, r1: int, q2: int, r2: int, m: int)
    requires 0 <= r1 < m && 0 <= r2 < m
    requires m * q1 + r1 == m * q2 + r2
    ensures q1 == q2 && r1 == r2
  {
    assert m * (q1 + 1) == m * q1 + m;
    assert m * (q2 + 1) == m * q2 + m;
    if q1 < q2 {
      MulMonotone(m, q1 + 1, q2);
    } else if q2 < q1 {
      MulMonotone(m, q2 + 1, q1);
    }
  }

  /** Division with remainder is determined by any quotient whose remainder is in range. */
  lemma DivModUnique(x: int, m: int, q: int, r: int)
    requires 0 <= r < m
    requires x == m * q + r
    ensures x % m == r && x / m == q
  {
    assert x == m * (x / m) + x % m;
    QuotientIsUnique(x / m, x % m, q, r, m);
  }

  lemma ModPlusMultiple(a: int, k: int, m: int)
    requires 0 < m
    ensures (a + m * k) % m == a % m
  {
    assert m * (a / m + k) == m * (a / m) + m * k;
    DivModUnique(a + m * k, m, a / m + k, a % m);
  }

  /** Congruence, with the quotient as the witness of divisibility. */
  lemma ModEqual(a: int, b: int, m: int)
    requires 0 < m
    ensures a % m == b % m <==> (a - b) % m == 0
  {
    if a % m == b % m {
      var k := a / m - b / m;
      assert m * k == m * (a / m) - m * (b / m);
      DivModUnique(a - b, m, k, 0);
    }
    if (a - b) % m == 0 {
      var k := (a - b) / m;
      assert a == b + m * k;
      ModPlusMultiple(b, k, m);
    }
  }

  /** Cell p of a ring of m cells is the i-th cell from `at` exactly when p = (at + i) mod m. */
  lemma CellOffset(p: int, at: int, i: int, m: int)
    requires 0 <= p < m && 0 <= i < m
    ensures (p - at) % m == i <==> p == (at + i) % m
  {
    DivModUnique(p, m, 0, p);
    DivModUnique(i, m, 0, i);
    ModEqual(p - at, i, m);
    ModEqual(p, at + i, m);
    assert p - at - i == p - (at + i);
  }

  /** Reducing modulo a multiple first does not change the residue. */
  lemma ModOfWrap(x: int, m: int)
    requires 0 < m && TWO64 % m == 0
    ensures Wrap64(x) % m == x % m
  {
    var q := TWO64 / m;
    assert x == Wrap64(x) + TWO64 * (x / TWO64);
    assert TWO64 * (x / TWO64) == m * (q * (x / TWO64)) by {
      assert TWO64 == m * q;
      MulAssoc(m, q, x / TWO64);
    }
    ModPlusMultiple(Wrap64(x), q * (x / TWO64), m);
  }

  lemma MulAssoc(a: int, b: int, c: int)
    ensures (a * b) * c == a * (b * c)
  {
  }
}
