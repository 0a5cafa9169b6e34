// Facts about integer multiplication and Euclidean division used by the
// brightness quantisation, the height formula and the buffer offsets.
module Arith {

  /** Multiplying a strict step x < y by a positive d opens a gap of at least d. */
  lemma MulStep(d: int, x: int, y: int)
    requires 0 < d && x < y
    ensures d * x + d <= d * y
  {
    var k := y - x;
    assert d * y == d * x + d * (k - 1) + d;
    assert d * (k - 1) >= 0;
  }

  /** Multiplication by a non-negative factor is monotone. */
  lemma MulMonotone(c: int, x: int, y: int)
    requires 0 <= c && x <= y
    ensures c * x <= c * y
  {
    assert c * y - c * x == c * (y - x);
    assert c * (y - x) >= 0;
  }

  /** The quotient is the unique q with a == d * q + m and 0 <= m < d. */
  lemma DivUnique(a: int, d: int, q: int, m: int)
    requires 0 < d && a == d * q + m && 0 <= m < d
    ensures a / d == q
  {
    var q', m' := a / d, a % d;
    assert a == d * q' + m';
    if q' < q {
      MulStep(d, q', q);
    } else if q' > q {
      MulStep(d, q, q');
    }
  }

  /** The quotient of a non-negative a is the floor of a / d. */
  lemma DivBounds(a: int, d: int)
    requires 0 <= a && 0 < d
    ensures 0 <= a / d
    ensures d * (a / d) <= a < d * (a / d + 1)
  {
    var q := a / d;
    assert a == d * q + a % d;
    assert d * (q + 1) == d * q + d;
    if q < 0 {
      MulMonotone(d, q + 1, 0);
    }
  }

  /** Integer division by a positive divisor is monotone in the dividend. */
  lemma DivMonotone(a: int, b: int, d: int)
    requires 0 <= a <= b && 0 < d
    ensures a / d <= b / d
  {
    var qa, qb := a / d, b / d;
    assert a == d * qa + a % d;
    assert b == d * qb + b % d;
    if qa > qb {
      MulStep(d, qb, qa);
    }
  }
}
