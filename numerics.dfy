/** Python's numeric conversions, stated over Dafny's exact reals.

    Python floats are modelled as `real` throughout this project. That is an
    idealisation: every product and quotient below is exact, where the source
    rounds to the nearest double after each operation. */
module Numerics {

  /** Python's `int(x)` on a float: truncation toward zero (not the floor). */
  function Trunc(x: real): (r: int)
    ensures x >= 0.0 ==> 0 <= r && r as real <= x < r as real + 1.0
    ensures x < 0.0 ==> r <= 0 && r as real - 1.0 < x <= r as real
  {
    if x >= 0.0 then x.Floor else -((-x).Floor)
  }

  /** Python's `math.ceil(x)`. */
  function Ceil(x: real): (r: int)
    ensures r as real - 1.0 < x <= r as real
  {
    -((-x).Floor)
  }

  /** Python's `x % 1.0` for a float `x`: the fractional part, always in [0, 1). */
  function FracPart(x: real): (r: real)
    ensures 0.0 <= r < 1.0
    ensures (x - r).Floor as real == x - r
  {
    var n := x.Floor;
    assert (n as real).Floor == n;
    x - n as real
  }

  /** Truncation leaves an integral value alone. */
  lemma TruncOfInt(n: int)
    ensures Trunc(n as real) == n
  {
  }

  /** Truncation agrees with the floor on non-negative values. */
  lemma TruncNonNeg(x: real)
    requires x >= 0.0
    ensures Trunc(x) == x.Floor
  {
  }

  /** For a non-negative numerator, truncating an exact integer quotient is
      Dafny's integer division. */
  lemma TruncQuotient(a: int, b: int)
    requires a >= 0 && b > 0
    ensures Trunc(a as real / b as real) == a / b
  {
    DivModAsReal(a, b);
    QuotientRange(a as real, (a / b) as real, (a % b) as real, b as real);
    TruncUnique(a as real / b as real, a / b);
  }

  /** The same, stated for any operands: a non-negative numerator over a
      positive divisor truncates to the integer quotient. */
  lemma TruncQuotientWhenNonNeg(a: int, b: int)
    ensures a >= 0 && b > 0 ==> Trunc(a as real / b as real) == a / b
  {
    if a >= 0 && b > 0 {
      TruncQuotient(a, b);
    }
  }

  /** An exact quotient lies at or below the integer `k` exactly when its
      numerator lies at or below `k` times the positive divisor. */
  lemma QuotientAtMost(p: int, d: int, k: int)
    requires d > 0
    ensures p as real / d as real <= k as real <==> p <= k * d
  {
    RealDivTimes(p as real, d as real);
    assert (k * d) as real == k as real * d as real;
    if p as real / d as real <= k as real {
      RealMulMonotone(p as real / d as real, k as real, d as real);
    }
    if p <= k * d {
      RealDivMonotone(p as real, k as real * d as real, d as real);
      RealMulDiv(k as real, d as real);
    }
  }

  /** Multiplying by a non-zero divisor and dividing by it again is the identity. */
  lemma RealMulDiv(x: real, d: real)
    requires d != 0.0
    ensures x * d / d == x
  {
  }

  /** A product of non-negative reals is non-negative. */
  lemma ProductNonNeg(x: real, y: real)
    ensures x >= 0.0 && y >= 0.0 ==> x * y >= 0.0
  {
    if x >= 0.0 && y >= 0.0 {
      RealMulMonotone(0.0, x, y);
    }
  }

  /** Euclidean division of non-negative integers, carried over to the reals. */
  lemma DivModAsReal(a: int, b: int)
    requires a >= 0 && b > 0
    ensures a as real == (a / b) as real * b as real + (a % b) as real
    ensures 0 <= a % b < b
  {
    var q, r := a / b, a % b;
    assert a == q * b + r;
    assert (q * b) as real == q as real * b as real;
  }

  /** The only integer `q` with `q <= x < q + 1` is the truncation of a
      non-negative `x`. */
  lemma TruncUnique(x: real, q: int)
    requires x >= 0.0 && q as real <= x < q as real + 1.0
    ensures Trunc(x) == q
  {
  }

  /** Dividing `x == q * b + r` by `b`, with `0 <= r < b`, lands in [q, q + 1). */
  lemma QuotientRange(x: real, q: real, r: real, b: real)
    requires x == q * b + r && 0.0 <= r < b
    ensures q <= x / b < q + 1.0
  {
    assert (q * b + r) / b == q + r / b;
    RealDivMonotone(0.0, r, b);
    RealDivStrict(r, b, b);
    assert b / b == 1.0;
  }

  /** Multiplying by a non-negative factor keeps the order. */
  lemma RealMulMonotone(x: real, y: real, m: real)
    requires x <= y && m >= 0.0
    ensures x * m <= y * m && m * x <= m * y
  {
    assert y * m - x * m == (y - x) * m;
  }

  /** Dividing by a positive divisor keeps the order. */
  lemma RealDivMonotone(p: real, q: real, d: real)
    requires p <= q && d > 0.0
    ensures p / d <= q / d
  {
    assert q / d - p / d == (q - p) / d;
  }

  /** Dividing by a positive divisor keeps a strict order. */
  lemma RealDivStrict(p: real, q: real, d: real)
    requires p < q && d > 0.0
    ensures p / d < q / d
  {
    assert q / d - p / d == (q - p) / d;
  }

  /** Dividing and multiplying back by a non-zero divisor is the identity. */
  lemma RealDivTimes(x: real, d: real)
    requires d != 0.0
    ensures x / d * d == x
  {
  }

  /** A quotient of a non-negative value by a larger one lies in [0, 1]. */
  lemma RealDivUnit(a: real, b: real)
    requires 0.0 <= a <= b && b > 0.0
    ensures 0.0 <= a / b <= 1.0
  {
    RealDivMonotone(a, b, b);
    RealDivMonotone(0.0, a, b);
    assert b / b == 1.0;
  }

  /** Scaling two ordered non-negative values by a factor of at least 1
      raises the smaller one and keeps their order. */
  lemma ScaleUp(x: real, y: real, factor: real)
    requires 0.0 <= x <= y && factor >= 1.0
    ensures x <= x * factor <= y * factor
  {
    RealMulMonotone(1.0, factor, x);
    RealMulMonotone(x, y, factor);
  }

  /** Truncating values at or above an integer keeps them at or above it,
      and keeps their order. */
  lemma TruncOrdered(n: int, p: real, q: real)
    requires n as real <= p <= q
    ensures n <= Trunc(p) <= Trunc(q)
  {
    TruncOfInt(n);
    TruncMonotone(n as real, p);
    TruncMonotone(p, q);
  }

  /** `int(a * factor)` for a factor of at least 1 is at least `a` and
      keeps the order of non-negative integers. */
  lemma TruncScaledOrdered(a: int, b: int, factor: real)
    requires 0 <= a <= b && factor >= 1.0
    ensures a <= Trunc(a as real * factor) <= Trunc(b as real * factor)
  {
    ScaleUp(a as real, b as real, factor);
    TruncOrdered(a, a as real * factor, b as real * factor);
  }

  /** Truncation is monotone. */
  lemma TruncMonotone(x: real, y: real)
    requires x <= y
    ensures Trunc(x) <= Trunc(y)
  {
  }
}
