/** Small facts about real multiplication and division, each stated over
    named variables so that the solver sees one nonlinear step at a time. */
module Reals {

  lemma MulPos(a: real, b: real)
    requires a > 0.0 && b > 0.0
    ensures a * b > 0.0
  {
  }

  lemma MulNonPos(a: real, b: real)
    requires a <= 0.0 && b > 0.0
    ensures a * b <= 0.0
  {
  }

  lemma MulNonNeg(a: real, b: real)
    requires a >= 0.0 && b >= 0.0
    ensures a * b >= 0.0
  {
  }

  lemma MulNegPos(a: real, b: real)
    requires a < 0.0 && b > 0.0
    ensures a * b < 0.0
  {
  }

  lemma SquareNonNegative(a: real)
    ensures a * a >= 0.0
  {
    if a < 0.0 { assert a * a == (-a) * (-a); }
  }

  lemma SquarePositive(a: real)
    requires a != 0.0
    ensures a * a > 0.0
  {
    if a < 0.0 { assert a * a == (-a) * (-a); }
  }

  lemma SumSquaresPositive(a: real, b: real, c: real)
    requires a != 0.0 || b != 0.0 || c != 0.0
    ensures a * a + b * b + c * c > 0.0
  {
    SquareNonNegative(a);
    SquareNonNegative(b);
    SquareNonNegative(c);
    if a != 0.0 { SquarePositive(a); }
    else if b != 0.0 { SquarePositive(b); }
    else { SquarePositive(c); }
  }

  lemma DivCancel(p: real, d: real)
    requires d != 0.0
    ensures (p / d) * d == p
  {
  }

  lemma DivComparePos(p: real, s: real, d: real)
    requires d > 0.0
    ensures (p / d < s <==> p < s * d) && (s < p / d <==> s * d < p)
  {
    var x := p / d;
    assert x * d == p;
    assert s * d - p == (s - x) * d;
    if x < s { MulPos(s - x, d); } else { MulNonPos(s - x, d); }
    if s < x { MulPos(x - s, d); } else { MulNonPos(x - s, d); }
  }

  lemma SumSquaresNonNegative(a: real, b: real, c: real)
    ensures a * a + b * b + c * c >= 0.0
  {
    SquareNonNegative(a);
    SquareNonNegative(b);
    SquareNonNegative(c);
  }

  /** Comparing a quotient with a product, for either sign of the divisor. */
  lemma DivCompare(p: real, s: real, d: real)
    requires d != 0.0
    ensures d > 0.0 ==> (p / d < s <==> p < s * d) && (s < p / d <==> s * d < p)
    ensures d < 0.0 ==> (p / d < s <==> s * d < p) && (s < p / d <==> p < s * d)
  {
    if d > 0.0 {
      DivComparePos(p, s, d);
    } else {
      var q, e := -p, -d;
      assert q / e == p / d by { assert (q / e) * d == p; }
      assert s * e == -(s * d);
      DivComparePos(q, s, e);
    }
  }

  lemma DivMonotone(p: real, q: real, d: real)
    requires d > 0.0 && p <= q
    ensures p / d <= q / d
  {
    var x, y := p / d, q / d;
    assert x * d == p && y * d == q;
    assert (y - x) * d == q - p;
    if y < x { MulNegPos(y - x, d); }
  }

  /** A square, named `s`, is non-negative. */
  lemma SquareIsNonNegative(s: real, k: real)
    requires s == k * k
    ensures s >= 0.0
  {
  }

  /** The square `s` of a non-zero number is not zero. */
  lemma SquareIsNonZero(s: real, k: real)
    requires k != 0.0 && s == k * k
    ensures s != 0.0
  {
    if s == 0.0 { ZeroProduct(k, k, s); }
  }

  /** If `a * q == a` for a positive `a`, then `q` is one. */
  lemma CancelPositive(a: real, q: real, s: real)
    requires a > 0.0 && s == a * q && s == a
    ensures q == 1.0
  {
    if q > 1.0 { MulPos(a, q - 1.0); }
    else if q < 1.0 { MulNegPos(q - 1.0, a); }
  }

  /** A product with a non-zero factor vanishes only through the other factor. */
  lemma ZeroProduct(a: real, q: real, m: real)
    requires a != 0.0 && m == a * q && m == 0.0
    ensures q == 0.0
  {
    assert q == m / a;
  }

  /** If |x| < r (as squares) with r >= 0, then x lies strictly between -r and r. */
  lemma SquareBound(x: real, r: real, xx: real, rr: real)
    requires r >= 0.0 && xx == x * x && rr == r * r && xx < rr
    ensures -r < x < r
  {
    if x >= r { assert xx - rr == (x - r) * (x + r); MulNonNeg(x - r, x + r); }
    if x <= -r { assert xx - rr == (-x - r) * (r - x); MulNonNeg(r - x, -r - x); }
  }

  /** A coordinate over a length whose square bounds the coordinate's square is at most 1. */
  lemma QuotientAtMostOne(p: real, l: real, s: real, pp: real)
    requires l > 0.0 && s == l * l && pp == p * p && pp <= s
    ensures p / l <= 1.0
  {
    var q := p / l;
    DivCancel(p, l);
    if q > 1.0 {
      MulPos(q - 1.0, l);
      assert p > l;
      assert pp - s == (p - l) * (p + l);
      MulPos(p - l, p + l);
    }
  }

  /** ... and, applied to the negated coordinate, at least -1. */
  lemma QuotientWithinOne(p: real, l: real, s: real, pp: real)
    requires l > 0.0 && s == l * l && pp == p * p && pp <= s
    ensures -1.0 <= p / l <= 1.0
  {
    QuotientAtMostOne(p, l, s, pp);
    assert pp == (-p) * (-p);
    QuotientAtMostOne(-p, l, s, pp);
    assert (-p) / l == -(p / l);
  }

  // ---------------------------------------------------------------------
  // The quadratic a t^2 + 2 b t + c with a > 0 and discriminant sq^2 > 0

  function Quadratic(a: real, b: real, c: real, t: real): real {
    a * t * t + 2.0 * b * t + c
  }

  lemma ScaledQuadratic(a: real, b: real, c: real, t: real)
    ensures a * Quadratic(a, b, c, t) == (a * t + b) * (a * t + b) - (b * b - a * c)
  {
  }

  /** The two roots `(-b -/+ sq) / a`, given through `t1 * a` and `t2 * a`. */
  predicate RootsOf(a: real, b: real, c: real, sq: real, t1: real, t2: real) {
    a > 0.0 && sq > 0.0 && sq * sq == b * b - a * c && t1 * a == -b - sq && t2 * a == -b + sq
  }

  lemma QuadraticRoots(a: real, b: real, c: real, sq: real, t1: real, t2: real)
    requires RootsOf(a, b, c, sq, t1, t2)
    ensures t1 < t2
    ensures Quadratic(a, b, c, t1) == 0.0 && Quadratic(a, b, c, t2) == 0.0
  {
    assert (t2 - t1) * a == 2.0 * sq;
    if t2 <= t1 { MulNonPos(t2 - t1, a); }
    var q1, q2 := Quadratic(a, b, c, t1), Quadratic(a, b, c, t2);
    ScaledQuadratic(a, b, c, t1);
    ScaledQuadratic(a, b, c, t2);
    assert a * t1 + b == -sq && a * t2 + b == sq;
    ZeroProduct(a, q1, a * q1);
    ZeroProduct(a, q2, a * q2);
  }

  lemma QuadraticOnlyRoots(a: real, b: real, c: real, sq: real, t1: real, t2: real, t: real)
    requires RootsOf(a, b, c, sq, t1, t2)
    requires Quadratic(a, b, c, t) == 0.0
    ensures t == t1 || t == t2
  {
    var u := a * t + b;
    ScaledQuadratic(a, b, c, t);
    assert (u - sq) * (u + sq) == 0.0;
    if u + sq != 0.0 {
      ZeroProduct(u + sq, u - sq, (u - sq) * (u + sq));
      assert (t - t2) * a == 0.0;
      ZeroProduct(a, t - t2, (t - t2) * a);
    } else {
      assert (t - t1) * a == 0.0;
      ZeroProduct(a, t - t1, (t - t1) * a);
    }
  }

  lemma QuadraticNegativeBetween(a: real, b: real, c: real, sq: real, t1: real, t2: real, s: real)
    requires RootsOf(a, b, c, sq, t1, t2)
    requires t1 < s < t2
    ensures Quadratic(a, b, c, s) < 0.0
  {
    var u := a * s + b;
    assert u + sq == (s - t1) * a;
    assert sq - u == (t2 - s) * a;
    MulPos(s - t1, a);
    MulPos(t2 - s, a);
    MulPos(u + sq, sq - u);
    ScaledQuadratic(a, b, c, s);
    assert a * Quadratic(a, b, c, s) == -((u + sq) * (sq - u));
    var q := Quadratic(a, b, c, s);
    if q >= 0.0 { MulNonNeg(a, q); }
  }

  /** Without real roots the quadratic (with a >= 0) keeps a positive sign. */
  lemma QuadraticNoRoots(a: real, b: real, c: real, t: real)
    requires a >= 0.0 && b * b - a * c < 0.0
    ensures a > 0.0 && Quadratic(a, b, c, t) > 0.0
  {
    SquareNonNegative(b);
    var u := a * t + b;
    SquareNonNegative(u);
    ScaledQuadratic(a, b, c, t);
    var q := Quadratic(a, b, c, t);
    if q <= 0.0 { MulNonPos(q, a); }
  }

  lemma MulMonotone(p: real, q: real, k: real)
    requires p <= q
    ensures k >= 0.0 ==> p * k <= q * k
    ensures k <= 0.0 ==> q * k <= p * k
  {
    assert q * k - p * k == (q - p) * k;
    if k >= 0.0 { MulNonNeg(q - p, k); } else { MulNonNeg(q - p, -k); }
  }

  /** Dividing by a negative number reverses the order. */
  lemma DivAntitone(p: real, q: real, d: real)
    requires d < 0.0 && p <= q
    ensures q / d <= p / d
  {
    DivMonotone(-q, -p, -d);
    assert (-q) / (-d) == q / d by { assert ((-q) / (-d)) * d == q; }
    assert (-p) / (-d) == p / d by { assert ((-p) / (-d)) * d == p; }
  }

  /** How far `x` has gone from `s0` towards `s1`. */
  function Fraction(s0: real, s1: real, x: real): real
    requires s0 != s1
  {
    (x - s0) / (s1 - s0)
  }

  /** The fraction at `x` lies between the fractions at `x0` and `x1`
      whenever `x` lies between `x0` and `x1`. */
  lemma FractionBetween(s0: real, s1: real, x0: real, x1: real, x: real)
    requires s0 != s1 && x0 <= x <= x1
    ensures Within(Fraction(s0, s1, x0), Fraction(s0, s1, x1), Fraction(s0, s1, x))
  {
    var d := s1 - s0;
    if d > 0.0 {
      DivMonotone(x0 - s0, x - s0, d);
      DivMonotone(x - s0, x1 - s0, d);
    } else {
      DivAntitone(x0 - s0, x - s0, d);
      DivAntitone(x - s0, x1 - s0, d);
    }
  }

  /** `m` lies between `a` and `b`, whichever way round they are. */
  predicate Within(a: real, b: real, m: real) {
    (a <= m <= b) || (b <= m <= a)
  }

  /** Linear interpolation from `p0` to `p1`. */
  function LerpScalar(p0: real, p1: real, m: real): real {
    p0 + m * (p1 - p0)
  }

  /** Linear interpolation keeps betweenness. */
  lemma LerpBetween(p0: real, p1: real, m0: real, m1: real, m: real)
    requires Within(m0, m1, m)
    ensures Within(LerpScalar(p0, p1, m0), LerpScalar(p0, p1, m1), LerpScalar(p0, p1, m))
  {
    var k := p1 - p0;
    if m0 <= m <= m1 {
      MulMonotone(m0, m, k);
      MulMonotone(m, m1, k);
    } else {
      MulMonotone(m1, m, k);
      MulMonotone(m, m0, k);
    }
    assert m0 * k == k * m0 && m1 * k == k * m1 && m * k == k * m;
  }

}
