// A sum of two points of the curve satisfies the curve equation: the addition law alone gives it.
// With u = x^2, v = y^2, s = v - u and w = d u v, a point is on the curve when s is 1 + w.
module CurveClosure {
  import opened Arith
  import opened FeLimbs
  import opened Ge
  import opened Edwards

  // ----- identities over the integers -----

  // (p + q)^2 for the two products of a numerator
  lemma NumeratorSquare(a: int, b: int, c: int, d: int)
    ensures (a * b + c * d) * (a * b + c * d) == (a * a) * (b * b) + (c * c) * (d * d) + 2 * ((a * c) * (b * d))
  {
    var p, q := a * b, c * d;
    assert (p + q) * (p + q) == p * p + q * q + 2 * (p * q);
    Factor(a, a, b, b);
    Factor(c, c, d, d);
    Factor(a, c, b, d);
  }

  // difference, sum and product of the squared numerators nn and kk
  lemma NumeratorSum(u1: int, v1: int, u2: int, v2: int, m: int)
    ensures var nn, kk := u1 * v2 + u2 * v1 + 2 * m, v1 * v2 + u1 * u2 + 2 * m;
            && kk - nn == (v1 - u1) * (v2 - u2)
            && kk + nn == (u1 + v1) * (u2 + v2) + 4 * m
  {
  }

  lemma FourTerms(u1: int, v1: int, u2: int, v2: int)
    ensures (u1 * v2 + u2 * v1) * (v1 * v2 + u1 * u2)
            == (u1 * v1) * (v2 * v2 + u2 * u2) + (u2 * v2) * (v1 * v1 + u1 * u1)
  {
    Factor(u1, v1, v2, v2);
    Factor(u1, u1, v2, u2);
    Factor(u2, v2, v1, v1);
    Factor(u2, u2, v1, u1);
    assert (u1 * v2) * (v1 * v2) == (u1 * v1) * (v2 * v2);
    assert (u1 * v2) * (u1 * u2) == (u2 * v2) * (u1 * u1);
    assert (u2 * v1) * (v1 * v2) == (u2 * v2) * (v1 * v1);
    assert (u2 * v1) * (u1 * u2) == (u1 * v1) * (u2 * u2);
  }

  lemma SquaredDifference(u: int, v: int)
    ensures v * v + u * u == (v - u) * (v - u) + 2 * (u * v)
  {
  }

  lemma NumeratorProduct(u1: int, v1: int, u2: int, v2: int, m: int)
    requires m * m == (u1 * v1) * (u2 * v2)
    ensures var s1, s2, t := v1 - u1, v2 - u2, (u1 + v1) * (u2 + v2);
            (u1 * v2 + u2 * v1 + 2 * m) * (v1 * v2 + u1 * u2 + 2 * m)
            == (u1 * v1) * (s2 * s2) + (u2 * v2) * (s1 * s1) + 2 * (m * t) + 8 * (m * m)
  {
    var a, b := u1 * v2 + u2 * v1, v1 * v2 + u1 * u2;
    var s1, s2, t, p, q := v1 - u1, v2 - u2, (u1 + v1) * (u2 + v2), u1 * v1, u2 * v2;
    assert a + b == t;
    FourTerms(u1, v1, u2, v2);
    SquaredDifference(u1, v1);
    SquaredDifference(u2, v2);
    Gather(a, b, m, t);
    Weighted(p, q, s1 * s1, s2 * s2);
  }

  lemma Gather(a: int, b: int, m: int, t: int)
    requires a + b == t
    ensures (a + 2 * m) * (b + 2 * m) == a * b + 2 * (m * t) + 4 * (m * m)
  {
  }

  lemma Weighted(p: int, q: int, s: int, t: int)
    ensures p * (t + 2 * q) + q * (s + 2 * p) == p * t + q * s + 4 * (p * q)
  {
  }

  // k^2 (1 + e)^2 - n^2 (1 - e)^2 - d n^2 k^2 over the curve's own terms
  ghost function Residue(s1: int, s2: int, w1: int, w2: int): int {
    (s1 * s2) * (1 + w1 * w2) - w1 * (s2 * s2) - w2 * (s1 * s1)
  }

  lemma CombineWeights(nn: int, kk: int, e: int)
    ensures kk * ((1 + e) * (1 + e)) - nn * ((1 - e) * (1 - e)) == (kk - nn) * (1 + e * e) + 2 * (e * (kk + nn))
  {
    var a, b := (1 + e) * (1 + e), (1 - e) * (1 - e);
    assert a == 1 + e * e + 2 * e && b == 1 + e * e - 2 * e;
    assert kk * a == kk * (1 + e * e) + 2 * (e * kk);
    assert nn * b == nn * (1 + e * e) - 2 * (e * nn);
  }

  // e = d m, and e^2 is the product of the two weights d u v
  lemma WeightProduct(d: int, m: int, p: int, q: int)
    requires m * m == p * q
    ensures (d * m) * (d * m) == (d * p) * (d * q)
  {
    Factor(d, d, m, m);
    Factor(d, d, p, q);
  }

  lemma Distribute(d: int, p: int, q: int, s: int, t: int, x: int, y: int)
    ensures d * (p * t + q * s + 2 * x + 8 * y) == (d * p) * t + (d * q) * s + 2 * (d * x) + 8 * (d * y)
  {
    assert d * (p * t) == (d * p) * t && d * (q * s) == (d * q) * s;
  }

  lemma ResidueIdentity(u1: int, v1: int, u2: int, v2: int, m: int, d: int)
    requires m * m == (u1 * v1) * (u2 * v2)
    ensures var nn, kk, e := u1 * v2 + u2 * v1 + 2 * m, v1 * v2 + u1 * u2 + 2 * m, d * m;
            kk * ((1 + e) * (1 + e)) - nn * ((1 - e) * (1 - e)) - d * (nn * kk)
            == Residue(v1 - u1, v2 - u2, d * (u1 * v1), d * (u2 * v2))
  {
    hide Residue;
    var nn, kk, e := u1 * v2 + u2 * v1 + 2 * m, v1 * v2 + u1 * u2 + 2 * m, d * m;
    var s1, s2, t, p, q := v1 - u1, v2 - u2, (u1 + v1) * (u2 + v2), u1 * v1, u2 * v2;
    NumeratorSum(u1, v1, u2, v2, m);
    NumeratorProduct(u1, v1, u2, v2, m);
    CombineWeights(nn, kk, e);
    WeightProduct(d, m, p, q);
    Distribute(d, p, q, s1 * s1, s2 * s2, m * t, m * m);
    assert e * (t + 4 * m) == d * (m * t) + 4 * (d * (m * m)) by { Spread(d, m, t); }
    Assemble(s1, s2, d * p, d * q, e * e);
  }

  lemma Spread(d: int, m: int, t: int)
    ensures (d * m) * (t + 4 * m) == d * (m * t) + 4 * (d * (m * m))
  {
  }

  lemma Assemble(s1: int, s2: int, w1: int, w2: int, ee: int)
    requires ee == w1 * w2
    ensures (s1 * s2) * (1 + ee) - (w1 * (s2 * s2) + w2 * (s1 * s1)) == Residue(s1, s2, w1, w2)
  {
  }

  // ----- modulo the prime -----

  // on the curve s is 1 + w, and the residue is (1 - w1 w2)^2
  lemma ResidueOnCurve(s1: int, s2: int, w1: int, w2: int)
    requires Cong(s1, 1 + w1) && Cong(s2, 1 + w2)
    ensures Cong(Residue(s1, s2, w1, w2), (1 - w1 * w2) * (1 - w1 * w2))
  {
    hide Cong;
    var r1, r2 := 1 + w1, 1 + w2;
    CongMul(s1, r1, s2, r2);
    CongScale(1 + w1 * w2, s1 * s2, r1 * r2);
    CongMul(s2, r2, s2, r2);
    CongScale(w1, s2 * s2, r2 * r2);
    CongMul(s1, r1, s1, r1);
    CongScale(w2, s1 * s1, r1 * r1);
    CongAdd((1 + w1 * w2) * (s1 * s2), (1 + w1 * w2) * (r1 * r2), w1 * (s2 * s2), w1 * (r2 * r2));
    CongAdd((1 + w1 * w2) * (s1 * s2) - w1 * (s2 * s2), (1 + w1 * w2) * (r1 * r2) - w1 * (r2 * r2),
            w2 * (s1 * s1), w2 * (r1 * r1));
    Exact(w1, w2);
  }

  lemma Exact(w1: int, w2: int)
    ensures Residue(1 + w1, 1 + w2, w1, w2) == (1 - w1 * w2) * (1 - w1 * w2)
  {
    ExactSides(w1, w2);
    ExactSum(w1, w2, w1 * w2);
  }

  lemma ExactSides(w1: int, w2: int)
    ensures (1 + w1) * (1 + w2) == 1 + w1 + w2 + w1 * w2
    ensures w1 * ((1 + w2) * (1 + w2)) == w1 + 2 * (w1 * w2) + (w1 * w2) * w2
    ensures w2 * ((1 + w1) * (1 + w1)) == w2 + 2 * (w1 * w2) + (w1 * w2) * w1
  {
    assert (1 + w2) * (1 + w2) == 1 + 2 * w2 + w2 * w2 && (1 + w1) * (1 + w1) == 1 + 2 * w1 + w1 * w1;
  }

  lemma ExactSum(w1: int, w2: int, e: int)
    ensures (1 + w1 + w2 + e) * (1 + e) - (w1 + 2 * e + e * w2) - (w2 + 2 * e + e * w1) == (1 - e) * (1 - e)
  {
  }

  lemma CancelScale(n: int, r: int)
    requires PrimeField() && NonZero(n) && Cong(n * r, 0)
    ensures Cong(r, 0)
  {
    hide Cong;
    assert Prod(n, r) == n * r;
  }

  lemma SquareSide(x: int, a: int, n: int)
    requires Cong(x * a, n)
    ensures Cong((x * x) * (a * a), n * n)
  {
    hide Cong;
    CongMul(x * a, n, x * a, n);
    Factor(x, x, a, a);
  }

  // the defect of the curve equation, scaled by the squared denominators a and b
  lemma ScaledDefect(X: int, Y: int, a: int, b: int, nn: int, kk: int, d: int)
    requires Cong(X * a, nn) && Cong(Y * b, kk)
    ensures Cong((a * b) * (Y - X - 1 - d * (X * Y)), kk * a - nn * b - d * (nn * kk) - a * b)
  {
    hide Cong;
    CongScale(a, Y * b, kk);
    CongScale(b, X * a, nn);
    CongMul(X * a, nn, Y * b, kk);
    CongScale(d, (X * a) * (Y * b), nn * kk);
    CongRefl(a * b);
    var s, t, r := a * (Y * b), b * (X * a), d * ((X * a) * (Y * b));
    CongAdd(s, a * kk, t, b * nn);
    CongAdd(s - t, a * kk - b * nn, r, d * (nn * kk));
    CongAdd(s - t - r, a * kk - b * nn - d * (nn * kk), a * b, a * b);
    Factor(X, Y, a, b);
    Expanded(X, Y, a, b, d);
  }

  lemma Expanded(X: int, Y: int, a: int, b: int, d: int)
    ensures (a * b) * (Y - X - 1 - d * (X * Y)) == a * (Y * b) - b * (X * a) - d * ((X * Y) * (a * b)) - a * b
  {
    var c := a * b;
    assert c * (Y - X - 1 - d * (X * Y)) == c * Y - c * X - c - c * (d * (X * Y));
    assert c * (d * (X * Y)) == d * ((X * Y) * c);
    assert a * (Y * b) == c * Y && b * (X * a) == c * X;
  }

  lemma DenominatorSquare(e: int)
    ensures ((1 + e) * (1 + e)) * ((1 - e) * (1 - e)) == (1 - e * e) * (1 - e * e)
  {
    Factor(1 + e, 1 + e, 1 - e, 1 - e);
    assert (1 + e) * (1 - e) == 1 - e * e;
  }

  // the curve equation on u = x^2 and v = y^2
  lemma OnCurveSquares(x: int, y: int)
    ensures OnCurve(x, y) <==> Cong(y * y - x * x, 1 + D() * ((x * x) * (y * y)))
  {
    hide Cong, D;
    Factor(x, y, x, y);
    Factor(x, x, y, y);
  }

  // the squared numerators of a sum, over the squares of its operands
  lemma Numerators(x1: int, y1: int, x2: int, y2: int)
    ensures var u1, v1, u2, v2, m := x1 * x1, y1 * y1, x2 * x2, y2 * y2, (x1 * y1) * (x2 * y2);
            && (x1 * y2 + x2 * y1) * (x1 * y2 + x2 * y1) == u1 * v2 + u2 * v1 + 2 * m
            && (y1 * y2 + x1 * x2) * (y1 * y2 + x1 * x2) == v1 * v2 + u1 * u2 + 2 * m
            && m * m == (u1 * v1) * (u2 * v2)
  {
    NumeratorSquare(x1, y2, x2, y1);
    NumeratorSquare(y1, y2, x1, x2);
    Factor(x1, x2, y1, y2);
    Factor(x1, x1, y1, y1);
    Factor(x2, x2, y2, y2);
    Factor(x1 * y1, x1 * y1, x2 * y2, x2 * y2);
    Swapped(x1, x2, y1, y2);
  }

  lemma Swapped(a: int, b: int, c: int, d: int)
    ensures (a * b) * (d * c) == (a * b) * (c * d) && (c * a) * (d * b) == (a * c) * (b * d)
  {
  }

  // The sum of two points of the curve lies on the curve.
  lemma OnCurveClosed(x1: int, y1: int, x2: int, y2: int, x3: int, y3: int)
    requires PrimeField() && OnCurve(x1, y1) && OnCurve(x2, y2) && AdditionLaw(x1, y1, x2, y2, x3, y3)
    ensures OnCurve(x3, y3)
  {
    hide Cong, PrimeField, OnCurve, NonZero, Residue, D;
    var u1, v1, u2, v2, m := x1 * x1, y1 * y1, x2 * x2, y2 * y2, (x1 * y1) * (x2 * y2);
    var n, k, e := x1 * y2 + x2 * y1, y1 * y2 + x1 * x2, D() * m;
    var a, b := (1 + e) * (1 + e), (1 - e) * (1 - e);
    OnCurveSquares(x1, y1);
    OnCurveSquares(x2, y2);
    OnCurveSquares(x3, y3);
    Numerators(x1, y1, x2, y2);
    ResidueIdentity(u1, v1, u2, v2, m, D());
    ResidueOnCurve(v1 - u1, v2 - u2, D() * (u1 * v1), D() * (u2 * v2));
    WeightProduct(D(), m, u1 * v1, u2 * v2);
    DenominatorSquare(e);
    SquareSide(x3, 1 + e, n);
    SquareSide(y3, 1 - e, k);
    ScaledDefect(x3 * x3, y3 * y3, a, b, n * n, k * k, D());
    Closing(x3 * x3, y3 * y3, a, b, 1 + e, 1 - e, Residue(v1 - u1, v2 - u2, D() * (u1 * v1), D() * (u2 * v2)), D());
  }

  // a scaled defect that is 0 is 0
  lemma Closing(X: int, Y: int, a: int, b: int, p: int, q: int, r: int, d: int)
    requires PrimeField() && NonZero(p) && NonZero(q) && a == p * p && b == q * q
    requires Cong(r, a * b) && Cong((a * b) * (Y - X - 1 - d * (X * Y)), r - a * b)
    ensures Cong(Y - X, 1 + d * (X * Y))
  {
    hide Cong, PrimeField, NonZero;
    var defect := Y - X - 1 - d * (X * Y);
    CongRefl(a * b);
    CongAdd(r, a * b, a * b, a * b);
    CongTrans((a * b) * defect, r - a * b, 0);
    NonZeroTimes(p, p);
    NonZeroTimes(q, q);
    NonZeroTimes(a, b);
    CancelScale(a * b, defect);
    CongRefl(1 + d * (X * Y));
    CongAdd(defect, 0, 1 + d * (X * Y), 1 + d * (X * Y));
  }

  // ----- the neutral element and inverses -----

  // The law has (0, 1) as its neutral element.
  lemma NeutralLaw(x: int, y: int)
    ensures AdditionLaw(x, y, 0, 1, x, y) && AdditionLaw(0, 1, x, y, x, y) && OnCurve(0, 1)
  {
    hide Cong, D;
    OneNonZero();
    CongRefl(x);
    CongRefl(y);
    CongRefl(1);
    Vanishing(x, y, D());
  }

  lemma Vanishing(x: int, y: int, d: int)
    ensures d * ((x * y) * (0 * 1)) == 0 && d * ((0 * 1) * (x * y)) == 0 && d * ((0 * 1) * (0 * 1)) == 0
  {
    assert (x * y) * (0 * 1) == 0 && (0 * 1) * (x * y) == 0;
  }

  // The inverse of a point of the curve has the negative x.
  lemma InverseLaw(x: int, y: int, e: int)
    requires OnCurve(x, y) && e == D() * ((x * y) * (x * y)) && NonZero(1 + e) && NonZero(1 - e)
    ensures AdditionLaw(x, y, -x, y, 0, 1)
  {
    hide Cong, D, NonZero;
    assert (-x) * y == -(x * y);
    NegatedSquare(x * y, D());
    CongRefl(0);
    assert x * y + (-x) * y == 0 && y * y + x * (-x) == y * y - x * x;
    CongSym(y * y - x * x, 1 + e);
  }

  lemma NegatedSquare(p: int, d: int)
    ensures d * (p * -p) == -(d * (p * p))
  {
    assert p * -p == -(p * p);
  }

  // ----- group elements -----

  // Sums, inverses and the neutral element are on the curve.
  lemma SumOn<G(!new)>(c: Curve<G>, g: G, h: G)
    requires Laws(c) && On(c, g) && On(c, h)
    ensures On(c, c.add(g, h))
  {
    hide OnCurve, AdditionLaw, PrimeField, GroupLaws;
    var k := c.add(g, h);
    assert AdditionLaw(c.x(g), c.y(g), c.x(h), c.y(h), c.x(k), c.y(k));
    OnCurveClosed(c.x(g), c.y(g), c.x(h), c.y(h), c.x(k), c.y(k));
  }

  lemma NegOn<G(!new)>(c: Curve<G>, g: G)
    requires CoordinateLaws(c) && On(c, g)
    ensures On(c, c.neg(g))
  {
    hide Cong, AdditionLaw, D;
    var x, y := c.x(g), c.y(g);
    assert c.x(c.neg(g)) == -x && c.y(c.neg(g)) == y;
    assert (-x) * (-x) == x * x;
    Opposite(x * y);
    assert (-x) * y == -(x * y);
  }

  lemma Opposite(p: int)
    ensures (-p) * (-p) == p * p
  {
  }

  lemma ZeroOn<G(!new)>(c: Curve<G>)
    requires CoordinateLaws(c)
    ensures On(c, c.zero)
  {
    hide Cong, AdditionLaw, D;
    CongRefl(1);
    assert c.x(c.zero) == 0 && c.y(c.zero) == 1;
  }
}
