// The twisted Edwards group of section 5.1 of RFC 8032 as an abstract group with affine coordinates.
// That the curve is a group, that its addition law is complete and that p is prime are hypotheses (Laws).
module Edwards {
  import opened Arith
  import opened FeLimbs
  import opened Ge

  // A group with an integer representative of each affine coordinate, chosen so that negation negates x.
  datatype Curve<!G(!new)> = Curve(zero: G, add: (G, G) -> G, neg: G -> G, x: G -> int, y: G -> int)

  ghost predicate NonZero(a: int) { !Cong(a, 0) }

  // x3 (1 + d x1 x2 y1 y2) = x1 y2 + x2 y1 and y3 (1 - d x1 x2 y1 y2) = y1 y2 + x1 x2, with non-zero denominators
  ghost predicate AdditionLaw(x1: int, y1: int, x2: int, y2: int, x3: int, y3: int) {
    var e := D() * ((x1 * y1) * (x2 * y2));
    && NonZero(1 + e) && NonZero(1 - e)
    && Cong(x3 * (1 + e), x1 * y2 + x2 * y1)
    && Cong(y3 * (1 - e), y1 * y2 + x1 * x2)
  }

  // -x^2 + y^2 = 1 + d x^2 y^2
  ghost predicate OnCurve(x: int, y: int) {
    Cong(y * y - x * x, 1 + D() * ((x * y) * (x * y)))
  }

  ghost predicate On<G(!new)>(c: Curve<G>, g: G) {
    OnCurve(c.x(g), c.y(g))
  }

  ghost predicate PrimeField() {
    forall a: int, b: int :: NonZero(a) && NonZero(b) ==> NonZero(Prod(a, b))
  }

  ghost predicate Associative<G(!new)>(c: Curve<G>) {
    forall g, h, k :: c.add(c.add(g, h), k) == c.add(g, c.add(h, k))
  }

  ghost predicate Commutative<G(!new)>(c: Curve<G>) {
    forall g, h :: c.add(g, h) == c.add(h, g)
  }

  ghost predicate Inverses<G(!new)>(c: Curve<G>) {
    forall g :: c.add(g, c.zero) == g && c.add(g, c.neg(g)) == c.zero
  }

  ghost predicate GroupLaws<G(!new)>(c: Curve<G>) {
    Associative(c) && Commutative(c) && Inverses(c)
  }

  ghost predicate CoordinateLaws<G(!new)>(c: Curve<G>) {
    && c.x(c.zero) == 0 && c.y(c.zero) == 1
    && (forall g :: c.x(c.neg(g)) == -c.x(g) && c.y(c.neg(g)) == c.y(g))
    && (forall g, h :: AdditionLaw(c.x(g), c.y(g), c.x(h), c.y(h), c.x(c.add(g, h)), c.y(c.add(g, h))))
  }

  ghost predicate Laws<G(!new)>(c: Curve<G>) {
    PrimeField() && GroupLaws(c) && CoordinateLaws(c)
  }

  // The limb constants d and 2d of ge.c: 121666 d = -121665, and the second is twice the first.
  lemma Constants()
    ensures Cong(121666 * D(), -121665)
    ensures Cong(D2(), 2 * D())
  {
    AllLimbs(D_LIMBS);
    AllLimbs(D2_LIMBS);
    CongWith(121666 * D(), -121665, (121666 * D() + 121665) / Q);
    CongWith(D2(), 2 * D(), (D2() - 2 * D()) / Q);
  }

  lemma CongRefl(a: int)
    ensures Cong(a, a)
  {
    CongWith(a, a, 0);
  }

  lemma CongScale(k: int, a: int, b: int)
    requires Cong(a, b)
    ensures Cong(k * a, k * b)
  {
    CongRefl(k);
    CongMul(k, k, a, b);
  }

  lemma NonZeroCong(a: int, b: int)
    requires NonZero(a) && Cong(a, b)
    ensures NonZero(b)
  {
    if Cong(b, 0) {
      CongTrans(a, b, 0);
    }
  }

  lemma NonZeroTimes(a: int, b: int)
    requires PrimeField() && NonZero(a) && NonZero(b)
    ensures NonZero(a * b)
  {
    assert Prod(a, b) == a * b;
    assert NonZero(Prod(a, b));
  }

  lemma OneNonZero()
    ensures NonZero(1)
  {
    hide Cong;
    if Cong(1, 0) {
      var k := Witness(1, 0);
    }
  }

  lemma TwoNonZero()
    ensures NonZero(2)
  {
    hide Cong;
    if Cong(2, 0) {
      var k := Witness(2, 0);
    }
  }

  // ----- the completed coordinates of a sum -----

  // z (x1 y2 + x2 y1) doubled is x3 times the completed denominator
  lemma SumX(n: int, x3: int, e: int, w: int, z: int)
    requires Cong(x3 * (1 + e), n) && Cong(w, 2 * e)
    ensures Cong(2 * n * z, x3 * (2 * z + w * z))
  {
    hide Cong;
    CongScale(x3 * z, w, 2 * e);
    CongRefl(x3 * (2 * z));
    CongAdd(x3 * (2 * z), x3 * (2 * z), x3 * z * w, x3 * z * (2 * e));
    assert x3 * (2 * z) + x3 * z * w == x3 * (2 * z + w * z);
    assert x3 * (2 * z) + x3 * z * (2 * e) == (2 * z) * (x3 * (1 + e));
    CongScale(2 * z, x3 * (1 + e), n);
    assert (2 * z) * n == 2 * n * z;
    CongTrans(x3 * (2 * z + w * z), (2 * z) * (x3 * (1 + e)), 2 * n * z);
    CongSym(x3 * (2 * z + w * z), 2 * n * z);
  }

  // the completed denominator does not vanish
  lemma Denominator(e: int, w: int, z: int)
    requires PrimeField() && NonZero(1 + e) && NonZero(z) && Cong(w, 2 * e)
    ensures NonZero(2 * z + w * z)
  {
    hide Cong, PrimeField;
    TwoNonZero();
    NonZeroTimes(2, z);
    NonZeroTimes(2 * z, 1 + e);
    CongScale(z, w, 2 * e);
    CongRefl(2 * z);
    CongAdd(2 * z, 2 * z, z * w, z * (2 * e));
    assert 2 * z + z * (2 * e) == (2 * z) * (1 + e) && z * w == w * z;
    CongSym(2 * z + w * z, (2 * z) * (1 + e));
    NonZeroCong((2 * z) * (1 + e), 2 * z + w * z);
  }

  // completed coordinates X, Y, Z, T of the affine point (x, y)
  ghost predicate Completed(X: int, Y: int, Z: int, T: int, x: int, y: int) {
    NonZero(Z) && NonZero(T) && Cong(X, x * Z) && Cong(Y, y * T)
  }

  // The formulas of ge_add and ge_madd on (x1, y1) scaled by Z1 and (x2, y2) scaled by Z2.
  lemma AddFormula(x1: int, y1: int, Z1: int, x2: int, y2: int, Z2: int, x3: int, y3: int)
    requires PrimeField() && AdditionLaw(x1, y1, x2, y2, x3, y3) && NonZero(Z1) && NonZero(Z2)
    ensures var a, b := Prod(y1 * Z1 + x1 * Z1, (y2 + x2) * Z2), Prod(y1 * Z1 - x1 * Z1, (y2 - x2) * Z2);
            var c, e := Prod((x2 * y2) * Z2 * D2(), (x1 * y1) * Z1), Prod(Z1, Z2);
            Completed(a - b, a + b, 2 * e + c, 2 * e - c, x3, y3)
  {
    hide AdditionLaw, Completed, PrimeField, D, D2, NonZero;
    var n, k, m := x1 * y2 + x2 * y1, y1 * y2 + x1 * x2, (x1 * y1) * (x2 * y2);
    NonZeroTimes(Z1, Z2);
    AddSides(x1, y1, x2, y2, x3, y3, Z1 * Z2);
    Expand(x1, y1, Z1, x2, y2, Z2, D2(), Z1 * Z2, n, k, m, D2() * m);
  }

  // The completed coordinates of a sum, from the addition law.
  lemma AddSides(x1: int, y1: int, x2: int, y2: int, x3: int, y3: int, z: int)
    requires PrimeField() && AdditionLaw(x1, y1, x2, y2, x3, y3) && NonZero(z)
    ensures var n, k, w := x1 * y2 + x2 * y1, y1 * y2 + x1 * x2, D2() * ((x1 * y1) * (x2 * y2));
            Completed(2 * n * z, 2 * k * z, 2 * z + w * z, 2 * z - w * z, x3, y3)
  {
    hide Cong, PrimeField, D, D2, NonZero;
    var m := (x1 * y1) * (x2 * y2);
    TwiceD(m);
    Side(D() * m, D2() * m, z, x1 * y2 + x2 * y1, x3);
    OtherSide(D() * m, D2() * m, z, y1 * y2 + x1 * x2, y3);
  }

  // 2d m is twice d m
  lemma TwiceD(m: int)
    ensures Cong(D2() * m, 2 * (D() * m))
  {
    hide Cong;
    assert Cong(D2(), 2 * D()) by { Constants(); }
    hide D, D2;
    CongScale(m, D2(), 2 * D());
    DoubleD(m, D2(), D());
  }

  // one completed coordinate
  lemma Side(e: int, w: int, z: int, n: int, x3: int)
    requires PrimeField() && Cong(w, 2 * e) && NonZero(z) && NonZero(1 + e) && Cong(x3 * (1 + e), n)
    ensures NonZero(2 * z + w * z) && Cong(2 * n * z, x3 * (2 * z + w * z))
  {
    hide Cong, PrimeField, NonZero;
    Denominator(e, w, z);
    SumX(n, x3, e, w, z);
  }

  // the other one
  lemma OtherSide(e: int, w: int, z: int, k: int, y3: int)
    requires PrimeField() && Cong(w, 2 * e) && NonZero(z) && NonZero(1 - e) && Cong(y3 * (1 - e), k)
    ensures NonZero(2 * z - w * z) && Cong(2 * k * z, y3 * (2 * z - w * z))
  {
    hide Cong, PrimeField, NonZero;
    CongScale(-1, w, 2 * e);
    Side(-e, -w, z, k, y3);
  }

  lemma DoubleD(m: int, a: int, b: int)
    ensures m * a == a * m && m * (2 * b) == 2 * (b * m)
  {
  }

  lemma Expand(x1: int, y1: int, Z1: int, x2: int, y2: int, Z2: int, d2: int, z: int, n: int, k: int, m: int, w: int)
    requires z == Z1 * Z2 && n == x1 * y2 + x2 * y1 && k == y1 * y2 + x1 * x2 && m == (x1 * y1) * (x2 * y2)
        && w == d2 * m
    ensures (y1 * Z1 + x1 * Z1) * ((y2 + x2) * Z2) - (y1 * Z1 - x1 * Z1) * ((y2 - x2) * Z2) == 2 * n * z
    ensures (y1 * Z1 + x1 * Z1) * ((y2 + x2) * Z2) + (y1 * Z1 - x1 * Z1) * ((y2 - x2) * Z2) == 2 * k * z
    ensures ((x2 * y2) * Z2 * d2) * ((x1 * y1) * Z1) == w * z
  {
    Factor(y1 + x1, y2 + x2, Z1, Z2);
    Factor(y1 - x1, y2 - x2, Z1, Z2);
    Cross(x1, y1, x2, y2);
    assert y1 * Z1 + x1 * Z1 == (y1 + x1) * Z1 && y1 * Z1 - x1 * Z1 == (y1 - x1) * Z1;
    Sides(k, n, z);
    Regroup4(x2 * y2, Z2, d2, x1 * y1, Z1);
  }

  lemma Factor(s: int, t: int, u: int, v: int)
    ensures (s * u) * (t * v) == (s * t) * (u * v)
  {
    assert (s * u) * (t * v) == s * (u * (t * v));
    assert u * (t * v) == t * (u * v);
    assert s * (t * (u * v)) == (s * t) * (u * v);
  }

  lemma Cross(x1: int, y1: int, x2: int, y2: int)
    ensures (y1 + x1) * (y2 + x2) == (y1 * y2 + x1 * x2) + (x1 * y2 + x2 * y1)
    ensures (y1 - x1) * (y2 - x2) == (y1 * y2 + x1 * x2) - (x1 * y2 + x2 * y1)
  {
  }

  lemma Sides(k: int, n: int, z: int)
    ensures (k + n) * z - (k - n) * z == 2 * n * z && (k + n) * z + (k - n) * z == 2 * k * z
  {
  }

  lemma Regroup4(p: int, u: int, d: int, q: int, v: int)
    ensures (p * u * d) * (q * v) == (d * (q * p)) * (v * u)
  {
    Factor(p * u, q, d, v);
    Factor(p, q, u, v);
    var a, b := p * q, u * v;
    assert (p * u * d) * (q * v) == (p * u) * q * (d * v);
    assert (p * u) * q == a * u;
    assert (a * u) * (d * v) == (d * a) * (u * v) by { Factor(a, d, u, v); }
  }

  // The formulas of ge_p2_dbl on (x, y) scaled by Z.
  lemma DoubleFormula(x: int, y: int, Z: int, x3: int, y3: int)
    requires PrimeField() && OnCurve(x, y) && AdditionLaw(x, y, x, y, x3, y3) && NonZero(Z)
    ensures var xx, yy, zz := Prod(x * Z, x * Z), Prod(y * Z, y * Z), Prod(Z, Z);
            Completed(Prod(x * Z + y * Z, x * Z + y * Z) - (yy + xx), yy + xx, yy - xx, 2 * zz - (yy - xx), x3, y3)
  {
    hide Cong, PrimeField, D, Prod;
    var z, e, d := Prod(Z, Z), D() * ((x * y) * (x * y)), y * y - x * x;
    assert NonZero(z) by { SquareNonZero(Z); }
    DoubleExpand(x, y, Z);
    CongScale(z, d, 1 + e);
    CongRefl(2 * z);
    CongAdd(2 * z, 2 * z, z * d, z * (1 + e));
    Complement(z, d, e);
    DoubleSide(x3, 1 + e, x * y + y * x, z, d * z);
    DoubleSide(y3, 1 - e, y * y + x * x, z, 2 * z - d * z);
  }

  lemma Complement(z: int, d: int, e: int)
    ensures 2 * z - z * (1 + e) == z * (1 - e) && 2 * z - z * d == 2 * z - d * z && z * d == d * z
  {
  }

  lemma SquareNonZero(Z: int)
    requires PrimeField() && NonZero(Z)
    ensures NonZero(Prod(Z, Z))
  {
  }

  lemma DoubleExpand(x: int, y: int, Z: int)
    ensures var xx, yy, zz := Prod(x * Z, x * Z), Prod(y * Z, y * Z), Prod(Z, Z);
            && Prod(x * Z + y * Z, x * Z + y * Z) - (yy + xx) == (x * y + y * x) * zz
            && yy + xx == (y * y + x * x) * zz
            && yy - xx == (y * y - x * x) * zz
  {
    Factor(x, x, Z, Z);
    Factor(y, y, Z, Z);
    Factor(x + y, x + y, Z, Z);
    assert x * Z + y * Z == (x + y) * Z;
    DoubleSides(x, y, Z * Z);
  }

  lemma DoubleSides(x: int, y: int, z: int)
    ensures (x + y) * (x + y) * z - (y * y * z + x * x * z) == (x * y + y * x) * z
    ensures y * y * z + x * x * z == (y * y + x * x) * z
    ensures y * y * z - x * x * z == (y * y - x * x) * z
  {
  }

  lemma DoubleSide(x3: int, a: int, n: int, z: int, w: int)
    requires PrimeField() && NonZero(a) && NonZero(z) && Cong(x3 * a, n) && Cong(w, z * a)
    ensures NonZero(w) && Cong(n * z, x3 * w)
  {
    hide Cong, PrimeField;
    NonZeroTimes(z, a);
    CongSym(w, z * a);
    NonZeroCong(z * a, w);
    CongScale(x3, w, z * a);
    CongScale(z, x3 * a, n);
    assert x3 * (z * a) == z * (x3 * a) && z * n == n * z;
    CongTrans(x3 * w, z * (x3 * a), n * z);
    CongSym(x3 * w, n * z);
  }

  // The formulas of ge_sub and ge_msub are those of an addition of (-x2, y2).
  lemma SubFormula(x1: int, y1: int, Z1: int, x2: int, y2: int, Z2: int, x3: int, y3: int)
    requires PrimeField() && AdditionLaw(x1, y1, -x2, y2, x3, y3) && NonZero(Z1) && NonZero(Z2)
    ensures var a, b := Prod(y1 * Z1 + x1 * Z1, (y2 - x2) * Z2), Prod(y1 * Z1 - x1 * Z1, (y2 + x2) * Z2);
            var c, e := Prod((x2 * y2) * Z2 * D2(), (x1 * y1) * Z1), Prod(Z1, Z2);
            Completed(a - b, a + b, 2 * e - c, 2 * e + c, x3, y3)
  {
    hide Cong, PrimeField, D, D2;
    AddFormula(x1, y1, Z1, -x2, y2, Z2, x3, y3);
    NegProduct(x2, y2, Z2, D2(), (x1 * y1) * Z1);
  }

  lemma NegProduct(x: int, y: int, Z: int, d: int, t: int)
    ensures ((-x) * y) * Z * d * t == -((x * y) * Z * d * t)
  {
    var p := x * y;
    assert (-x) * y == -p;
    assert (-p) * Z == -(p * Z);
    var q := p * Z;
    assert (-q) * d == -(q * d);
    var r := q * d;
    assert (-r) * t == -(r * t);
  }
}
