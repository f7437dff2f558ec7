// The operations of ge.c as operations of the group: each method says which group element its result represents.
module GeGroup {
  import opened Ints
  import opened Arith
  import opened FeLimbs
  import opened Ge
  import opened Edwards
  import opened CurveClosure
  import Fe

  // p is the point g of the curve: X = x Z, Y = y Z, T = x y Z with Z not zero
  ghost predicate IsP3<G(!new)>(p: P3, c: Curve<G>, g: G)
    reads p.Repr()
  {
    && p.Ok()
    && var Z := Fe.Value(p.Z);
    NonZero(Z) && p.Is(c.x(g) * Z, c.y(g) * Z, Z, (c.x(g) * c.y(g)) * Z) && On(c, g)
  }

  ghost predicate IsP2<G(!new)>(p: P2, c: Curve<G>, g: G)
    reads p.Repr()
  {
    && p.Ok()
    && var Z := Fe.Value(p.Z);
    NonZero(Z) && p.Is(c.x(g) * Z, c.y(g) * Z, Z) && On(c, g)
  }

  // X = x Z, Y = y T
  ghost predicate IsP1P1<G(!new)>(p: P1P1, c: Curve<G>, g: G)
    reads p.Repr()
  {
    && p.Ok()
    && var Z, T := Fe.Value(p.Z), Fe.Value(p.T);
    NonZero(Z) && NonZero(T) && p.Is(c.x(g) * Z, c.y(g) * T, Z, T) && On(c, g)
  }

  ghost predicate IsCached<G(!new)>(p: Cached, c: Curve<G>, g: G)
    reads p.Repr()
  {
    && p.Ok()
    && var Z := Fe.Value(p.Z);
    NonZero(Z) && p.Is((c.y(g) + c.x(g)) * Z, (c.y(g) - c.x(g)) * Z, Z, (c.x(g) * c.y(g)) * Z * D2()) && On(c, g)
  }

  ghost predicate IsPrecomp<G(!new)>(p: Precomp, c: Curve<G>, g: G)
    reads p.Repr()
  {
    p.Is(c.y(g) + c.x(g), c.y(g) - c.x(g), (c.x(g) * c.y(g)) * D2())
  }

  lemma ElementCong(t: array<int32>, a: int, b: int, e: int)
    requires IsElement(t, a, e) && Cong(a, b)
    ensures IsElement(t, b, e)
  {
    hide Cong, Within, Weigh;
    CongTrans(Fe.Value(t), a, b);
  }

  // A field element is its own value; replacing the scale by that value keeps a scaled coordinate.
  lemma Rescale(t: array<int32>, x: int, z: int, v: int, e: int)
    requires IsElement(t, x * z, e) && Cong(v, z)
    ensures IsElement(t, x * v, e)
  {
    hide Cong, Within, Weigh, IsElement;
    CongSym(v, z);
    CongScale(x, z, v);
    ElementCong(t, x * z, x * v, e);
  }

  lemma OwnValue(t: array<int32>, a: int, e: int)
    requires IsElement(t, a, e)
    ensures IsElement(t, Fe.Value(t), e) && Cong(Fe.Value(t), a)
    ensures NonZero(a) ==> NonZero(Fe.Value(t))
  {
    hide Cong, Within, Weigh;
    CongRefl(Fe.Value(t));
    CongSym(Fe.Value(t), a);
    if NonZero(a) {
      NonZeroCong(a, Fe.Value(t));
    }
  }

  lemma CompletedPoint<G(!new)>(r: P1P1, c: Curve<G>, g: G, X: int, Y: int, Z: int, T: int)
    requires r.Is(X, Y, Z, T) && Completed(X, Y, Z, T, c.x(g), c.y(g)) && On(c, g)
    ensures IsP1P1(r, c, g)
  {
    hide Cong, IsElement, NonZero;
    OwnValue(r.Z, Z, E303);
    OwnValue(r.T, T, E303);
    ElementCong(r.X, X, c.x(g) * Z, E303);
    ElementCong(r.Y, Y, c.y(g) * T, E303);
    Rescale(r.X, c.x(g), Z, Fe.Value(r.Z), E303);
    Rescale(r.Y, c.y(g), T, Fe.Value(r.T), E303);
  }

  lemma TimesOne(z: int)
    ensures Prod(z, 1) == z
  {
  }

  // r = p + q
  method AddPoint<G(!new)>(r: P1P1, p: P3, q: Cached, ghost c: Curve<G>, ghost g: G, ghost h: G)
    requires Laws(c) && r.Ok() && r.Repr() !! p.Repr() && r.Repr() !! q.Repr()
    requires IsP3(p, c, g) && IsCached(q, c, h)
    modifies r.Repr()
    ensures IsP1P1(r, c, c.add(g, h))
  {
    hide Cong, IsElement, PrimeField, GroupLaws, AdditionLaw, On, OnCurve, Prod, D, D2, NonZero;
    ghost var x1, y1, Z1 := c.x(g), c.y(g), Fe.Value(p.Z);
    ghost var x2, y2, Z2 := c.x(h), c.y(h), Fe.Value(q.Z);
    ghost var k := c.add(g, h);
    SumOn(c, g, h);
    Add(r, p, q, x1 * Z1, y1 * Z1, Z1, (x1 * y1) * Z1, (y2 + x2) * Z2, (y2 - x2) * Z2, Z2, (x2 * y2) * Z2 * D2());
    AddFormula(x1, y1, Z1, x2, y2, Z2, c.x(k), c.y(k));
    ghost var a, b := Prod(y1 * Z1 + x1 * Z1, (y2 + x2) * Z2), Prod(y1 * Z1 - x1 * Z1, (y2 - x2) * Z2);
    ghost var t, e := Prod((x2 * y2) * Z2 * D2(), (x1 * y1) * Z1), Prod(Z1, Z2);
    CompletedPoint(r, c, k, a - b, a + b, 2 * e + t, 2 * e - t);
  }

  // r = p - q
  method SubPoint<G(!new)>(r: P1P1, p: P3, q: Cached, ghost c: Curve<G>, ghost g: G, ghost h: G)
    requires Laws(c) && r.Ok() && r.Repr() !! p.Repr() && r.Repr() !! q.Repr()
    requires IsP3(p, c, g) && IsCached(q, c, h)
    modifies r.Repr()
    ensures IsP1P1(r, c, c.add(g, c.neg(h)))
  {
    hide Cong, IsElement, PrimeField, GroupLaws, AdditionLaw, On, OnCurve, Prod, D, D2, NonZero;
    ghost var x1, y1, Z1 := c.x(g), c.y(g), Fe.Value(p.Z);
    ghost var x2, y2, Z2 := c.x(h), c.y(h), Fe.Value(q.Z);
    ghost var k := c.add(g, c.neg(h));
    NegOn(c, h);
    SumOn(c, g, c.neg(h));
    Sub(r, p, q, x1 * Z1, y1 * Z1, Z1, (x1 * y1) * Z1, (y2 + x2) * Z2, (y2 - x2) * Z2, Z2, (x2 * y2) * Z2 * D2());
    assert c.x(c.neg(h)) == -x2 && c.y(c.neg(h)) == y2;
    SubFormula(x1, y1, Z1, x2, y2, Z2, c.x(k), c.y(k));
    ghost var a, b := Prod(y1 * Z1 + x1 * Z1, (y2 - x2) * Z2), Prod(y1 * Z1 - x1 * Z1, (y2 + x2) * Z2);
    ghost var t, e := Prod((x2 * y2) * Z2 * D2(), (x1 * y1) * Z1), Prod(Z1, Z2);
    CompletedPoint(r, c, k, a - b, a + b, 2 * e - t, 2 * e + t);
  }

  // r = p + q for a precomputed q
  method MAddPoint<G(!new)>(r: P1P1, p: P3, q: Precomp, ghost c: Curve<G>, ghost g: G, ghost h: G)
    requires Laws(c) && r.Ok() && r.Repr() !! p.Repr() && r.Repr() !! q.Repr()
    requires IsP3(p, c, g) && IsPrecomp(q, c, h) && On(c, h)
    modifies r.Repr()
    ensures IsP1P1(r, c, c.add(g, h))
  {
    hide Cong, IsElement, PrimeField, GroupLaws, AdditionLaw, On, OnCurve, Prod, D, D2, NonZero;
    ghost var x1, y1, Z1 := c.x(g), c.y(g), Fe.Value(p.Z);
    ghost var x2, y2, Z2 := c.x(h), c.y(h), 1;
    ghost var k := c.add(g, h);
    SumOn(c, g, h);
    MAdd(r, p, q, x1 * Z1, y1 * Z1, Z1, (x1 * y1) * Z1, y2 + x2, y2 - x2, (x2 * y2) * D2());
    OneNonZero();
    assert Prod(Z1, 1) == Z1 by { TimesOne(Z1); }
    AddFormula(x1, y1, Z1, x2, y2, Z2, c.x(k), c.y(k));
    ghost var a, b := Prod(y1 * Z1 + x1 * Z1, (y2 + x2) * Z2), Prod(y1 * Z1 - x1 * Z1, (y2 - x2) * Z2);
    ghost var t, e := Prod((x2 * y2) * Z2 * D2(), (x1 * y1) * Z1), Prod(Z1, Z2);
    CompletedPoint(r, c, k, a - b, a + b, 2 * e + t, 2 * e - t);
  }

  // r = p - q for a precomputed q
  method MSubPoint<G(!new)>(r: P1P1, p: P3, q: Precomp, ghost c: Curve<G>, ghost g: G, ghost h: G)
    requires Laws(c) && r.Ok() && r.Repr() !! p.Repr() && r.Repr() !! q.Repr()
    requires IsP3(p, c, g) && IsPrecomp(q, c, h) && On(c, h)
    modifies r.Repr()
    ensures IsP1P1(r, c, c.add(g, c.neg(h)))
  {
    hide Cong, IsElement, PrimeField, GroupLaws, AdditionLaw, On, OnCurve, Prod, D, D2, NonZero;
    ghost var x1, y1, Z1 := c.x(g), c.y(g), Fe.Value(p.Z);
    ghost var x2, y2, Z2 := c.x(h), c.y(h), 1;
    ghost var k := c.add(g, c.neg(h));
    NegOn(c, h);
    SumOn(c, g, c.neg(h));
    MSub(r, p, q, x1 * Z1, y1 * Z1, Z1, (x1 * y1) * Z1, y2 + x2, y2 - x2, (x2 * y2) * D2());
    assert c.x(c.neg(h)) == -x2 && c.y(c.neg(h)) == y2;
    OneNonZero();
    assert Prod(Z1, 1) == Z1 by { TimesOne(Z1); }
    SubFormula(x1, y1, Z1, x2, y2, Z2, c.x(k), c.y(k));
    ghost var a, b := Prod(y1 * Z1 + x1 * Z1, (y2 - x2) * Z2), Prod(y1 * Z1 - x1 * Z1, (y2 + x2) * Z2);
    ghost var t, e := Prod((x2 * y2) * Z2 * D2(), (x1 * y1) * Z1), Prod(Z1, Z2);
    CompletedPoint(r, c, k, a - b, a + b, 2 * e - t, 2 * e + t);
  }

  // r = 2 * p
  method DoubleP2<G(!new)>(r: P1P1, p: P2, ghost c: Curve<G>, ghost g: G)
    requires Laws(c) && r.Ok() && r.Repr() !! p.Repr() && IsP2(p, c, g)
    modifies r.Repr()
    ensures IsP1P1(r, c, c.add(g, g))
  {
    hide Cong, IsElement, PrimeField, GroupLaws, AdditionLaw, OnCurve, Prod, D, D2, NonZero;
    ghost var x, y, Z := c.x(g), c.y(g), Fe.Value(p.Z);
    ghost var k := c.add(g, g);
    SumOn(c, g, g);
    P2Dbl(r, p, x * Z, y * Z, Z);
    DoubleFormula(x, y, Z, c.x(k), c.y(k));
    ghost var xx, yy, zz := Prod(x * Z, x * Z), Prod(y * Z, y * Z), Prod(Z, Z);
    CompletedPoint(r, c, k, Prod(x * Z + y * Z, x * Z + y * Z) - (yy + xx), yy + xx, yy - xx, 2 * zz - (yy - xx));
  }

  // r = 2 * p
  method DoubleP3<G(!new)>(r: P1P1, p: P3, ghost c: Curve<G>, ghost g: G)
    requires Laws(c) && r.Ok() && r.Repr() !! p.Repr() && IsP3(p, c, g)
    modifies r.Repr()
    ensures IsP1P1(r, c, c.add(g, g))
  {
    hide Cong, IsElement, PrimeField, GroupLaws, AdditionLaw, OnCurve, Prod, D, D2, NonZero;
    ghost var x, y, Z := c.x(g), c.y(g), Fe.Value(p.Z);
    ghost var k := c.add(g, g);
    SumOn(c, g, g);
    P3Dbl(r, p, x * Z, y * Z, Z, (x * y) * Z);
    DoubleFormula(x, y, Z, c.x(k), c.y(k));
    ghost var xx, yy, zz := Prod(x * Z, x * Z), Prod(y * Z, y * Z), Prod(Z, Z);
    CompletedPoint(r, c, k, Prod(x * Z + y * Z, x * Z + y * Z) - (yy + xx), yy + xx, yy - xx, 2 * zz - (yy - xx));
  }

  // the scaled coordinates after a conversion from completed coordinates
  lemma Converted(x: int, y: int, Z: int, T: int)
    requires PrimeField() && NonZero(Z) && NonZero(T)
    ensures Prod(x * Z, T) == x * Prod(Z, T) && Prod(y * T, Z) == y * Prod(Z, T)
    ensures Prod(x * Z, y * T) == (x * y) * Prod(Z, T)
    ensures NonZero(Prod(Z, T))
  {
    hide Cong;
    NonZeroTimes(Z, T);
    Factor(x, y, Z, T);
    assert (x * Z) * T == x * (Z * T) && (y * T) * Z == y * (Z * T);
  }

  // r = p
  method ToP2<G(!new)>(r: P2, p: P1P1, ghost c: Curve<G>, ghost g: G)
    requires Laws(c) && r.Ok() && r.Repr() !! p.Repr() && IsP1P1(p, c, g)
    modifies r.Repr()
    ensures IsP2(r, c, g)
  {
    hide Cong, IsElement, PrimeField, GroupLaws, AdditionLaw, On, OnCurve, Prod, D, D2, NonZero;
    ghost var x, y, Z, T := c.x(g), c.y(g), Fe.Value(p.Z), Fe.Value(p.T);
    P1P1ToP2(r, p, x * Z, y * T, Z, T);
    Converted(x, y, Z, T);
    OwnValue(r.Z, Prod(Z, T), E101);
    Rescale(r.X, x, Prod(Z, T), Fe.Value(r.Z), E101);
    Rescale(r.Y, y, Prod(Z, T), Fe.Value(r.Z), E101);
  }

  // r = p
  method ToP3<G(!new)>(r: P3, p: P1P1, ghost c: Curve<G>, ghost g: G)
    requires Laws(c) && r.Ok() && r.Repr() !! p.Repr() && IsP1P1(p, c, g)
    modifies r.Repr()
    ensures IsP3(r, c, g)
  {
    hide Cong, IsElement, PrimeField, GroupLaws, AdditionLaw, On, OnCurve, Prod, D, D2, NonZero;
    ghost var x, y, Z, T := c.x(g), c.y(g), Fe.Value(p.Z), Fe.Value(p.T);
    P1P1ToP3(r, p, x * Z, y * T, Z, T);
    Converted(x, y, Z, T);
    OwnValue(r.Z, Prod(Z, T), E101);
    Rescale(r.X, x, Prod(Z, T), Fe.Value(r.Z), E101);
    Rescale(r.Y, y, Prod(Z, T), Fe.Value(r.Z), E101);
    Rescale(r.T, x * y, Prod(Z, T), Fe.Value(r.Z), E101);
  }

  // r = p
  method ToCached<G(!new)>(r: Cached, p: P3, ghost c: Curve<G>, ghost g: G)
    requires r.Ok() && r.Repr() !! p.Repr() && IsP3(p, c, g)
    modifies r.Repr()
    ensures IsCached(r, c, g)
  {
    hide Cong, IsElement, PrimeField, GroupLaws, AdditionLaw, On, OnCurve, Prod, D, D2, NonZero;
    ghost var x, y, Z := c.x(g), c.y(g), Fe.Value(p.Z);
    P3ToCached(r, p, x * Z, y * Z, Z, (x * y) * Z);
    OwnValue(r.Z, Z, E165);
    CachedSides(x, y, Z);
    Rescale(r.YplusX, y + x, Z, Fe.Value(r.Z), E165);
    Rescale(r.YminusX, y - x, Z, Fe.Value(r.Z), E165);
    Rescale(r.T2d, (x * y) * D2(), Z, Fe.Value(r.Z), E165);
    CachedSide(x * y, Fe.Value(r.Z));
  }

  lemma CachedSides(x: int, y: int, Z: int)
    ensures y * Z + x * Z == (y + x) * Z && y * Z - x * Z == (y - x) * Z
    ensures Prod((x * y) * Z, D2()) == (x * y) * D2() * Z
  {
    hide D2;
    CachedSide(x * y, Z);
  }

  lemma CachedSide(p: int, Z: int)
    ensures p * Z * D2() == p * D2() * Z
  {
    hide D2;
  }

  // the neutral element
  method ZeroP2<G(!new)>(h: P2, ghost c: Curve<G>)
    requires CoordinateLaws(c) && h.Ok()
    modifies h.Repr()
    ensures IsP2(h, c, c.zero)
  {
    hide Cong, IsElement, PrimeField, GroupLaws, AdditionLaw, On, OnCurve, Prod, D, D2, NonZero;
    P2Zero(h);
    OwnValue(h.Z, 1, E101);
    OneNonZero();
    ZeroOn(c);
    Rescale(h.X, 0, 1, Fe.Value(h.Z), E101);
    Rescale(h.Y, 1, 1, Fe.Value(h.Z), E101);
  }

  method ZeroP3<G(!new)>(h: P3, ghost c: Curve<G>)
    requires CoordinateLaws(c) && h.Ok()
    modifies h.Repr()
    ensures IsP3(h, c, c.zero)
  {
    hide Cong, IsElement, PrimeField, GroupLaws, AdditionLaw, On, OnCurve, Prod, D, D2, NonZero;
    P3Zero(h);
    OwnValue(h.Z, 1, E101);
    OneNonZero();
    ZeroOn(c);
    Rescale(h.X, 0, 1, Fe.Value(h.Z), E101);
    Rescale(h.Y, 1, 1, Fe.Value(h.Z), E101);
    Rescale(h.T, 0, 1, Fe.Value(h.Z), E101);
  }
}
