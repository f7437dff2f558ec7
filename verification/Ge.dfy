// Points of the twisted Edwards curve in the representations of ge.h, as groups of field elements in memory.
module Ge {
  import opened Ints
  import opened Arith
  import opened FeLimbs
  import opened FeMultiply
  import Fe

  // the bound of completed coordinates: a doubled product plus a product, still an operand of fe_mul
  const E303 := 101669928

  // t is the field element a, with limbs bounded by e
  ghost predicate IsElement(t: array<int32>, a: int, e: int)
    reads t
  {
    t.Length == 10 && Within(Limbs(t), e) && Cong(Fe.Value(t), a)
  }

  // projective: x = X/Z, y = Y/Z
  class P2 {
    const X: array<int32>
    const Y: array<int32>
    const Z: array<int32>

    constructor ()
      ensures Ok() && fresh(Repr())
    {
      X := new int32[10];
      Y := new int32[10];
      Z := new int32[10];
    }

    ghost predicate Ok() {
      && X.Length == 10 && Y.Length == 10 && Z.Length == 10
      && X != Y && X != Z && Y != Z
    }

    ghost function Repr(): set<object> {
      {X, Y, Z}
    }

    // The coordinates are these field elements, with limbs bounded by E101.
    ghost predicate Is(a: int, b: int, c: int)
      reads Repr()
    {
      && Ok()
      && IsElement(X, a, E101)
      && IsElement(Y, b, E101)
      && IsElement(Z, c, E101)
    }
  }

  // extended: x = X/Z, y = Y/Z, XY = ZT
  class P3 {
    const X: array<int32>
    const Y: array<int32>
    const Z: array<int32>
    const T: array<int32>

    constructor ()
      ensures Ok() && fresh(Repr())
    {
      X := new int32[10];
      Y := new int32[10];
      Z := new int32[10];
      T := new int32[10];
    }

    ghost predicate Ok() {
      && X.Length == 10 && Y.Length == 10 && Z.Length == 10 && T.Length == 10
      && X != Y && X != Z && X != T && Y != Z && Y != T && Z != T
    }

    ghost function Repr(): set<object> {
      {X, Y, Z, T}
    }

    // The coordinates are these field elements, with limbs bounded by E101.
    ghost predicate Is(a: int, b: int, c: int, d: int)
      reads Repr()
    {
      && Ok()
      && IsElement(X, a, E101)
      && IsElement(Y, b, E101)
      && IsElement(Z, c, E101)
      && IsElement(T, d, E101)
    }
  }

  // completed: x = X/Z, y = Y/T
  class P1P1 {
    const X: array<int32>
    const Y: array<int32>
    const Z: array<int32>
    const T: array<int32>

    constructor ()
      ensures Ok() && fresh(Repr())
    {
      X := new int32[10];
      Y := new int32[10];
      Z := new int32[10];
      T := new int32[10];
    }

    ghost predicate Ok() {
      && X.Length == 10 && Y.Length == 10 && Z.Length == 10 && T.Length == 10
      && X != Y && X != Z && X != T && Y != Z && Y != T && Z != T
    }

    ghost function Repr(): set<object> {
      {X, Y, Z, T}
    }

    // The coordinates are these field elements, with limbs bounded by E303.
    ghost predicate Is(a: int, b: int, c: int, d: int)
      reads Repr()
    {
      && Ok()
      && IsElement(X, a, E303)
      && IsElement(Y, b, E303)
      && IsElement(Z, c, E303)
      && IsElement(T, d, E303)
    }
  }

  // Duif: (y + x, y - x, 2dxy)
  class Precomp {
    const yplusx: array<int32>
    const yminusx: array<int32>
    const xy2d: array<int32>

    constructor ()
      ensures Ok() && fresh(Repr())
    {
      yplusx := new int32[10];
      yminusx := new int32[10];
      xy2d := new int32[10];
    }

    ghost predicate Ok() {
      && yplusx.Length == 10 && yminusx.Length == 10 && xy2d.Length == 10
      && yplusx != yminusx && yplusx != xy2d && yminusx != xy2d
    }

    ghost function Repr(): set<object> {
      {yplusx, yminusx, xy2d}
    }

    // The coordinates are these field elements, with limbs bounded by E101.
    ghost predicate Is(a: int, b: int, c: int)
      reads Repr()
    {
      && Ok()
      && IsElement(yplusx, a, E101)
      && IsElement(yminusx, b, E101)
      && IsElement(xy2d, c, E101)
    }
  }

  // a P3 prepared for addition
  class Cached {
    const YplusX: array<int32>
    const YminusX: array<int32>
    const Z: array<int32>
    const T2d: array<int32>

    constructor ()
      ensures Ok() && fresh(Repr())
    {
      YplusX := new int32[10];
      YminusX := new int32[10];
      Z := new int32[10];
      T2d := new int32[10];
    }

    ghost predicate Ok() {
      && YplusX.Length == 10 && YminusX.Length == 10 && Z.Length == 10 && T2d.Length == 10
      && YplusX != YminusX && YplusX != Z && YplusX != T2d && YminusX != Z && YminusX != T2d && Z != T2d
    }

    ghost function Repr(): set<object> {
      {YplusX, YminusX, Z, T2d}
    }

    // The coordinates are these field elements, with limbs bounded by E165.
    ghost predicate Is(a: int, b: int, c: int, d: int)
      reads Repr()
    {
      && Ok()
      && IsElement(YplusX, a, E165)
      && IsElement(YminusX, b, E165)
      && IsElement(Z, c, E165)
      && IsElement(T2d, d, E165)
    }
  }

  lemma Relax(t: array<int32>, a: int, m: int, n: int)
    requires IsElement(t, a, m) && m <= n
    ensures IsElement(t, a, n)
  {
    hide Cong, Weigh;
  }

  // fe_mul on field elements
  method Mul(h: array<int32>, f: array<int32>, g: array<int32>, ghost a: int, ghost b: int, ghost m: nat, ghost n: nat)
    requires h.Length == 10 && m <= E165 && n <= E165
    requires IsElement(f, a, m) && IsElement(g, b, n)
    modifies h
    ensures IsElement(h, Prod(a, b), E101)
  {
    Relax(f, a, m, E165);
    Relax(g, b, n, E165);
    hide Cong, Within, Weigh, Fe.MulLimbs;
    ghost var x, y := Fe.Value(f), Fe.Value(g);
    Fe.Mul(h, f, g);
    CongMul(x, a, y, b);
    CongTrans(Fe.Value(h), x * y, a * b);
  }

  // fe_sq on field elements
  method Square(h: array<int32>, f: array<int32>, ghost a: int, ghost m: nat)
    requires h.Length == 10 && m <= E165 && IsElement(f, a, m)
    modifies h
    ensures IsElement(h, Prod(a, a), E101)
  {
    Relax(f, a, m, E165);
    hide Cong, Within, Weigh, Fe.MulLimbs;
    ghost var x := Fe.Value(f);
    Fe.Square(h, f);
    CongMul(x, a, x, a);
    CongTrans(Fe.Value(h), x * x, a * a);
  }

  // fe_sq2 on field elements
  method Square2(h: array<int32>, f: array<int32>, ghost a: int, ghost m: nat)
    requires h.Length == 10 && m <= E165 && IsElement(f, a, m)
    modifies h
    ensures IsElement(h, 2 * Prod(a, a), E101)
  {
    Relax(f, a, m, E165);
    hide Cong, Within, Weigh, Carried, Fe.Doubled, Columns;
    ghost var x := Fe.Value(f);
    Fe.Square2(h, f);
    CongMul(x, a, x, a);
    CongAdd(x * x, a * a, x * x, a * a);
    assert 2 * (x * x) == x * x + x * x && 2 * (a * a) == a * a + a * a;
    CongTrans(Fe.Value(h), 2 * (x * x), 2 * (a * a));
  }

  // fe_copy
  method Copy(h: array<int32>, f: array<int32>, ghost a: int, ghost m: nat)
    requires h.Length == 10 && IsElement(f, a, m)
    modifies h
    ensures IsElement(h, a, m)
  {
    hide Cong, Weigh, Within;
    Fe.Copy(h, f);
  }

  // fe_0 and fe_1
  method Constant(h: array<int32>, b: int)
    requires h.Length == 10 && (b == 0 || b == 1)
    modifies h
    ensures IsElement(h, b, E101)
  {
    if b == 0 {
      Fe.Zero(h);
    } else {
      Fe.One(h);
    }
    CongWith(b, b, 0);
  }

  // fe_add on field elements
  method Sum(h: array<int32>, f: array<int32>, g: array<int32>, ghost a: int, ghost b: int, ghost m: nat, ghost n: nat)
    requires h.Length == 10 && m + n <= 0x7FFF_FFFF
    requires IsElement(f, a, m) && IsElement(g, b, n)
    modifies h
    ensures IsElement(h, a + b, m + n)
  {
    hide Cong, Within, Weigh, Fe.Sum;
    ghost var x, y := Fe.Value(f), Fe.Value(g);
    Fe.Add(h, f, g, m, n);
    CongAdd(x, a, y, b);
  }

  // fe_sub on field elements
  method Diff(h: array<int32>, f: array<int32>, g: array<int32>, ghost a: int, ghost b: int, ghost m: nat, ghost n: nat)
    requires h.Length == 10 && m + n <= 0x7FFF_FFFF
    requires IsElement(f, a, m) && IsElement(g, b, n)
    modifies h
    ensures IsElement(h, a - b, m + n)
  {
    hide Cong, Within, Weigh, Fe.Difference;
    ghost var x, y := Fe.Value(f), Fe.Value(g);
    Fe.Sub(h, f, g, m, n);
    CongAdd(x, a, y, b);
  }

  // The opening of ge_add, ge_sub, ge_madd and ge_msub: the products of Y + X, of Y - X and of T.
  method Products(r: P1P1, p: P3, u: array<int32>, v: array<int32>, w: array<int32>,
                  ghost X1: int, ghost Y1: int, ghost Z1: int, ghost T1: int,
                  ghost a: int, ghost b: int, ghost c: int, ghost m: nat)
    requires r.Ok() && r.Repr() !! p.Repr() && u !in r.Repr() && v !in r.Repr() && w !in r.Repr() && m <= E165
    requires p.Is(X1, Y1, Z1, T1) && IsElement(u, a, m) && IsElement(v, b, m) && IsElement(w, c, m)
    modifies r.Repr()
    ensures IsElement(r.Z, Prod(Y1 + X1, a), E101) && IsElement(r.Y, Prod(Y1 - X1, b), E101)
    ensures IsElement(r.T, Prod(c, T1), E101)
  {
    hide IsElement, Prod;
    Sum(r.X, p.Y, p.X, Y1, X1, E101, E101);
    Diff(r.Y, p.Y, p.X, Y1, X1, E101, E101);
    Mul(r.Z, r.X, u, Y1 + X1, a, 2 * E101, m);
    Mul(r.Y, r.Y, v, Y1 - X1, b, 2 * E101, m);
    Mul(r.T, w, p.T, c, T1, m, E101);
  }

  // The closing of an addition and of a subtraction.
  method FinishSum(r: P1P1, t0: array<int32>, ghost a: int, ghost b: int, ghost e: int, ghost c: int)
    requires r.Ok() && t0 !in r.Repr() && IsElement(t0, e, 2 * E101)
    requires IsElement(r.Z, a, E101) && IsElement(r.Y, b, E101) && IsElement(r.T, c, E101)
    modifies r.Repr()
    ensures r.Is(a - b, a + b, e + c, e - c)
  {
    hide IsElement;
    Diff(r.X, r.Z, r.Y, a, b, E101, E101);
    Sum(r.Y, r.Z, r.Y, a, b, E101, E101);
    Sum(r.Z, t0, r.T, e, c, 2 * E101, E101);
    Diff(r.T, t0, r.T, e, c, 2 * E101, E101);
    Relax(r.X, a - b, 2 * E101, E303);
    Relax(r.Y, a + b, 2 * E101, E303);
  }

  method FinishDiff(r: P1P1, t0: array<int32>, ghost a: int, ghost b: int, ghost e: int, ghost c: int)
    requires r.Ok() && t0 !in r.Repr() && IsElement(t0, e, 2 * E101)
    requires IsElement(r.Z, a, E101) && IsElement(r.Y, b, E101) && IsElement(r.T, c, E101)
    modifies r.Repr()
    ensures r.Is(a - b, a + b, e - c, e + c)
  {
    hide IsElement;
    Diff(r.X, r.Z, r.Y, a, b, E101, E101);
    Sum(r.Y, r.Z, r.Y, a, b, E101, E101);
    Diff(r.Z, t0, r.T, e, c, 2 * E101, E101);
    Sum(r.T, t0, r.T, e, c, 2 * E101, E101);
    Relax(r.X, a - b, 2 * E101, E303);
    Relax(r.Y, a + b, 2 * E101, E303);
  }

  // r = p + q
  method Add(r: P1P1, p: P3, q: Cached, ghost X1: int, ghost Y1: int, ghost Z1: int, ghost T1: int,
             ghost yp: int, ghost ym: int, ghost Z2: int, ghost t2: int)
    requires r.Ok() && r.Repr() !! p.Repr() && r.Repr() !! q.Repr()
    requires p.Is(X1, Y1, Z1, T1) && q.Is(yp, ym, Z2, t2)
    modifies r.Repr()
    ensures r.Is(Prod(Y1 + X1, yp) - Prod(Y1 - X1, ym), Prod(Y1 + X1, yp) + Prod(Y1 - X1, ym),
                 2 * Prod(Z1, Z2) + Prod(t2, T1), 2 * Prod(Z1, Z2) - Prod(t2, T1))
  {
    hide IsElement, Prod;
    var t0 := new int32[10];
    Products(r, p, q.YplusX, q.YminusX, q.T2d, X1, Y1, Z1, T1, yp, ym, t2, E165);
    Mul(r.X, p.Z, q.Z, Z1, Z2, E101, E165);
    Sum(t0, r.X, r.X, Prod(Z1, Z2), Prod(Z1, Z2), E101, E101);
    FinishSum(r, t0, Prod(Y1 + X1, yp), Prod(Y1 - X1, ym), 2 * Prod(Z1, Z2), Prod(t2, T1));
  }

  // r = p - q
  method Sub(r: P1P1, p: P3, q: Cached, ghost X1: int, ghost Y1: int, ghost Z1: int, ghost T1: int,
             ghost yp: int, ghost ym: int, ghost Z2: int, ghost t2: int)
    requires r.Ok() && r.Repr() !! p.Repr() && r.Repr() !! q.Repr()
    requires p.Is(X1, Y1, Z1, T1) && q.Is(yp, ym, Z2, t2)
    modifies r.Repr()
    ensures r.Is(Prod(Y1 + X1, ym) - Prod(Y1 - X1, yp), Prod(Y1 + X1, ym) + Prod(Y1 - X1, yp),
                 2 * Prod(Z1, Z2) - Prod(t2, T1), 2 * Prod(Z1, Z2) + Prod(t2, T1))
  {
    hide IsElement, Prod;
    var t0 := new int32[10];
    Products(r, p, q.YminusX, q.YplusX, q.T2d, X1, Y1, Z1, T1, ym, yp, t2, E165);
    Mul(r.X, p.Z, q.Z, Z1, Z2, E101, E165);
    Sum(t0, r.X, r.X, Prod(Z1, Z2), Prod(Z1, Z2), E101, E101);
    FinishDiff(r, t0, Prod(Y1 + X1, ym), Prod(Y1 - X1, yp), 2 * Prod(Z1, Z2), Prod(t2, T1));
  }

  // r = p + q for a precomputed q, whose Z is one
  method MAdd(r: P1P1, p: P3, q: Precomp, ghost X1: int, ghost Y1: int, ghost Z1: int, ghost T1: int,
             ghost yp: int, ghost ym: int, ghost t2: int)
    requires r.Ok() && r.Repr() !! p.Repr() && r.Repr() !! q.Repr()
    requires p.Is(X1, Y1, Z1, T1) && q.Is(yp, ym, t2)
    modifies r.Repr()
    ensures r.Is(Prod(Y1 + X1, yp) - Prod(Y1 - X1, ym), Prod(Y1 + X1, yp) + Prod(Y1 - X1, ym),
                 2 * Z1 + Prod(t2, T1), 2 * Z1 - Prod(t2, T1))
  {
    hide IsElement, Prod;
    var t0 := new int32[10];
    Products(r, p, q.yplusx, q.yminusx, q.xy2d, X1, Y1, Z1, T1, yp, ym, t2, E101);
    Sum(t0, p.Z, p.Z, Z1, Z1, E101, E101);
    FinishSum(r, t0, Prod(Y1 + X1, yp), Prod(Y1 - X1, ym), 2 * Z1, Prod(t2, T1));
  }

  // r = p - q for a precomputed q
  method MSub(r: P1P1, p: P3, q: Precomp, ghost X1: int, ghost Y1: int, ghost Z1: int, ghost T1: int,
             ghost yp: int, ghost ym: int, ghost t2: int)
    requires r.Ok() && r.Repr() !! p.Repr() && r.Repr() !! q.Repr()
    requires p.Is(X1, Y1, Z1, T1) && q.Is(yp, ym, t2)
    modifies r.Repr()
    ensures r.Is(Prod(Y1 + X1, ym) - Prod(Y1 - X1, yp), Prod(Y1 + X1, ym) + Prod(Y1 - X1, yp),
                 2 * Z1 - Prod(t2, T1), 2 * Z1 + Prod(t2, T1))
  {
    hide IsElement, Prod;
    var t0 := new int32[10];
    Products(r, p, q.yminusx, q.yplusx, q.xy2d, X1, Y1, Z1, T1, ym, yp, t2, E101);
    Sum(t0, p.Z, p.Z, Z1, Z1, E101, E101);
    FinishDiff(r, t0, Prod(Y1 + X1, ym), Prod(Y1 - X1, yp), 2 * Z1, Prod(t2, T1));
  }

  // r = 2 * p
  method P2Dbl(r: P1P1, p: P2, ghost X1: int, ghost Y1: int, ghost Z1: int)
    requires r.Ok() && r.Repr() !! p.Repr() && p.Is(X1, Y1, Z1)
    modifies r.Repr()
    ensures r.Is(Prod(X1 + Y1, X1 + Y1) - (Prod(Y1, Y1) + Prod(X1, X1)), Prod(Y1, Y1) + Prod(X1, X1),
                 Prod(Y1, Y1) - Prod(X1, X1), 2 * Prod(Z1, Z1) - (Prod(Y1, Y1) - Prod(X1, X1)))
  {
    hide IsElement, Prod;
    ghost var xx, yy, zz, s := Prod(X1, X1), Prod(Y1, Y1), Prod(Z1, Z1), Prod(X1 + Y1, X1 + Y1);
    var t0 := new int32[10];
    Square(r.X, p.X, X1, E101);
    Square(r.Z, p.Y, Y1, E101);
    Square2(r.T, p.Z, Z1, E101);
    Sum(r.Y, p.X, p.Y, X1, Y1, E101, E101);
    Square(t0, r.Y, X1 + Y1, 2 * E101);
    Sum(r.Y, r.Z, r.X, yy, xx, E101, E101);
    Diff(r.Z, r.Z, r.X, yy, xx, E101, E101);
    Diff(r.X, t0, r.Y, s, yy + xx, E101, 2 * E101);
    Diff(r.T, r.T, r.Z, 2 * zz, yy - xx, E101, 2 * E101);
    Relax(r.Y, yy + xx, 2 * E101, E303);
    Relax(r.Z, yy - xx, 2 * E101, E303);
  }

  // r = p, completed to projective
  method P1P1ToP2(r: P2, p: P1P1, ghost X1: int, ghost Y1: int, ghost Z1: int, ghost T1: int)
    requires r.Ok() && r.Repr() !! p.Repr() && p.Is(X1, Y1, Z1, T1)
    modifies r.Repr()
    ensures r.Is(Prod(X1, T1), Prod(Y1, Z1), Prod(Z1, T1))
  {
    hide IsElement, Prod;
    Mul(r.X, p.X, p.T, X1, T1, E303, E303);
    Mul(r.Y, p.Y, p.Z, Y1, Z1, E303, E303);
    Mul(r.Z, p.Z, p.T, Z1, T1, E303, E303);
  }

  // r = p, completed to extended
  method P1P1ToP3(r: P3, p: P1P1, ghost X1: int, ghost Y1: int, ghost Z1: int, ghost T1: int)
    requires r.Ok() && r.Repr() !! p.Repr() && p.Is(X1, Y1, Z1, T1)
    modifies r.Repr()
    ensures r.Is(Prod(X1, T1), Prod(Y1, Z1), Prod(Z1, T1), Prod(X1, Y1))
  {
    hide IsElement, Prod;
    Mul(r.X, p.X, p.T, X1, T1, E303, E303);
    Mul(r.Y, p.Y, p.Z, Y1, Z1, E303, E303);
    Mul(r.Z, p.Z, p.T, Z1, T1, E303, E303);
    Mul(r.T, p.X, p.Y, X1, Y1, E303, E303);
  }

  // the neutral element
  method P2Zero(h: P2)
    requires h.Ok()
    modifies h.Repr()
    ensures h.Is(0, 1, 1)
  {
    Constant(h.X, 0);
    Constant(h.Y, 1);
    Constant(h.Z, 1);
  }

  method P3Zero(h: P3)
    requires h.Ok()
    modifies h.Repr()
    ensures h.Is(0, 1, 1, 0)
  {
    Constant(h.X, 0);
    Constant(h.Y, 1);
    Constant(h.Z, 1);
    Constant(h.T, 0);
  }

  // r = 2 * p
  method P3Dbl(r: P1P1, p: P3, ghost X1: int, ghost Y1: int, ghost Z1: int, ghost T1: int)
    requires r.Ok() && r.Repr() !! p.Repr() && p.Is(X1, Y1, Z1, T1)
    modifies r.Repr()
    ensures r.Is(Prod(X1 + Y1, X1 + Y1) - (Prod(Y1, Y1) + Prod(X1, X1)), Prod(Y1, Y1) + Prod(X1, X1),
                 Prod(Y1, Y1) - Prod(X1, X1), 2 * Prod(Z1, Z1) - (Prod(Y1, Y1) - Prod(X1, X1)))
  {
    hide Prod;
    var q := new P2();
    P3ToP2(q, p, X1, Y1, Z1, T1);
    P2Dbl(r, q, X1, Y1, Z1);
  }

  method P3ToP2(r: P2, p: P3, ghost X1: int, ghost Y1: int, ghost Z1: int, ghost T1: int)
    requires r.Ok() && r.Repr() !! p.Repr() && p.Is(X1, Y1, Z1, T1)
    modifies r.Repr()
    ensures r.Is(X1, Y1, Z1)
  {
    hide IsElement;
    Copy(r.X, p.X, X1, E101);
    Copy(r.Y, p.Y, Y1, E101);
    Copy(r.Z, p.Z, Z1, E101);
  }

  // the constants d and 2d of the curve equation
  const D_LIMBS: seq<int> := [-10913610, 13857413, -15372611, 6949391, 114729, -8787816, -6275908, -3247719,
      -18696448, -12055116]
  const D2_LIMBS: seq<int> := [-21827239, -5839606, -30745221, 13898782, 229458, 15978800, -12551817, -6495438,
      29715968, 9444199]

  const LIMBS: nat := 10

  // the value of the first n limbs
  ghost function LimbSum(h: seq<int>, n: nat): int
    requires n <= |h| == 10
  {
    if n == 0 then 0 else LimbSum(h, n - 1) + WeightAt(n - 1) * h[n - 1]
  }

  ghost function D(): int { LimbSum(D_LIMBS, LIMBS) }
  ghost function D2(): int { LimbSum(D2_LIMBS, LIMBS) }

  lemma AllLimbs(h: seq<int>)
    requires |h| == 10
    ensures LimbSum(h, LIMBS) == Weigh(h)
  {
    assert LimbSum(h, 1) == LimbSum(h, 0) + WeightAt(0) * h[0] == h[0];
    assert LimbSum(h, 2) == h[0] + WeightAt(1) * h[1];
    assert LimbSum(h, 4) == LimbSum(h, 2) + WeightAt(2) * h[2] + WeightAt(3) * h[3];
    assert LimbSum(h, 6) == LimbSum(h, 4) + WeightAt(4) * h[4] + WeightAt(5) * h[5];
    assert LimbSum(h, 8) == LimbSum(h, 6) + WeightAt(6) * h[6] + WeightAt(7) * h[7];
    assert LimbSum(h, 10) == LimbSum(h, 8) + WeightAt(8) * h[8] + WeightAt(9) * h[9];
  }

  method P3ToCached(r: Cached, p: P3, ghost X1: int, ghost Y1: int, ghost Z1: int, ghost T1: int)
    requires r.Ok() && r.Repr() !! p.Repr() && p.Is(X1, Y1, Z1, T1)
    modifies r.Repr()
    ensures r.Is(Y1 + X1, Y1 - X1, Z1, Prod(T1, D2()))
  {
    hide IsElement, Prod, D2;
    var d2 := new int32[10];
    StoreD2(d2);
    Sum(r.YplusX, p.Y, p.X, Y1, X1, E101, E101);
    Diff(r.YminusX, p.Y, p.X, Y1, X1, E101, E101);
    Copy(r.Z, p.Z, Z1, E101);
    Mul(r.T2d, p.T, d2, T1, D2(), E101, E101);
    Relax(r.YplusX, Y1 + X1, 2 * E101, E165);
    Relax(r.YminusX, Y1 - X1, 2 * E101, E165);
    Relax(r.Z, Z1, E101, E165);
    Relax(r.T2d, Prod(T1, D2()), E101, E165);
  }

  method StoreD2(h: array<int32>)
    requires h.Length == 10
    modifies h
    ensures IsElement(h, D2(), E101)
  {
    Fe.Store(h, -21827239, -5839606, -30745221, 13898782, 229458, 15978800, -12551817, -6495438, 29715968, 9444199);
    assert Limbs(h) == D2_LIMBS;
    AllLimbs(D2_LIMBS);
    CongWith(D2(), D2(), 0);
  }
}
