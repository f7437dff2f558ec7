// The operations of fe.c on field elements of ten int32 limbs, each with the limb bounds that its header states.
module Fe {
  import opened Ints
  import opened FeLimbs
  import opened FeMultiply
  import opened FeSquare

  // the value of a field element held in memory
  ghost function Value(a: array<int32>): int
    requires a.Length == 10
    reads a
  {
    Weigh(Limbs(a))
  }

  method Store(h: array<int32>, r0: int32, r1: int32, r2: int32, r3: int32, r4: int32, r5: int32, r6: int32,
      r7: int32, r8: int32, r9: int32)
    requires h.Length == 10
    modifies h
    ensures Limbs(h) == [r0 as int, r1 as int, r2 as int, r3 as int, r4 as int, r5 as int, r6 as int, r7 as int,
        r8 as int, r9 as int]
  {
    h[0], h[1], h[2], h[3], h[4], h[5], h[6], h[7], h[8], h[9] := r0, r1, r2, r3, r4, r5, r6, r7, r8, r9;
  }

  // h = 0
  method Zero(h: array<int32>)
    requires h.Length == 10
    modifies h
    ensures Limbs(h) == [0, 0, 0, 0, 0, 0, 0, 0, 0, 0] && Value(h) == 0
  {
    Store(h, 0, 0, 0, 0, 0, 0, 0, 0, 0, 0);
  }

  // h = 1
  method One(h: array<int32>)
    requires h.Length == 10
    modifies h
    ensures Limbs(h) == [1, 0, 0, 0, 0, 0, 0, 0, 0, 0] && Value(h) == 1
  {
    Store(h, 1, 0, 0, 0, 0, 0, 0, 0, 0, 0);
  }

  // h = f
  method Copy(h: array<int32>, f: array<int32>)
    requires h.Length == f.Length == 10
    modifies h
    ensures Limbs(h) == old(Limbs(f))
  {
    Store(h, f[0], f[1], f[2], f[3], f[4], f[5], f[6], f[7], f[8], f[9]);
  }

  ghost function Sum(f: seq<int>, g: seq<int>): (r: seq<int>)
    requires |f| == |g| == 10
  {
    [f[0] + g[0], f[1] + g[1], f[2] + g[2], f[3] + g[3], f[4] + g[4],
     f[5] + g[5], f[6] + g[6], f[7] + g[7], f[8] + g[8], f[9] + g[9]]
  }

  ghost function Difference(f: seq<int>, g: seq<int>): (r: seq<int>)
    requires |f| == |g| == 10
  {
    [f[0] - g[0], f[1] - g[1], f[2] - g[2], f[3] - g[3], f[4] - g[4],
     f[5] - g[5], f[6] - g[6], f[7] - g[7], f[8] - g[8], f[9] - g[9]]
  }

  const NO_LIMBS := [0, 0, 0, 0, 0, 0, 0, 0, 0, 0]

  lemma SumFacts(f: seq<int>, g: seq<int>, m: nat, n: nat)
    requires Within(f, m) && Within(g, n)
    ensures Within(Sum(f, g), m + n) && Weigh(Sum(f, g)) == Weigh(f) + Weigh(g)
  {
    SumWeight(f, g);
    hide Weigh;
  }

  lemma SumWeight(f: seq<int>, g: seq<int>)
    requires |f| == |g| == 10
    ensures Weigh(Sum(f, g)) == Weigh(f) + Weigh(g)
  {
  }

  lemma DifferenceFacts(f: seq<int>, g: seq<int>, m: nat, n: nat)
    requires Within(f, m) && Within(g, n)
    ensures Within(Difference(f, g), m + n) && Weigh(Difference(f, g)) == Weigh(f) - Weigh(g)
  {
    DifferenceWeight(f, g);
    hide Weigh;
  }

  lemma DifferenceWeight(f: seq<int>, g: seq<int>)
    requires |f| == |g| == 10
    ensures Weigh(Difference(f, g)) == Weigh(f) - Weigh(g)
  {
  }

  lemma NegationFacts(f: seq<int>, m: nat)
    requires Within(f, m)
    ensures Within(Difference(NO_LIMBS, f), m) && Weigh(Difference(NO_LIMBS, f)) == -Weigh(f)
  {
    hide Weigh;
    assert Weigh(NO_LIMBS) == 0 by { ZeroWeight(); }
    DifferenceFacts(NO_LIMBS, f, 0, m);
  }

  lemma ZeroWeight()
    ensures Weigh(NO_LIMBS) == 0
  {
  }

  // h = f + g, for any operands whose bounds add up to an int32; h may be f or g.
  method Add(h: array<int32>, f: array<int32>, g: array<int32>, ghost m: nat, ghost n: nat)
    requires h.Length == f.Length == g.Length == 10
    requires m + n <= 0x7FFF_FFFF && Within(Limbs(f), m) && Within(Limbs(g), n)
    modifies h
    ensures Limbs(h) == Sum(old(Limbs(f)), old(Limbs(g)))
    ensures Value(h) == old(Value(f)) + old(Value(g))
    ensures Within(Limbs(h), m + n)
  {
    hide Weigh;
    SumFacts(Limbs(f), Limbs(g), m, n);
    Store(h, f[0] + g[0], f[1] + g[1], f[2] + g[2], f[3] + g[3], f[4] + g[4], f[5] + g[5], f[6] + g[6],
        f[7] + g[7], f[8] + g[8], f[9] + g[9]);
  }

  // h = f - g, for any operands whose bounds add up to an int32; h may be f or g.
  method Sub(h: array<int32>, f: array<int32>, g: array<int32>, ghost m: nat, ghost n: nat)
    requires h.Length == f.Length == g.Length == 10
    requires m + n <= 0x7FFF_FFFF && Within(Limbs(f), m) && Within(Limbs(g), n)
    modifies h
    ensures Limbs(h) == Difference(old(Limbs(f)), old(Limbs(g)))
    ensures Value(h) == old(Value(f)) - old(Value(g))
    ensures Within(Limbs(h), m + n)
  {
    hide Weigh;
    DifferenceFacts(Limbs(f), Limbs(g), m, n);
    Store(h, f[0] - g[0], f[1] - g[1], f[2] - g[2], f[3] - g[3], f[4] - g[4], f[5] - g[5], f[6] - g[6],
        f[7] - g[7], f[8] - g[8], f[9] - g[9]);
  }

  // h = -f; h may be f.
  method Neg(h: array<int32>, f: array<int32>, ghost m: nat)
    requires h.Length == f.Length == 10
    requires m <= 0x7FFF_FFFF && Within(Limbs(f), m)
    modifies h
    ensures Limbs(h) == Difference(NO_LIMBS, old(Limbs(f)))
    ensures Value(h) == -old(Value(f))
    ensures Within(Limbs(h), m)
  {
    hide Weigh;
    NegationFacts(Limbs(f), m);
    Store(h, -f[0], -f[1], -f[2], -f[3], -f[4], -f[5], -f[6], -f[7], -f[8], -f[9]);
  }

  // The limbs that fe_mul leaves in h, whatever h, f and g alias.
  ghost function MulLimbs(f: seq<int>, g: seq<int>): seq<int>
    requires |f| == |g| == 10
  {
    Carried(Columns(f, g, 10))
  }

  lemma MulLimbsValue(f: seq<int>, g: seq<int>)
    requires |f| == |g| == 10
    ensures Cong(Weigh(MulLimbs(f, g)), Weigh(f) * Weigh(g))
  {
    hide Carried, Columns, Weigh, Cong, TopCarry;
    var c := Columns(f, g, 10);
    CarriedValue(c);
    CongWith(Weigh(Carried(c)), Weigh(c), -TopCarry(c));
    ColumnsValue(f, g);
    CongTrans(Weigh(Carried(c)), Weigh(c), Weigh(f) * Weigh(g));
  }

  // h = f * g; h may be f or g.
  method Mul(h: array<int32>, f: array<int32>, g: array<int32>)
    requires h.Length == f.Length == g.Length == 10
    requires Within(Limbs(f), E165) && Within(Limbs(g), E165)
    modifies h
    ensures Limbs(h) == MulLimbs(old(Limbs(f)), old(Limbs(g)))
    ensures Cong(Value(h), old(Value(f)) * old(Value(g)))
    ensures Within(Limbs(h), E101)
  {
    hide Col, Carried, Cong, Weigh;
    ghost var u, v := Limbs(f), Limbs(g);
    var h0, h1 := Columns0(f, g);
    var h2, h3 := Columns2(f, g);
    var h4, h5 := Columns4(f, g);
    var h6, h7 := Columns6(f, g);
    var h8, h9 := Columns8(f, g);
    ghost var c := [h0 as int, h1 as int, h2 as int, h3 as int, h4 as int, h5 as int, h6 as int, h7 as int,
        h8 as int, h9 as int];
    assert c == Columns(u, v, 10);
    CarriedBounds(c);
    MulLimbsValue(u, v);
    var r0, r1, r2, r3, r4, r5, r6, r7, r8, r9 := CarryChain(h0, h1, h2, h3, h4, h5, h6, h7, h8, h9);
    Store(h, r0, r1, r2, r3, r4, r5, r6, r7, r8, r9);
  }

  // h = f * f, limb for limb what fe_mul computes; h may be f.
  method Square(h: array<int32>, f: array<int32>)
    requires h.Length == f.Length == 10
    requires Within(Limbs(f), E165)
    modifies h
    ensures Limbs(h) == MulLimbs(old(Limbs(f)), old(Limbs(f)))
    ensures Cong(Value(h), old(Value(f)) * old(Value(f)))
    ensures Within(Limbs(h), E101)
  {
    hide Col, Carried, Cong, Weigh;
    ghost var u := Limbs(f);
    var h0, h1 := Squares0(f);
    var h2, h3 := Squares2(f);
    var h4, h5 := Squares4(f);
    var h6, h7 := Squares6(f);
    var h8, h9 := Squares8(f);
    ghost var c := [h0 as int, h1 as int, h2 as int, h3 as int, h4 as int, h5 as int, h6 as int, h7 as int,
        h8 as int, h9 as int];
    assert c == Columns(u, u, 10);
    CarriedBounds(c);
    MulLimbsValue(u, u);
    var r0, r1, r2, r3, r4, r5, r6, r7, r8, r9 := CarryChain(h0, h1, h2, h3, h4, h5, h6, h7, h8, h9);
    Store(h, r0, r1, r2, r3, r4, r5, r6, r7, r8, r9);
  }

  // the doubled columns of fe_sq2
  ghost function Doubled(c: seq<int>): (r: seq<int>)
    requires |c| == 10
    ensures |r| == 10
  {
    [2 * c[0], 2 * c[1], 2 * c[2], 2 * c[3], 2 * c[4], 2 * c[5], 2 * c[6], 2 * c[7], 2 * c[8], 2 * c[9]]
  }

  lemma DoubledValue(f: seq<int>)
    requires |f| == 10
    ensures Cong(Weigh(Carried(Doubled(Columns(f, f, 10)))), 2 * (Weigh(f) * Weigh(f)))
  {
    hide Carried, Columns, Cong, TopCarry;
    var c := Columns(f, f, 10);
    var w, s := Weigh(c), Weigh(f) * Weigh(f);
    CarriedValue(Doubled(c));
    CongWith(Weigh(Carried(Doubled(c))), Weigh(Doubled(c)), -TopCarry(Doubled(c)));
    ColumnsValue(f, f);
    assert Weigh(Doubled(c)) == w + w && 2 * s == s + s;
    CongAdd(w, s, w, s);
    CongTrans(Weigh(Carried(Doubled(c))), w + w, s + s);
  }

  // h = 2 * f * f; h may be f.
  method Square2(h: array<int32>, f: array<int32>)
    requires h.Length == f.Length == 10
    requires Within(Limbs(f), E165)
    modifies h
    ensures Limbs(h) == Carried(Doubled(Columns(old(Limbs(f)), old(Limbs(f)), 10)))
    ensures Cong(Value(h), 2 * (old(Value(f)) * old(Value(f))))
    ensures Within(Limbs(h), E101)
  {
    hide Col, Carried, Cong, Weigh;
    ghost var u := Limbs(f);
    var h0, h1 := Squares0(f);
    var h2, h3 := Squares2(f);
    var h4, h5 := Squares4(f);
    var h6, h7 := Squares6(f);
    var h8, h9 := Squares8(f);
    h0, h1, h2, h3, h4 := h0 + h0, h1 + h1, h2 + h2, h3 + h3, h4 + h4;
    h5, h6, h7, h8, h9 := h5 + h5, h6 + h6, h7 + h7, h8 + h8, h9 + h9;
    ghost var c := [h0 as int, h1 as int, h2 as int, h3 as int, h4 as int, h5 as int, h6 as int, h7 as int,
        h8 as int, h9 as int];
    assert c == Doubled(Columns(u, u, 10));
    CarriedBounds(c);
    DoubledValue(u);
    var r0, r1, r2, r3, r4, r5, r6, r7, r8, r9 := CarryChain(h0, h1, h2, h3, h4, h5, h6, h7, h8, h9);
    Store(h, r0, r1, r2, r3, r4, r5, r6, r7, r8, r9);
  }
}
