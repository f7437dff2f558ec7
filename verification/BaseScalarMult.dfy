// Fixed-base scalar multiplication with a table of precomputed multiples.
module BaseScalarMult {
  import opened Ints
  import opened Bits
  import opened FeLimbs
  import opened FeMultiply
  import opened FeSelect
  import opened Ge
  import opened Edwards
  import opened GeGroup
  import opened Scalars
  import opened Digits
  import opened Radix16
  import Fe

  // ----- select -----

  lemma BlendElement(t: array<int32>, x: seq<int>, y: seq<int>, b: nat, a: int, a': int, e: int)
    requires t.Length == 10 && |x| == |y| == 10 && Limbs(t) == if b == 1 then y else x
    requires b == 1 ==> Within(y, e) && Cong(Weigh(y), a')
    requires b != 1 ==> Within(x, e) && Cong(Weigh(x), a)
    ensures IsElement(t, if b == 1 then a' else a, e)
  {
    hide Within, Cong, Weigh;
  }

  // fe_cmov on field elements
  method MoveElement(f: array<int32>, g: array<int32>, b: nat, ghost x: int, ghost y: int)
    requires b == 0 || b == 1
    requires IsElement(f, x, E101) && IsElement(g, y, E101)
    modifies f
    ensures IsElement(f, if b == 1 then y else x, E101)
  {
    hide Within, Cong, Weigh;
    ghost var u, v := Limbs(f), Limbs(g);
    Cmov(f, g, b);
    BlendElement(f, u, v, b, x, y, E101);
  }

  // cmov(t, u, b): t becomes u when b is 1
  method Move<G(!new)>(t: Precomp, u: Precomp, b: nat, ghost c: Curve<G>, ghost g: G, ghost h: G)
    requires b == 0 || b == 1
    requires IsPrecomp(t, c, g) && IsPrecomp(u, c, h) && t.Repr() !! u.Repr()
    modifies t.Repr()
    ensures IsPrecomp(t, c, if b == 1 then h else g)
  {
    hide IsElement, D2;
    ghost var x, y, x', y' := c.x(g), c.y(g), c.x(h), c.y(h);
    MoveElement(t.yplusx, u.yplusx, b, y + x, y' + x');
    MoveElement(t.yminusx, u.yminusx, b, y - x, y' - x');
    MoveElement(t.xy2d, u.xy2d, b, (x * y) * D2(), (x' * y') * D2());
  }

  // fe_1, fe_1, fe_0: the neutral element
  method Neutral<G(!new)>(t: Precomp, ghost c: Curve<G>)
    requires t.Ok() && CoordinateLaws(c)
    modifies t.Repr()
    ensures IsPrecomp(t, c, c.zero)
  {
    hide IsElement, D2, OnCurve, AdditionLaw;
    Constant(t.yplusx, 1);
    Constant(t.yminusx, 1);
    Constant(t.xy2d, 0);
  }

  method NegateElement(h: array<int32>, f: array<int32>, ghost a: int)
    requires h.Length == 10 && IsElement(f, a, E101)
    modifies h
    ensures IsElement(h, -a, E101)
  {
    hide Within, Cong, Weigh, Fe.Difference;
    ghost var v := Fe.Value(f);
    Fe.Neg(h, f, E101);
    CongScale(-1, v, a);
  }

  // minust = -t: the sums swapped and the product negated
  method Negated<G(!new)>(m: Precomp, t: Precomp, ghost c: Curve<G>, ghost g: G)
    requires m.Ok() && m.Repr() !! t.Repr() && IsPrecomp(t, c, g) && CoordinateLaws(c)
    modifies m.Repr()
    ensures IsPrecomp(m, c, c.neg(g))
  {
    hide IsElement, D2, OnCurve, AdditionLaw;
    ghost var x, y := c.x(g), c.y(g);
    Copy(m.yplusx, t.yminusx, y - x, E101);
    Copy(m.yminusx, t.yplusx, y + x, E101);
    NegateElement(m.xy2d, t.xy2d, (x * y) * D2());
    NegatedProduct(x, y, D2());
  }

  lemma NegatedProduct(x: int, y: int, d: int)
    ensures -((x * y) * d) == ((-x) * y) * d
  {
    assert (-x) * y == -(x * y);
    var p := x * y;
    assert (-p) * d == -(p * d);
  }

  // the absolute value of b, by masking with the sign
  function Magnitude(b: int8): (r: int8)
    requires -128 < b
    ensures r == if b < 0 then -b else b
  {
    MaskNegative(b);
    var mask := (0x1_0000_0000 - Negative(b)) % 0x1_0000_0000;
    var masked := ToSigned(And(mask, ToUnsigned(b as int32)));
    ((b as int - 2 * masked as int) % 256) as int8
  }

  lemma MaskNegative(b: int8)
    ensures And(0, ToUnsigned(b as int32)) == 0
    ensures And(0xFFFF_FFFF, ToUnsigned(b as int32)) == ToUnsigned(b as int32)
  {
    hide Pow2;
    Pow2At32();
    AndOnes(ToUnsigned(b as int32), 32);
    AndComm(ToUnsigned(b as int32), 0xFFFF_FFFF);
  }

  lemma {:induction false} AndComm(x: nat, y: nat)
    ensures And(x, y) == And(y, x)
  {
    if x > 0 && y > 0 {
      AndComm(x / 2, y / 2);
    }
  }

  // Entry j of a row holds (j + 1) p; fp is the memory of the table.
  ghost predicate Multiples<G(!new)>(row: seq<Precomp>, fp: set<object>, c: Curve<G>, p: G)
    reads fp
  {
    |row| == 8 && forall j :: 0 <= j < 8 ==> row[j].Repr() <= fp && IsPrecomp(row[j], c, SMul(c, j + 1, p))
  }

  lemma Entry<G(!new)>(row: seq<Precomp>, fp: set<object>, c: Curve<G>, p: G, j: nat)
    requires Multiples(row, fp, c, p) && j < 8
    ensures row[j].Repr() <= fp && IsPrecomp(row[j], c, SMul(c, j + 1, p))
  {
    hide IsPrecomp, SMul;
  }

  // what the first k conditional moves have selected
  ghost function Chosen<G(!new)>(c: Curve<G>, p: G, m: int, k: nat): G {
    if 1 <= m <= k then SMul(c, m, p) else c.zero
  }

  // entry j is selected when m is j + 1
  method MoveEntry<G(!new)>(t: Precomp, row: seq<Precomp>, j: nat, m: int8, ghost fp: set<object>, ghost c: Curve<G>,
      ghost p: G)
    requires j < 8 && 0 <= m && Multiples(row, fp, c, p) && fp !! t.Repr()
    requires IsPrecomp(t, c, Chosen(c, p, m as int, j))
    modifies t.Repr()
    ensures IsPrecomp(t, c, Chosen(c, p, m as int, j + 1)) && Multiples(row, fp, c, p)
  {
    Entry(row, fp, c, p, j);
    hide IsPrecomp, SMul, Multiples;
    Move(t, row[j], Equal(m, (j + 1) as int8), c, Chosen(c, p, m as int, j), SMul(c, j + 1, p));
  }

  // select: t = b * p for -8 <= b <= 8, without branching on b.
  method Select<G(!new)>(t: Precomp, row: seq<Precomp>, b: int8, ghost fp: set<object>, ghost c: Curve<G>, ghost p: G)
    requires Laws(c) && t.Ok() && Multiples(row, fp, c, p) && fp !! t.Repr() && -8 <= b <= 8
    modifies t.Repr()
    ensures IsPrecomp(t, c, SMul(c, b as int, p)) && Multiples(row, fp, c, p)
  {
    hide IsPrecomp, SMul, Multiples, GroupLaws, CoordinateLaws, PrimeField;
    var bnegative := Negative(b);
    var babs := Magnitude(b);
    Neutral(t, c);
    MoveEntry(t, row, 0, babs, fp, c, p);
    MoveEntry(t, row, 1, babs, fp, c, p);
    MoveEntry(t, row, 2, babs, fp, c, p);
    MoveEntry(t, row, 3, babs, fp, c, p);
    MoveEntry(t, row, 4, babs, fp, c, p);
    MoveEntry(t, row, 5, babs, fp, c, p);
    MoveEntry(t, row, 6, babs, fp, c, p);
    MoveEntry(t, row, 7, babs, fp, c, p);
    ghost var g := Chosen(c, p, babs as int, 8);
    var minust := new Precomp();
    Negated(minust, t, c, g);
    Move(t, minust, bnegative, c, g, c.neg(g));
    SMulOne(c, p);
    if b < 0 {
      SMulNeg(c, babs as int, p);
    }
  }

  // ----- the two passes -----

  // row k of the table holds the multiples of 256^k * g
  ghost predicate BaseTable<G(!new)>(base: seq<seq<Precomp>>, fp: set<object>, c: Curve<G>, g: G)
    reads fp
  {
    && |base| == 32 && On(c, g)
    && forall k :: 0 <= k < 32 ==> Multiples(base[k], fp, c, SMul(c, Pow2(8 * k), g))
  }

  lemma RowOf<G(!new)>(base: seq<seq<Precomp>>, fp: set<object>, c: Curve<G>, g: G, k: nat)
    requires BaseTable(base, fp, c, g) && k < 32
    ensures Multiples(base[k], fp, c, SMul(c, Pow2(8 * k), g)) && On(c, g)
  {
    hide Multiples, SMul, Pow2, On;
  }

  // d * 256^k
  ghost function Scaled(d: int, k: nat): int { d * Pow2(8 * k) }

  lemma AddScaled<G(!new)>(c: Curve<G>, m: int, d: int, k: nat, g: G)
    requires GroupLaws(c)
    ensures c.add(SMul(c, m, g), SMul(c, d, SMul(c, Pow2(8 * k), g))) == SMul(c, m + Scaled(d, k), g)
  {
    hide GroupLaws, SMul, Pow2;
    SMulMul(c, d, Pow2(8 * k), g);
    SMulAdd(c, m, Scaled(d, k), g);
  }

  // the table multiple for a digit is selected and added to h
  method AddSelected<G(!new)>(h: P3, r: P1P1, t: Precomp, row: seq<Precomp>, d: int8,
                              ghost fp: set<object>, ghost c: Curve<G>, ghost g: G, ghost p: G)
    requires Laws(c) && -8 <= d <= 8 && Multiples(row, fp, c, p) && On(c, p)
    requires h.Ok() && r.Ok() && t.Ok() && h.Repr() !! r.Repr() && h.Repr() !! t.Repr() && r.Repr() !! t.Repr()
    requires fp !! t.Repr()
    requires IsP3(h, c, g)
    modifies h.Repr(), r.Repr(), t.Repr()
    ensures IsP3(h, c, c.add(g, SMul(c, d as int, p)))
  {
    hide IsPrecomp, IsP3, IsP1P1, SMul, Multiples, Laws, On;
    ghost var q := SMul(c, d as int, p);
    SMulOn(c, d as int, p);
    Select(t, row, d, fp, c, p);
    MAddPoint(r, h, t, c, g, q);
    ToP3(h, r, c, c.add(g, q));
  }

  // One digit of a pass, with entry k of the table.
  method AddDigitOf<G(!new)>(h: P3, r: P1P1, t: Precomp, base: seq<seq<Precomp>>, k: nat, d: int8,
                             ghost fp: set<object>, ghost c: Curve<G>, ghost g: G, ghost m: int)
    requires Laws(c) && -8 <= d <= 8 && k < 32 && BaseTable(base, fp, c, g)
    requires h.Ok() && r.Ok() && t.Ok() && h.Repr() !! r.Repr() && h.Repr() !! t.Repr() && r.Repr() !! t.Repr()
    requires fp !! h.Repr() && fp !! r.Repr() && fp !! t.Repr()
    requires IsP3(h, c, SMul(c, m, g))
    modifies h.Repr(), r.Repr(), t.Repr()
    ensures IsP3(h, c, SMul(c, m + Scaled(d as int, k), g)) && BaseTable(base, fp, c, g)
  {
    RowOf(base, fp, c, g, k);
    hide IsP3, SMul, Multiples, Pow2, BaseTable, GroupLaws, CoordinateLaws, PrimeField, Scaled, On;
    SMulOn(c, Pow2(8 * k), g);
    AddSelected(h, r, t, base[k], d, fp, c, SMul(c, m, g), SMul(c, Pow2(8 * k), g));
    AddScaled(c, m, d as int, k, g);
  }

  // the sum of every other digit, from digit first on, over its power of 256
  ghost function Every(e: seq<int8>, first: nat, k: nat): int
    requires first <= 1 && 2 * k <= |e|
  {
    if k == 0 then 0 else Every(e, first, k - 1) + Scaled(e[2 * (k - 1) + first] as int, k - 1)
  }

  // every other digit e[i], from digit first on, adds e[i] 256^(i / 2) B to h
  method Pass<G(!new)>(h: P3, r: P1P1, t: Precomp, e: array<int8>, first: nat, base: seq<seq<Precomp>>,
                       ghost fp: set<object>, ghost c: Curve<G>, ghost g: G, ghost m: int)
    requires Laws(c) && first <= 1 && e.Length == 64 && BaseTable(base, fp, c, g)
    requires forall i :: 0 <= i < 64 ==> -8 <= e[i] <= 8
    requires h.Ok() && r.Ok() && t.Ok() && h.Repr() !! r.Repr() && h.Repr() !! t.Repr() && r.Repr() !! t.Repr()
    requires fp !! h.Repr() && fp !! r.Repr() && fp !! t.Repr()
    requires IsP3(h, c, SMul(c, m, g))
    modifies h.Repr(), r.Repr(), t.Repr()
    ensures IsP3(h, c, SMul(c, m + Every(old(e[..]), first, 32), g)) && BaseTable(base, fp, c, g)
  {
    hide IsP3, SMul, Multiples, Pow2, BaseTable, Laws, Scaled;
    ghost var s := e[..];
    var i := first;
    while i < 64
      invariant first <= i <= 64 + first && i % 2 == first && e[..] == s
      invariant BaseTable(base, fp, c, g)
      invariant IsP3(h, c, SMul(c, m + Every(s, first, i / 2), g))
    {
      AddDigitOf(h, r, t, base, i / 2, e[i], fp, c, g, m + Every(s, first, i / 2));
      assert Every(s, first, i / 2 + 1) == Every(s, first, i / 2) + Scaled(s[i] as int, i / 2);
      i := i + 2;
    }
  }

  // ge_p3_dbl, then three times ge_p1p1_to_p2 and ge_p2_dbl, then ge_p1p1_to_p3: h = 16 h
  method Sixteenfold<G(!new)>(h: P3, r: P1P1, s: P2, ghost c: Curve<G>, ghost g: G, ghost m: int)
    requires Laws(c) && h.Ok() && r.Ok() && s.Ok()
    requires h.Repr() !! r.Repr() && h.Repr() !! s.Repr() && r.Repr() !! s.Repr()
    requires IsP3(h, c, SMul(c, m, g))
    modifies h.Repr(), r.Repr(), s.Repr()
    ensures IsP3(h, c, SMul(c, 16 * m, g))
  {
    hide IsP3, IsP2, IsP1P1, SMul, GroupLaws, CoordinateLaws, PrimeField;
    SMulAdd(c, m, m, g);
    SMulAdd(c, 2 * m, 2 * m, g);
    SMulAdd(c, 4 * m, 4 * m, g);
    SMulAdd(c, 8 * m, 8 * m, g);
    DoubleP3(r, h, c, SMul(c, m, g));
    DoubleAgain(r, s, c, SMul(c, 2 * m, g));
    DoubleAgain(r, s, c, SMul(c, 4 * m, g));
    DoubleAgain(r, s, c, SMul(c, 8 * m, g));
    ToP3(h, r, c, SMul(c, 16 * m, g));
  }

  // one more doubling, by way of projective coordinates
  method DoubleAgain<G(!new)>(r: P1P1, s: P2, ghost c: Curve<G>, ghost g: G)
    requires Laws(c) && r.Ok() && s.Ok() && r.Repr() !! s.Repr() && IsP1P1(r, c, g)
    modifies r.Repr(), s.Repr()
    ensures IsP1P1(r, c, c.add(g, g))
  {
    hide IsP2, IsP1P1, Laws;
    ToP2(s, r, c, g);
    DoubleP2(r, s, c, g);
  }

  lemma {:induction false} Val16Append(s: seq<int8>, d: int8)
    ensures Val16(s + [d]) == Val16(s) + d as int * Pow16(|s|)
  {
    if |s| == 0 {
      assert Val16([d][1..]) == 0;
      assert s + [d] == [d];
    } else {
      Val16Append(s[1..], d);
      assert (s + [d])[1..] == s[1..] + [d];
      assert 16 * (d as int * Pow16(|s| - 1)) == d as int * Pow16(|s|);
    }
  }

  lemma {:induction false} Pow16Even(k: nat)
    ensures Pow16(2 * k) == Pow2(8 * k)
  {
    if k > 0 {
      Pow16Even(k - 1);
      assert Pow16(2 * k) == 16 * Pow16(2 * k - 1) == 256 * Pow16(2 * k - 2);
      Pow2Add(8, 8 * (k - 1));
      assert Pow2(8) == 256;
    }
  }

  // The even and the odd digits together have the value of all digits.
  lemma {:induction false} Interleaved(e: seq<int8>, k: nat)
    requires 2 * k <= |e|
    ensures Val16(e[..2 * k]) == Every(e, 0, k) + 16 * Every(e, 1, k)
  {
    if k > 0 {
      Interleaved(e, k - 1);
      hide Val16, Pow16, Pow2;
      var n := 2 * (k - 1);
      Val16Append(e[..n], e[n]);
      Val16Append(e[..n + 1], e[n + 1]);
      assert e[..n + 1] == e[..n] + [e[n]] && e[..n + 2] == e[..n + 1] + [e[n + 1]];
      Pow16Even(k - 1);
      assert Pow16(n + 1) == 16 * Pow16(n) by { Pow16Step(n); }
      var p := Pow2(8 * (k - 1));
      assert e[n + 1] as int * (16 * p) == 16 * (e[n + 1] as int * p);
    } else {
      assert e[..0] == [];
    }
  }

  lemma Pow16Step(n: nat)
    ensures Pow16(n + 1) == 16 * Pow16(n)
  {
  }

  // the odd pass, four doublings and the even pass
  method BothPasses<G(!new)>(h: P3, r: P1P1, q: P2, t: Precomp, e: array<int8>, base: seq<seq<Precomp>>,
                             ghost fp: set<object>, ghost c: Curve<G>, ghost B: G)
    requires Laws(c) && e.Length == 64 && BaseTable(base, fp, c, B)
    requires forall i :: 0 <= i < 64 ==> -8 <= e[i] <= 8
    requires h.Ok() && r.Ok() && q.Ok() && t.Ok()
    requires h.Repr() !! r.Repr() && h.Repr() !! q.Repr() && h.Repr() !! t.Repr()
    requires r.Repr() !! q.Repr() && r.Repr() !! t.Repr() && q.Repr() !! t.Repr()
    requires fp !! h.Repr() && fp !! r.Repr() && fp !! q.Repr() && fp !! t.Repr()
    requires IsP3(h, c, SMul(c, 0, B))
    modifies h.Repr(), r.Repr(), q.Repr(), t.Repr()
    ensures IsP3(h, c, SMul(c, Val16(old(e[..])), B))
  {
    hide IsP3, SMul, BaseTable, Laws, Val16, Every;
    ghost var s := e[..];
    ghost var odd := Every(s, 1, 32);
    Pass(h, r, t, e, 1, base, fp, c, B, 0);
    Sixteenfold(h, r, q, c, B, odd);
    Pass(h, r, t, e, 0, base, fp, c, B, 16 * odd);
    Interleaved(s, 32);
    assert s[..64] == s;
  }

  // ge_scalarmult_base: h = a B for a table of multiples of B.
  method ScalarmultBase<G(!new)>(h: P3, a: array<byte>, base: seq<seq<Precomp>>,
                                 ghost fp: set<object>, ghost c: Curve<G>, ghost B: G)
    requires Laws(c) && a.Length >= 32 && a[31] <= 127
    requires h.Ok() && BaseTable(base, fp, c, B) && fp !! h.Repr()
    modifies h.Repr()
    ensures IsP3(h, c, SMul(c, old(LE(a[..32])), B))
  {
    hide IsP3, SMul, BaseTable, GroupLaws, CoordinateLaws, PrimeField, Val16, LE;
    var e := new int8[64];
    Recode(e, a);
    var r := new P1P1();
    var q := new P2();
    var t := new Precomp();
    ZeroP3(h, c);
    SMulOne(c, B);
    BothPasses(h, r, q, t, e, base, fp, c, B);
  }
}
