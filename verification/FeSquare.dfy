// The ten columns of fe_sq and fe_sq2, which share the symmetric products, equal to those of fe_mul(f, f).
module FeSquare {
  import opened Ints
  import opened Arith
  import opened FeLimbs
  import opened FeMultiply

  const HALF_BOUND := 0x2000_0000_0000_0000

  // x = a * u and y = b * v are two scaled limbs
  function MulNarrow(x: int32, y: int32, ghost a: int, ghost u: int32, ghost b: int, ghost v: int32): (r: int64)
    requires -E165 <= x as int <= E165 && -E19 <= y as int <= E19
    requires x as int == a * u as int && y as int == b * v as int
    ensures r as int == a * b * Prod(u as int, v as int)
    ensures -0x400_0000_0000_0000 <= r <= 0x400_0000_0000_0000
  {
    ProdScale(a, u as int, b, v as int);
    Mul(x, y)
  }

  function MulWide(x: int32, y: int32, ghost a: int, ghost u: int32, ghost b: int, ghost v: int32): (r: int64)
    requires -2 * E165 <= x as int <= 2 * E165 && -E19 <= y as int <= E19
    requires x as int == a * u as int && y as int == b * v as int
    ensures r as int == a * b * Prod(u as int, v as int)
    ensures -0x700_0000_0000_0000 <= r <= 0x700_0000_0000_0000
  {
    ProdScale(a, u as int, b, v as int);
    MulAbs(x as int, y as int, 2 * E165, E19);
    x as int64 * y as int64
  }

  lemma ProdScale(a: int, u: int, b: int, v: int)
    ensures (a * u) * (b * v) == a * b * Prod(u, v)
  {
    assert (a * u) * (b * v) == a * (u * b) * v;
    assert a * (u * b) * v == a * b * (u * v);
  }

  lemma ProdSym(x: int, y: int)
    ensures Prod(x, y) == Prod(y, x)
  {
  }

  // columns 0 to 1 of fe_sq and fe_sq2
  method Squares0(f: array<int32>) returns (h0: int64, h1: int64)
    requires f.Length == 10 && Within(Limbs(f), E165)
    ensures h0 as int == Col(Limbs(f), Limbs(f), 0, 10) && -HALF_BOUND <= h0 as int <= HALF_BOUND
    ensures h1 as int == Col(Limbs(f), Limbs(f), 1, 10) && -HALF_BOUND <= h1 as int <= HALF_BOUND
  {
    hide MulWide, MulNarrow, Prod, Col;
    var f0, f1, f2, f3, f4, f5, f6, f7, f8, f9 := f[0], f[1], f[2], f[3], f[4], f[5], f[6], f[7], f[8], f[9];
    var f0_2, f1_2, f2_2, f3_2, f4_2, f5_2 := 2 * f0, 2 * f1, 2 * f2, 2 * f3, 2 * f4, 2 * f5;
    var f6_19, f8_19 := 19 * f6, 19 * f8;
    var f5_38, f7_38, f9_38 := 38 * f5, 38 * f7, 38 * f9;
    h0 := MulNarrow(f0, f0, 1, f0, 1, f0) + MulNarrow(f1_2, f9_38, 2, f1, 38, f9) + MulWide(f2_2, f8_19, 2, f2, 19, f8)
      + MulNarrow(f3_2, f7_38, 2, f3, 38, f7) + MulWide(f4_2, f6_19, 2, f4, 19, f6)
      + MulNarrow(f5, f5_38, 1, f5, 38, f5);
    h1 := MulWide(f0_2, f1, 2, f0, 1, f1) + MulNarrow(f2, f9_38, 1, f2, 38, f9) + MulNarrow(f3_2, f8_19, 2, f3, 19, f8)
      + MulNarrow(f4, f7_38, 1, f4, 38, f7) + MulNarrow(f5_2, f6_19, 2, f5, 19, f6);
    ghost var u := Limbs(f);
    ColAt(u, u, 0);
    ColAt(u, u, 1);
    ProdSym(f0 as int, f1 as int);
    ProdSym(f1 as int, f9 as int);
    ProdSym(f2 as int, f8 as int);
    ProdSym(f2 as int, f9 as int);
    ProdSym(f3 as int, f7 as int);
    ProdSym(f3 as int, f8 as int);
    ProdSym(f4 as int, f6 as int);
    ProdSym(f4 as int, f7 as int);
    ProdSym(f5 as int, f6 as int);
  }

  // columns 2 to 3 of fe_sq and fe_sq2
  method Squares2(f: array<int32>) returns (h2: int64, h3: int64)
    requires f.Length == 10 && Within(Limbs(f), E165)
    ensures h2 as int == Col(Limbs(f), Limbs(f), 2, 10) && -HALF_BOUND <= h2 as int <= HALF_BOUND
    ensures h3 as int == Col(Limbs(f), Limbs(f), 3, 10) && -HALF_BOUND <= h3 as int <= HALF_BOUND
  {
    hide MulWide, MulNarrow, Prod, Col;
    var f0, f1, f2, f3, f4, f5, f6, f7, f8, f9 := f[0], f[1], f[2], f[3], f[4], f[5], f[6], f[7], f[8], f[9];
    var f0_2, f1_2, f3_2, f4_2, f5_2 := 2 * f0, 2 * f1, 2 * f3, 2 * f4, 2 * f5;
    var f6_19, f8_19 := 19 * f6, 19 * f8;
    var f7_38, f9_38 := 38 * f7, 38 * f9;
    h2 := MulWide(f0_2, f2, 2, f0, 1, f2) + MulNarrow(f1_2, f1, 2, f1, 1, f1) + MulNarrow(f3_2, f9_38, 2, f3, 38, f9)
      + MulWide(f4_2, f8_19, 2, f4, 19, f8) + MulNarrow(f5_2, f7_38, 2, f5, 38, f7)
      + MulNarrow(f6, f6_19, 1, f6, 19, f6);
    h3 := MulWide(f0_2, f3, 2, f0, 1, f3) + MulNarrow(f1_2, f2, 2, f1, 1, f2) + MulNarrow(f4, f9_38, 1, f4, 38, f9)
      + MulNarrow(f5_2, f8_19, 2, f5, 19, f8) + MulNarrow(f6, f7_38, 1, f6, 38, f7);
    ghost var u := Limbs(f);
    ColAt(u, u, 2);
    ColAt(u, u, 3);
    ProdSym(f0 as int, f2 as int);
    ProdSym(f0 as int, f3 as int);
    ProdSym(f1 as int, f2 as int);
    ProdSym(f3 as int, f9 as int);
    ProdSym(f4 as int, f8 as int);
    ProdSym(f4 as int, f9 as int);
    ProdSym(f5 as int, f7 as int);
    ProdSym(f5 as int, f8 as int);
    ProdSym(f6 as int, f7 as int);
  }

  // columns 4 to 5 of fe_sq and fe_sq2
  method Squares4(f: array<int32>) returns (h4: int64, h5: int64)
    requires f.Length == 10 && Within(Limbs(f), E165)
    ensures h4 as int == Col(Limbs(f), Limbs(f), 4, 10) && -HALF_BOUND <= h4 as int <= HALF_BOUND
    ensures h5 as int == Col(Limbs(f), Limbs(f), 5, 10) && -HALF_BOUND <= h5 as int <= HALF_BOUND
  {
    hide MulWide, MulNarrow, Prod, Col;
    var f0, f1, f2, f3, f4, f5, f6, f7, f8, f9 := f[0], f[1], f[2], f[3], f[4], f[5], f[6], f[7], f[8], f[9];
    var f0_2, f1_2, f2_2, f3_2, f5_2, f6_2, f7_2 := 2 * f0, 2 * f1, 2 * f2, 2 * f3, 2 * f5, 2 * f6, 2 * f7;
    var f8_19 := 19 * f8;
    var f7_38, f9_38 := 38 * f7, 38 * f9;
    h4 := MulWide(f0_2, f4, 2, f0, 1, f4) + MulNarrow(f1_2, f3_2, 2, f1, 2, f3) + MulNarrow(f2, f2, 1, f2, 1, f2)
      + MulNarrow(f5_2, f9_38, 2, f5, 38, f9) + MulWide(f6_2, f8_19, 2, f6, 19, f8)
      + MulNarrow(f7, f7_38, 1, f7, 38, f7);
    h5 := MulWide(f0_2, f5, 2, f0, 1, f5) + MulNarrow(f1_2, f4, 2, f1, 1, f4) + MulWide(f2_2, f3, 2, f2, 1, f3)
      + MulNarrow(f6, f9_38, 1, f6, 38, f9) + MulNarrow(f7_2, f8_19, 2, f7, 19, f8);
    ghost var u := Limbs(f);
    ColAt(u, u, 4);
    ColAt(u, u, 5);
    ProdSym(f0 as int, f4 as int);
    ProdSym(f0 as int, f5 as int);
    ProdSym(f1 as int, f3 as int);
    ProdSym(f1 as int, f4 as int);
    ProdSym(f2 as int, f3 as int);
    ProdSym(f5 as int, f9 as int);
    ProdSym(f6 as int, f8 as int);
    ProdSym(f6 as int, f9 as int);
    ProdSym(f7 as int, f8 as int);
  }

  // columns 6 to 7 of fe_sq and fe_sq2
  method Squares6(f: array<int32>) returns (h6: int64, h7: int64)
    requires f.Length == 10 && Within(Limbs(f), E165)
    ensures h6 as int == Col(Limbs(f), Limbs(f), 6, 10) && -HALF_BOUND <= h6 as int <= HALF_BOUND
    ensures h7 as int == Col(Limbs(f), Limbs(f), 7, 10) && -HALF_BOUND <= h7 as int <= HALF_BOUND
  {
    hide MulWide, MulNarrow, Prod, Col;
    var f0, f1, f2, f3, f4, f5, f6, f7, f8, f9 := f[0], f[1], f[2], f[3], f[4], f[5], f[6], f[7], f[8], f[9];
    var f0_2, f1_2, f2_2, f3_2, f5_2, f7_2 := 2 * f0, 2 * f1, 2 * f2, 2 * f3, 2 * f5, 2 * f7;
    var f8_19 := 19 * f8;
    var f9_38 := 38 * f9;
    h6 := MulWide(f0_2, f6, 2, f0, 1, f6) + MulNarrow(f1_2, f5_2, 2, f1, 2, f5) + MulWide(f2_2, f4, 2, f2, 1, f4)
      + MulNarrow(f3_2, f3, 2, f3, 1, f3) + MulNarrow(f7_2, f9_38, 2, f7, 38, f9) + MulNarrow(f8, f8_19, 1, f8, 19, f8);
    h7 := MulWide(f0_2, f7, 2, f0, 1, f7) + MulNarrow(f1_2, f6, 2, f1, 1, f6) + MulWide(f2_2, f5, 2, f2, 1, f5)
      + MulNarrow(f3_2, f4, 2, f3, 1, f4) + MulNarrow(f8, f9_38, 1, f8, 38, f9);
    ghost var u := Limbs(f);
    ColAt(u, u, 6);
    ColAt(u, u, 7);
    ProdSym(f0 as int, f6 as int);
    ProdSym(f0 as int, f7 as int);
    ProdSym(f1 as int, f5 as int);
    ProdSym(f1 as int, f6 as int);
    ProdSym(f2 as int, f4 as int);
    ProdSym(f2 as int, f5 as int);
    ProdSym(f3 as int, f4 as int);
    ProdSym(f7 as int, f9 as int);
    ProdSym(f8 as int, f9 as int);
  }

  // columns 8 to 9 of fe_sq and fe_sq2
  method Squares8(f: array<int32>) returns (h8: int64, h9: int64)
    requires f.Length == 10 && Within(Limbs(f), E165)
    ensures h8 as int == Col(Limbs(f), Limbs(f), 8, 10) && -HALF_BOUND <= h8 as int <= HALF_BOUND
    ensures h9 as int == Col(Limbs(f), Limbs(f), 9, 10) && -HALF_BOUND <= h9 as int <= HALF_BOUND
  {
    hide MulWide, MulNarrow, Prod, Col;
    var f0, f1, f2, f3, f4, f5, f6, f7, f8, f9 := f[0], f[1], f[2], f[3], f[4], f[5], f[6], f[7], f[8], f[9];
    var f0_2, f1_2, f2_2, f3_2, f4_2, f5_2, f7_2 := 2 * f0, 2 * f1, 2 * f2, 2 * f3, 2 * f4, 2 * f5, 2 * f7;
    var f9_38 := 38 * f9;
    h8 := MulWide(f0_2, f8, 2, f0, 1, f8) + MulNarrow(f1_2, f7_2, 2, f1, 2, f7) + MulWide(f2_2, f6, 2, f2, 1, f6)
      + MulNarrow(f3_2, f5_2, 2, f3, 2, f5) + MulNarrow(f4, f4, 1, f4, 1, f4) + MulNarrow(f9, f9_38, 1, f9, 38, f9);
    h9 := MulWide(f0_2, f9, 2, f0, 1, f9) + MulNarrow(f1_2, f8, 2, f1, 1, f8) + MulWide(f2_2, f7, 2, f2, 1, f7)
      + MulNarrow(f3_2, f6, 2, f3, 1, f6) + MulWide(f4_2, f5, 2, f4, 1, f5);
    ghost var u := Limbs(f);
    ColAt(u, u, 8);
    ColAt(u, u, 9);
    ProdSym(f0 as int, f8 as int);
    ProdSym(f0 as int, f9 as int);
    ProdSym(f1 as int, f7 as int);
    ProdSym(f1 as int, f8 as int);
    ProdSym(f2 as int, f6 as int);
    ProdSym(f2 as int, f7 as int);
    ProdSym(f3 as int, f5 as int);
    ProdSym(f3 as int, f6 as int);
    ProdSym(f4 as int, f5 as int);
  }

}
