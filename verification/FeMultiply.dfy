// The ten columns of fe_mul as sums of 64-bit products, with no overflow in the products or in the sums.
module FeMultiply {
  import opened Ints
  import opened Arith
  import opened FeLimbs

  ghost function Limbs(a: array<int32>): (r: seq<int>)
    requires a.Length == 10
    reads a
    ensures |r| == 10
  {
    [a[0] as int, a[1] as int, a[2] as int, a[3] as int, a[4] as int,
     a[5] as int, a[6] as int, a[7] as int, a[8] as int, a[9] as int]
  }

  const E19 := 2103862875  // 19 * 1.65 * 2^26, still an int32

  // The 64-bit product of two int32 limbs, the second of them possibly scaled by 19.
  function Mul(x: int32, y: int32): (r: int64)
    requires -E165 <= x as int <= E165 && -E19 <= y as int <= E19
    ensures r as int == Prod(x as int, y as int)
    ensures -0x400_0000_0000_0000 <= r <= 0x400_0000_0000_0000
  {
    MulAbs(x as int, y as int, E165, E19);
    x as int64 * y as int64
  }

  // x2 = 2x
  function Mul2(x2: int32, y: int32, ghost x: int32): (r: int64)
    requires -E165 <= x2 as int <= E165 && -E19 <= y as int <= E19 && x2 as int == 2 * x as int
    ensures r as int == 2 * Prod(x as int, y as int)
    ensures -0x400_0000_0000_0000 <= r <= 0x400_0000_0000_0000
  {
    Mul(x2, y)
  }

  // y19 = 19y
  function Mul19(x: int32, y19: int32, ghost y: int32): (r: int64)
    requires -E165 <= x as int <= E165 && -E19 <= y19 as int <= E19 && y19 as int == 19 * y as int
    ensures r as int == 19 * Prod(x as int, y as int)
    ensures -0x400_0000_0000_0000 <= r <= 0x400_0000_0000_0000
  {
    Mul(x, y19)
  }

  // x2 = 2x and y19 = 19y
  function Mul38(x2: int32, y19: int32, ghost x: int32, ghost y: int32): (r: int64)
    requires -E165 <= x2 as int <= E165 && -E19 <= y19 as int <= E19
    requires x2 as int == 2 * x as int && y19 as int == 19 * y as int
    ensures r as int == 38 * Prod(x as int, y as int)
    ensures -0x400_0000_0000_0000 <= r <= 0x400_0000_0000_0000
  {
    Mul(x2, y19)
  }

  lemma ColAt(f: seq<int>, g: seq<int>, k: nat)
    requires |f| == |g| == 10 && k < 10
    ensures Col(f, g, k, 10) == Cell(f, g, k, 0) + Cell(f, g, k, 1) + Cell(f, g, k, 2) + Cell(f, g, k, 3)
      + Cell(f, g, k, 4) + Cell(f, g, k, 5) + Cell(f, g, k, 6) + Cell(f, g, k, 7) + Cell(f, g, k, 8) + Cell(f, g, k, 9)
  {
    hide Cell;
  }

  // columns 0 to 1 of fe_mul
  method Columns0(f: array<int32>, g: array<int32>) returns (h0: int64, h1: int64)
    requires f.Length == g.Length == 10
    requires Within(Limbs(f), E165) && Within(Limbs(g), E165)
    ensures h0 as int == Col(Limbs(f), Limbs(g), 0, 10) && -COLUMN_BOUND <= h0 as int <= COLUMN_BOUND
    ensures h1 as int == Col(Limbs(f), Limbs(g), 1, 10) && -COLUMN_BOUND <= h1 as int <= COLUMN_BOUND
  {
    hide Mul, Mul2, Mul19, Mul38, Prod, Col;
    var f0, f1, f2, f3, f4, f5, f6, f7, f8, f9 := f[0], f[1], f[2], f[3], f[4], f[5], f[6], f[7], f[8], f[9];
    var g0, g1, g2, g3, g4, g5, g6, g7, g8, g9 := g[0], g[1], g[2], g[3], g[4], g[5], g[6], g[7], g[8], g[9];
    var f1_2, f3_2, f5_2, f7_2, f9_2 := 2 * f1, 2 * f3, 2 * f5, 2 * f7, 2 * f9;
    var g1_19, g2_19, g3_19, g4_19, g5_19, g6_19, g7_19, g8_19, g9_19 := 19 * g1, 19 * g2, 19 * g3, 19 * g4, 19 * g5,
        19 * g6, 19 * g7, 19 * g8, 19 * g9;
    h0 := Mul(f0, g0) + Mul38(f1_2, g9_19, f1, g9) + Mul19(f2, g8_19, g8) + Mul38(f3_2, g7_19, f3, g7)
      + Mul19(f4, g6_19, g6)
      + Mul38(f5_2, g5_19, f5, g5) + Mul19(f6, g4_19, g4) + Mul38(f7_2, g3_19, f7, g3) + Mul19(f8, g2_19, g2)
      + Mul38(f9_2, g1_19, f9, g1);
    h1 := Mul(f0, g1) + Mul(f1, g0) + Mul19(f2, g9_19, g9) + Mul19(f3, g8_19, g8) + Mul19(f4, g7_19, g7)
      + Mul19(f5, g6_19, g6) + Mul19(f6, g5_19, g5) + Mul19(f7, g4_19, g4) + Mul19(f8, g3_19, g3)
      + Mul19(f9, g2_19, g2);
    ghost var u, v := Limbs(f), Limbs(g);
    ColAt(u, v, 0);
    ColAt(u, v, 1);
  }

  // columns 2 to 3 of fe_mul
  method Columns2(f: array<int32>, g: array<int32>) returns (h2: int64, h3: int64)
    requires f.Length == g.Length == 10
    requires Within(Limbs(f), E165) && Within(Limbs(g), E165)
    ensures h2 as int == Col(Limbs(f), Limbs(g), 2, 10) && -COLUMN_BOUND <= h2 as int <= COLUMN_BOUND
    ensures h3 as int == Col(Limbs(f), Limbs(g), 3, 10) && -COLUMN_BOUND <= h3 as int <= COLUMN_BOUND
  {
    hide Mul, Mul2, Mul19, Mul38, Prod, Col;
    var f0, f1, f2, f3, f4, f5, f6, f7, f8, f9 := f[0], f[1], f[2], f[3], f[4], f[5], f[6], f[7], f[8], f[9];
    var g0, g1, g2, g3, g4, g5, g6, g7, g8, g9 := g[0], g[1], g[2], g[3], g[4], g[5], g[6], g[7], g[8], g[9];
    var f1_2, f3_2, f5_2, f7_2, f9_2 := 2 * f1, 2 * f3, 2 * f5, 2 * f7, 2 * f9;
    var g3_19, g4_19, g5_19, g6_19, g7_19, g8_19, g9_19 := 19 * g3, 19 * g4, 19 * g5, 19 * g6, 19 * g7, 19 * g8,
        19 * g9;
    h2 := Mul(f0, g2) + Mul2(f1_2, g1, f1) + Mul(f2, g0) + Mul38(f3_2, g9_19, f3, g9) + Mul19(f4, g8_19, g8)
      + Mul38(f5_2, g7_19, f5, g7) + Mul19(f6, g6_19, g6) + Mul38(f7_2, g5_19, f7, g5) + Mul19(f8, g4_19, g4)
      + Mul38(f9_2, g3_19, f9, g3);
    h3 := Mul(f0, g3) + Mul(f1, g2) + Mul(f2, g1) + Mul(f3, g0) + Mul19(f4, g9_19, g9)
      + Mul19(f5, g8_19, g8) + Mul19(f6, g7_19, g7) + Mul19(f7, g6_19, g6) + Mul19(f8, g5_19, g5)
      + Mul19(f9, g4_19, g4);
    ghost var u, v := Limbs(f), Limbs(g);
    ColAt(u, v, 2);
    ColAt(u, v, 3);
  }

  // columns 4 to 5 of fe_mul
  method Columns4(f: array<int32>, g: array<int32>) returns (h4: int64, h5: int64)
    requires f.Length == g.Length == 10
    requires Within(Limbs(f), E165) && Within(Limbs(g), E165)
    ensures h4 as int == Col(Limbs(f), Limbs(g), 4, 10) && -COLUMN_BOUND <= h4 as int <= COLUMN_BOUND
    ensures h5 as int == Col(Limbs(f), Limbs(g), 5, 10) && -COLUMN_BOUND <= h5 as int <= COLUMN_BOUND
  {
    hide Mul, Mul2, Mul19, Mul38, Prod, Col;
    var f0, f1, f2, f3, f4, f5, f6, f7, f8, f9 := f[0], f[1], f[2], f[3], f[4], f[5], f[6], f[7], f[8], f[9];
    var g0, g1, g2, g3, g4, g5, g6, g7, g8, g9 := g[0], g[1], g[2], g[3], g[4], g[5], g[6], g[7], g[8], g[9];
    var f1_2, f3_2, f5_2, f7_2, f9_2 := 2 * f1, 2 * f3, 2 * f5, 2 * f7, 2 * f9;
    var g5_19, g6_19, g7_19, g8_19, g9_19 := 19 * g5, 19 * g6, 19 * g7, 19 * g8, 19 * g9;
    h4 := Mul(f0, g4) + Mul2(f1_2, g3, f1) + Mul(f2, g2) + Mul2(f3_2, g1, f3) + Mul(f4, g0)
      + Mul38(f5_2, g9_19, f5, g9) + Mul19(f6, g8_19, g8) + Mul38(f7_2, g7_19, f7, g7) + Mul19(f8, g6_19, g6)
      + Mul38(f9_2, g5_19, f9, g5);
    h5 := Mul(f0, g5) + Mul(f1, g4) + Mul(f2, g3) + Mul(f3, g2) + Mul(f4, g1)
      + Mul(f5, g0) + Mul19(f6, g9_19, g9) + Mul19(f7, g8_19, g8) + Mul19(f8, g7_19, g7) + Mul19(f9, g6_19, g6);
    ghost var u, v := Limbs(f), Limbs(g);
    ColAt(u, v, 4);
    ColAt(u, v, 5);
  }

  // columns 6 to 7 of fe_mul
  method Columns6(f: array<int32>, g: array<int32>) returns (h6: int64, h7: int64)
    requires f.Length == g.Length == 10
    requires Within(Limbs(f), E165) && Within(Limbs(g), E165)
    ensures h6 as int == Col(Limbs(f), Limbs(g), 6, 10) && -COLUMN_BOUND <= h6 as int <= COLUMN_BOUND
    ensures h7 as int == Col(Limbs(f), Limbs(g), 7, 10) && -COLUMN_BOUND <= h7 as int <= COLUMN_BOUND
  {
    hide Mul, Mul2, Mul19, Mul38, Prod, Col;
    var f0, f1, f2, f3, f4, f5, f6, f7, f8, f9 := f[0], f[1], f[2], f[3], f[4], f[5], f[6], f[7], f[8], f[9];
    var g0, g1, g2, g3, g4, g5, g6, g7, g8, g9 := g[0], g[1], g[2], g[3], g[4], g[5], g[6], g[7], g[8], g[9];
    var f1_2, f3_2, f5_2, f7_2, f9_2 := 2 * f1, 2 * f3, 2 * f5, 2 * f7, 2 * f9;
    var g7_19, g8_19, g9_19 := 19 * g7, 19 * g8, 19 * g9;
    h6 := Mul(f0, g6) + Mul2(f1_2, g5, f1) + Mul(f2, g4) + Mul2(f3_2, g3, f3) + Mul(f4, g2)
      + Mul2(f5_2, g1, f5) + Mul(f6, g0) + Mul38(f7_2, g9_19, f7, g9) + Mul19(f8, g8_19, g8)
      + Mul38(f9_2, g7_19, f9, g7);
    h7 := Mul(f0, g7) + Mul(f1, g6) + Mul(f2, g5) + Mul(f3, g4) + Mul(f4, g3)
      + Mul(f5, g2) + Mul(f6, g1) + Mul(f7, g0) + Mul19(f8, g9_19, g9) + Mul19(f9, g8_19, g8);
    ghost var u, v := Limbs(f), Limbs(g);
    ColAt(u, v, 6);
    ColAt(u, v, 7);
  }

  // columns 8 to 9 of fe_mul
  method Columns8(f: array<int32>, g: array<int32>) returns (h8: int64, h9: int64)
    requires f.Length == g.Length == 10
    requires Within(Limbs(f), E165) && Within(Limbs(g), E165)
    ensures h8 as int == Col(Limbs(f), Limbs(g), 8, 10) && -COLUMN_BOUND <= h8 as int <= COLUMN_BOUND
    ensures h9 as int == Col(Limbs(f), Limbs(g), 9, 10) && -COLUMN_BOUND <= h9 as int <= COLUMN_BOUND
  {
    hide Mul, Mul2, Mul19, Mul38, Prod, Col;
    var f0, f1, f2, f3, f4, f5, f6, f7, f8, f9 := f[0], f[1], f[2], f[3], f[4], f[5], f[6], f[7], f[8], f[9];
    var g0, g1, g2, g3, g4, g5, g6, g7, g8, g9 := g[0], g[1], g[2], g[3], g[4], g[5], g[6], g[7], g[8], g[9];
    var f1_2, f3_2, f5_2, f7_2, f9_2 := 2 * f1, 2 * f3, 2 * f5, 2 * f7, 2 * f9;
    var g9_19 := 19 * g9;
    h8 := Mul(f0, g8) + Mul2(f1_2, g7, f1) + Mul(f2, g6) + Mul2(f3_2, g5, f3) + Mul(f4, g4)
      + Mul2(f5_2, g3, f5) + Mul(f6, g2) + Mul2(f7_2, g1, f7) + Mul(f8, g0) + Mul38(f9_2, g9_19, f9, g9);
    h9 := Mul(f0, g9) + Mul(f1, g8) + Mul(f2, g7) + Mul(f3, g6) + Mul(f4, g5)
      + Mul(f5, g4) + Mul(f6, g3) + Mul(f7, g2) + Mul(f8, g1) + Mul(f9, g0);
    ghost var u, v := Limbs(f), Limbs(g);
    ColAt(u, v, 8);
    ColAt(u, v, 9);
  }

}
