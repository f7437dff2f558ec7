// Field elements modulo 2^255 - 19 in radix 2^25.5, as ten signed limbs.
module FeLimbs {
  import opened Ints
  import opened Arith
  import opened Bits

  const Q := 0x7FFF_FFFF_FFFF_FFFF_FFFF_FFFF_FFFF_FFFF_FFFF_FFFF_FFFF_FFFF_FFFF_FFFF_FFFF_FFED  // 2^255 - 19

  const PRIME_BITS: nat := 255

  // h0 + 2^26 h1 + 2^51 h2 + 2^77 h3 + 2^102 h4 + 2^128 h5 + 2^153 h6 + 2^179 h7 + 2^204 h8 + 2^230 h9
  ghost function Weigh(h: seq<int>): int
    requires |h| == 10
  {
    h[0] + 0x400_0000 * h[1] + 0x8_0000_0000_0000 * h[2] + 0x2000_0000_0000_0000_0000 * h[3]
    + 0x40_0000_0000_0000_0000_0000_0000 * h[4] + 0x1_0000_0000_0000_0000_0000_0000_0000_0000 * h[5]
    + 0x200_0000_0000_0000_0000_0000_0000_0000_0000_0000 * h[6]
    + 0x8_0000_0000_0000_0000_0000_0000_0000_0000_0000_0000_0000 * h[7]
    + 0x1000_0000_0000_0000_0000_0000_0000_0000_0000_0000_0000_0000_0000 * h[8]
    + 0x40_0000_0000_0000_0000_0000_0000_0000_0000_0000_0000_0000_0000_0000_0000 * h[9]
  }

  // Congruence modulo the field prime.
  ghost predicate Cong(a: int, b: int) { exists k: int :: a == b + Multiple(k) }

  ghost function Multiple(k: int): int { k * (Pow2(PRIME_BITS) - 19) }

  lemma Witness(a: int, b: int) returns (k: int)
    requires Cong(a, b)
    ensures a == b + k * Q
  {
    hide Pow2;
    Pow2At255();
    k :| a == b + Multiple(k);
  }

  // Limbs at even positions are at most e in absolute value, the others at most e / 2.
  ghost predicate Within(h: seq<int>, e: int) {
    && |h| == 10
    && -e <= h[0] <= e && -(e / 2) <= h[1] <= e / 2
    && -e <= h[2] <= e && -(e / 2) <= h[3] <= e / 2
    && -e <= h[4] <= e && -(e / 2) <= h[5] <= e / 2
    && -e <= h[6] <= e && -(e / 2) <= h[7] <= e / 2
    && -e <= h[8] <= e && -(e / 2) <= h[9] <= e / 2
  }

  lemma WithinMono(h: seq<int>, m: int, n: int)
    requires Within(h, m) && m <= n
    ensures Within(h, n)
  {
  }

  const E165 := 110729625  // 1.65 * 2^26
  const E101 := 33889976   // 1.01 * 2^25
  const E220 := 73819750   // 1.1 * 2^26

  // ----- columns of the product -----

  // the factor of f_i * g_j in its column: two for two odd limbs, 19 past 2^255
  ghost function Coef(i: int, j: int): int {
    (if i % 2 == 1 && j % 2 == 1 then 2 else 1) * (if i + j >= 10 then 19 else 1)
  }

  ghost function Cell(f: seq<int>, g: seq<int>, k: nat, i: nat): int
    requires |f| == |g| == 10 && k < 10 && i < 10
  {
    var j := if i <= k then k - i else k + 10 - i;
    Coef(i, j) * Prod(f[i], g[j])
  }

  // column k of the product, rows 0..n
  ghost function Col(f: seq<int>, g: seq<int>, k: nat, n: nat): int
    requires |f| == |g| == 10 && k < 10 && n <= 10
    decreases n
  {
    if n == 0 then 0 else Col(f, g, k, n - 1) + Cell(f, g, k, n - 1)
  }

  ghost function Columns(f: seq<int>, g: seq<int>, n: nat): (r: seq<int>)
    requires |f| == |g| == 10 && n <= 10
    ensures |r| == 10
  {
    [Col(f, g, 0, n), Col(f, g, 1, n), Col(f, g, 2, n), Col(f, g, 3, n), Col(f, g, 4, n),
     Col(f, g, 5, n), Col(f, g, 6, n), Col(f, g, 7, n), Col(f, g, 8, n), Col(f, g, 9, n)]
  }

  ghost function Row(f: seq<int>, g: seq<int>, i: nat): (r: seq<int>)
    requires |f| == |g| == 10 && i < 10
    ensures |r| == 10
  {
    [Cell(f, g, 0, i), Cell(f, g, 1, i), Cell(f, g, 2, i), Cell(f, g, 3, i), Cell(f, g, 4, i),
     Cell(f, g, 5, i), Cell(f, g, 6, i), Cell(f, g, 7, i), Cell(f, g, 8, i), Cell(f, g, 9, i)]
  }

  lemma CongWith(a: int, b: int, k: int)
    requires a == b + k * Q
    ensures Cong(a, b)
  {
    hide Pow2;
    Pow2At255();
    assert a == b + Multiple(k);
  }

  lemma CongTrans(a: int, b: int, c: int)
    requires Cong(a, b) && Cong(b, c)
    ensures Cong(a, c)
  {
    var k := Witness(a, b);
    var m := Witness(b, c);
    CongWith(a, c, k + m);
  }

  lemma CongSym(a: int, b: int)
    requires Cong(a, b)
    ensures Cong(b, a)
  {
    var k := Witness(a, b);
    CongWith(b, a, -k);
  }

  lemma CongAdd(a: int, b: int, c: int, d: int)
    requires Cong(a, b) && Cong(c, d)
    ensures Cong(a + c, b + d) && Cong(a - c, b - d)
  {
    var k := Witness(a, b);
    var m := Witness(c, d);
    CongWith(a + c, b + d, k + m);
    CongWith(a - c, b - d, k - m);
  }

  lemma CongMul(a: int, b: int, c: int, d: int)
    requires Cong(a, b) && Cong(c, d)
    ensures Cong(a * c, b * d)
  {
    var k := Witness(a, b);
    var m := Witness(c, d);
    var t := k * d + m * b + k * m * Q;
    CongProduct(b, d, k, m, t);
    CongWith(a * c, b * d, t);
  }

  lemma CongProduct(b: int, d: int, k: int, m: int, t: int)
    requires t == k * d + m * b + k * m * Q
    ensures (b + k * Q) * (d + m * Q) == b * d + t * Q
  {
  }

  // the weight of limb i
  ghost function WeightAt(i: nat): int
    requires i < 10
  {
    if i == 0 then 1 else
    if i == 1 then 0x400_0000 else
    if i == 2 then 0x8_0000_0000_0000 else
    if i == 3 then 0x2000_0000_0000_0000_0000 else
    if i == 4 then 0x40_0000_0000_0000_0000_0000_0000 else
    if i == 5 then 0x1_0000_0000_0000_0000_0000_0000_0000_0000 else
    if i == 6 then 0x200_0000_0000_0000_0000_0000_0000_0000_0000_0000 else
    if i == 7 then 0x8_0000_0000_0000_0000_0000_0000_0000_0000_0000_0000_0000 else
    if i == 8 then 0x1000_0000_0000_0000_0000_0000_0000_0000_0000_0000_0000_0000_0000 else
    0x40_0000_0000_0000_0000_0000_0000_0000_0000_0000_0000_0000_0000_0000_0000
  }

  // the cells of row i that lie past 2^255, without their factor 19
  ghost function Past(f: seq<int>, g: seq<int>, k: nat, i: nat): int
    requires |f| == |g| == 10 && k < 10 && i < 10
  {
    if i <= k then 0
    else (if i % 2 == 1 && (k + 10 - i) % 2 == 1 then 2 else 1) * Prod(f[i], g[k + 10 - i])
  }

  lemma ProdWeigh(x: int, g: seq<int>)
    requires |g| == 10
    ensures Prod(x, Weigh(g)) == Weigh([Prod(x, g[0]), Prod(x, g[1]), Prod(x, g[2]), Prod(x, g[3]), Prod(x, g[4]),
                                        Prod(x, g[5]), Prod(x, g[6]), Prod(x, g[7]), Prod(x, g[8]), Prod(x, g[9])])
  {
  }

  ghost function PastRow(f: seq<int>, g: seq<int>, i: nat): (r: seq<int>)
    requires |f| == |g| == 10 && i < 10
    ensures |r| == 10
  {
    [Past(f, g, 0, i), Past(f, g, 1, i), Past(f, g, 2, i), Past(f, g, 3, i), Past(f, g, 4, i),
     Past(f, g, 5, i), Past(f, g, 6, i), Past(f, g, 7, i), Past(f, g, 8, i), Past(f, g, 9, i)]
  }

  // Row i weighs f_i * 2^(its position) * g, up to a multiple of the prime.
  ghost predicate RowEquation(f: seq<int>, g: seq<int>, i: nat)
    requires |f| == |g| == 10 && i < 10
  {
    Weigh(Row(f, g, i)) == WeightAt(i) * Prod(f[i], Weigh(g)) - Weigh(PastRow(f, g, i)) * Q
  }

  lemma Row0(f: seq<int>, g: seq<int>)
    requires |f| == |g| == 10
    ensures RowEquation(f, g, 0)
  {
    hide Prod;
    ProdWeigh(f[0], g);
  }

  lemma Row1(f: seq<int>, g: seq<int>)
    requires |f| == |g| == 10
    ensures RowEquation(f, g, 1)
  {
    hide Prod;
    ProdWeigh(f[1], g);
  }

  lemma Row2(f: seq<int>, g: seq<int>)
    requires |f| == |g| == 10
    ensures RowEquation(f, g, 2)
  {
    hide Prod;
    ProdWeigh(f[2], g);
  }

  lemma Row3(f: seq<int>, g: seq<int>)
    requires |f| == |g| == 10
    ensures RowEquation(f, g, 3)
  {
    hide Prod;
    ProdWeigh(f[3], g);
  }

  lemma Row4(f: seq<int>, g: seq<int>)
    requires |f| == |g| == 10
    ensures RowEquation(f, g, 4)
  {
    hide Prod;
    ProdWeigh(f[4], g);
  }

  lemma Row5(f: seq<int>, g: seq<int>)
    requires |f| == |g| == 10
    ensures RowEquation(f, g, 5)
  {
    hide Prod;
    ProdWeigh(f[5], g);
  }

  lemma Row6(f: seq<int>, g: seq<int>)
    requires |f| == |g| == 10
    ensures RowEquation(f, g, 6)
  {
    hide Prod;
    ProdWeigh(f[6], g);
  }

  lemma Row7(f: seq<int>, g: seq<int>)
    requires |f| == |g| == 10
    ensures RowEquation(f, g, 7)
  {
    hide Prod;
    ProdWeigh(f[7], g);
  }

  lemma Row8(f: seq<int>, g: seq<int>)
    requires |f| == |g| == 10
    ensures RowEquation(f, g, 8)
  {
    hide Prod;
    ProdWeigh(f[8], g);
  }

  lemma Row9(f: seq<int>, g: seq<int>)
    requires |f| == |g| == 10
    ensures RowEquation(f, g, 9)
  {
    hide Prod;
    ProdWeigh(f[9], g);
  }

  lemma RowValue(f: seq<int>, g: seq<int>, i: nat)
    requires |f| == |g| == 10 && i < 10
    ensures Cong(Weigh(Row(f, g, i)), WeightAt(i) * Prod(f[i], Weigh(g)))
  {
    hide Weigh, Row, PastRow, WeightAt, Prod, Cong;
    if i == 0 { Row0(f, g); } else if i == 1 { Row1(f, g); } else if i == 2 { Row2(f, g); }
    else if i == 3 { Row3(f, g); } else if i == 4 { Row4(f, g); } else if i == 5 { Row5(f, g); }
    else if i == 6 { Row6(f, g); } else if i == 7 { Row7(f, g); } else if i == 8 { Row8(f, g); }
    else { Row9(f, g); }
    CongWith(Weigh(Row(f, g, i)), WeightAt(i) * Prod(f[i], Weigh(g)), -Weigh(PastRow(f, g, i)));
  }

  // f restricted to its lowest n limbs, times y
  ghost function PartSum(f: seq<int>, y: int, n: nat): int
    requires |f| == 10 && n <= 10
    decreases n
  {
    if n == 0 then 0 else PartSum(f, y, n - 1) + WeightAt(n - 1) * Prod(f[n - 1], y)
  }

  lemma AddRow(f: seq<int>, g: seq<int>, n: nat)
    requires |f| == |g| == 10 && n < 10
    ensures Weigh(Columns(f, g, n + 1)) == Weigh(Columns(f, g, n)) + Weigh(Row(f, g, n))
  {
    hide Cell;
  }

  lemma {:induction false} RowsValue(f: seq<int>, g: seq<int>, n: nat)
    requires |f| == |g| == 10 && n <= 10
    ensures Cong(Weigh(Columns(f, g, n)), PartSum(f, Weigh(g), n))
  {
    if n == 0 {
      CongWith(Weigh(Columns(f, g, 0)), 0, 0);
    } else {
      RowsValue(f, g, n - 1);
      RowValue(f, g, n - 1);
      AddRow(f, g, n - 1);
      hide Weigh, Row, Columns, WeightAt, Prod, Cong;
      CongAdd(Weigh(Columns(f, g, n - 1)), PartSum(f, Weigh(g), n - 1),
              Weigh(Row(f, g, n - 1)), WeightAt(n - 1) * Prod(f[n - 1], Weigh(g)));
    }
  }

  // The columns weigh the product of the two field elements.
  lemma ColumnsValue(f: seq<int>, g: seq<int>)
    requires |f| == |g| == 10
    ensures Cong(Weigh(Columns(f, g, 10)), Weigh(f) * Weigh(g))
  {
    hide Columns, Cong;
    RowsValue(f, g, 10);
    PartSumAll(f, Weigh(g));
  }

  lemma PartSumAll(f: seq<int>, y: int)
    requires |f| == 10
    ensures PartSum(f, y, 10) == Weigh(f) * y
  {
  }

  // ----- the carry chain of fe_mul, fe_sq and fe_sq2 -----

  // A round-to-nearest carry out of a limb of width 26 or 25: what leaves it and what stays.
  ghost function Out26(x: int): int { (x + 0x200_0000) / 0x400_0000 }
  ghost function Out25(x: int): int { (x + 0x100_0000) / 0x200_0000 }
  ghost function Up26(x: int, y: int): int { y + Out26(x) }
  ghost function Up25(x: int, y: int): int { y + Out25(x) }
  ghost function Up25x19(x: int, y: int): int { y + Out25(x) * 19 }
  ghost function Rest26(x: int): int { x - Out26(x) * 0x400_0000 }
  ghost function Rest25(x: int): int { x - Out25(x) * 0x200_0000 }

  // Twelve carries: out of 0 and 4, 1 and 5, 2 and 6, 3 and 7, 4 and 8, out of 9 into 0, and out of 0 again.
  ghost function Carried(c: seq<int>): (h: seq<int>)
    requires |c| == 10
    ensures |h| == 10
  {
    var h1 := Up26(c[0], c[1]);
    var h5 := Up26(c[4], c[5]);
    var h2 := Up25(h1, c[2]);
    var h6 := Up25(h5, c[6]);
    var h3 := Up26(h2, c[3]);
    var h7 := Up26(h6, c[7]);
    var h4 := Up25(h3, Rest26(c[4]));
    var h8 := Up25(h7, c[8]);
    var h9 := Up26(h8, c[9]);
    var h0 := Up25x19(h9, Rest26(c[0]));
    [Rest26(h0), Up26(h0, Rest25(h1)), Rest26(h2), Rest25(h3), Rest26(h4),
     Up26(h4, Rest25(h5)), Rest26(h6), Rest25(h7), Rest26(h8), Rest25(h9)]
  }

  // what the chain carries out of the top limb
  ghost function TopCarry(c: seq<int>): int
    requires |c| == 10
  {
    var h5 := Up26(c[4], c[5]);
    var h7 := Up26(Up25(h5, c[6]), c[7]);
    Out25(Up26(Up25(h7, c[8]), c[9]))
  }

  // The value changes by a multiple of the prime.
  lemma CarriedValue(c: seq<int>)
    requires |c| == 10
    ensures Weigh(Carried(c)) == Weigh(c) - TopCarry(c) * Q
  {
    hide Out26, Out25;
  }

  const COLUMN_BOUND := 0x4000_0000_0000_0000

  lemma CarriedBounds(c: seq<int>)
    requires |c| == 10
    requires forall k :: 0 <= k < 10 ==> -COLUMN_BOUND <= c[k] <= COLUMN_BOUND
    ensures Within(Carried(c), E101)
  {
  }

  // the carry out of a limb of 26 bits, rounded to nearest, into the next limb
  method Carry26(x: int64, y: int64) returns (x': int64, y': int64)
    requires -0x5000_0000_0000_0000 <= x <= 0x5000_0000_0000_0000
    requires -0x5000_0000_0000_0000 <= y <= 0x5000_0000_0000_0000
    ensures y' as int == Up26(x as int, y as int) && x' as int == Rest26(x as int)
    ensures -0x200_0000 <= x' < 0x200_0000
    ensures y as int - 0x20_0000_0000 <= y' as int <= y as int + 0x20_0000_0000
  {
    var carry := (x + 0x200_0000) / 0x400_0000;
    y' := y + carry;
    x' := x - carry * 0x400_0000;
  }

  // the same for a limb of 25 bits
  method Carry25(x: int64, y: int64) returns (x': int64, y': int64)
    requires -0x5000_0000_0000_0000 <= x <= 0x5000_0000_0000_0000
    requires -0x5000_0000_0000_0000 <= y <= 0x5000_0000_0000_0000
    ensures y' as int == Up25(x as int, y as int) && x' as int == Rest25(x as int)
    ensures -0x100_0000 <= x' < 0x100_0000
    ensures y as int - 0x40_0000_0000 <= y' as int <= y as int + 0x40_0000_0000
  {
    var carry := (x + 0x100_0000) / 0x200_0000;
    y' := y + carry;
    x' := x - carry * 0x200_0000;
  }

  // the carry out of the top limb comes back into the lowest, 19-fold
  method Wrap25(x: int64, y: int64) returns (x': int64, y': int64)
    requires -0x5000_0000_0000_0000 <= x <= 0x5000_0000_0000_0000
    requires -0x5000_0000_0000_0000 <= y <= 0x5000_0000_0000_0000
    ensures y' as int == Up25x19(x as int, y as int) && x' as int == Rest25(x as int)
    ensures -0x100_0000 <= x' < 0x100_0000
    ensures y as int - 0x400_0000_0000 <= y' as int <= y as int + 0x400_0000_0000
  {
    var carry := (x + 0x100_0000) / 0x200_0000;
    y' := y + carry * 19;
    x' := x - carry * 0x200_0000;
  }

  method CarryChain(h0: int64, h1: int64, h2: int64, h3: int64, h4: int64,
                    h5: int64, h6: int64, h7: int64, h8: int64, h9: int64)
    returns (r0: int32, r1: int32, r2: int32, r3: int32, r4: int32,
             r5: int32, r6: int32, r7: int32, r8: int32, r9: int32)
    requires -COLUMN_BOUND <= h0 as int <= COLUMN_BOUND && -COLUMN_BOUND <= h1 as int <= COLUMN_BOUND
    requires -COLUMN_BOUND <= h2 as int <= COLUMN_BOUND && -COLUMN_BOUND <= h3 as int <= COLUMN_BOUND
    requires -COLUMN_BOUND <= h4 as int <= COLUMN_BOUND && -COLUMN_BOUND <= h5 as int <= COLUMN_BOUND
    requires -COLUMN_BOUND <= h6 as int <= COLUMN_BOUND && -COLUMN_BOUND <= h7 as int <= COLUMN_BOUND
    requires -COLUMN_BOUND <= h8 as int <= COLUMN_BOUND && -COLUMN_BOUND <= h9 as int <= COLUMN_BOUND
    ensures [r0 as int, r1 as int, r2 as int, r3 as int, r4 as int, r5 as int, r6 as int, r7 as int, r8 as int,
        r9 as int]
         == Carried([h0 as int, h1 as int, h2 as int, h3 as int, h4 as int, h5 as int, h6 as int, h7 as int,
             h8 as int, h9 as int])
  {
    ghost var c := [h0 as int, h1 as int, h2 as int, h3 as int, h4 as int, h5 as int, h6 as int, h7 as int,
        h8 as int, h9 as int];
    var h0, h1, h2, h3, h4, h5, h6, h7, h8, h9 := h0, h1, h2, h3, h4, h5, h6, h7, h8, h9;
    hide Up26, Up25, Up25x19, Rest26, Rest25;
    h0, h1 := Carry26(h0, h1);
    h4, h5 := Carry26(h4, h5);
    h1, h2 := Carry25(h1, h2);
    h5, h6 := Carry25(h5, h6);
    h2, h3 := Carry26(h2, h3);
    h6, h7 := Carry26(h6, h7);
    h3, h4 := Carry25(h3, h4);
    h7, h8 := Carry25(h7, h8);
    h4, h5 := Carry26(h4, h5);
    h8, h9 := Carry26(h8, h9);
    h9, h0 := Wrap25(h9, h0);
    h0, h1 := Carry26(h0, h1);
    CarriedBounds(c);
    r0, r1, r2, r3, r4 := h0 as int32, h1 as int32, h2 as int32, h3 as int32, h4 as int32;
    r5, r6, r7, r8, r9 := h5 as int32, h6 as int32, h7 as int32, h8 as int32, h9 as int32;
  }
}
