// The 23 columns of the product in sc_muladd, each an explicit sum of 64-bit products.
module ScProduct {
  import opened Ints
  import opened Arith
  import opened ScLimbs
  import opened ScDot

  // the 64-bit product of two limbs
  function Mul(x: int64, y: int64): (r: int64)
    requires 0 <= x < 0x200_0000 && 0 <= y < 0x200_0000
    ensures 0 <= r < 0x4_0000_0000_0000 && r as int == Prod(x as int, y as int)
  {
    MulAbs(x as int, y as int, 0x1FF_FFFF, 0x1FF_FFFF);
    MulMono(x as int, 0, y as int);
    x * y
  }

  ghost predicate Small(a: array<int64>)
    reads a
  {
    a.Length == 12 && forall k :: 0 <= k < 12 ==> 0 <= a[k] < 0x200_0000
  }

  // columns 0..5 of the schoolbook product
  method Columns0(a: array<int64>, b: array<int64>, c: array<int64>)
      returns (s0: int64, s1: int64, s2: int64, s3: int64, s4: int64, s5: int64)
    requires Small(a) && Small(b) && Small(c)
    ensures s0 as int == c[0] as int + Dot(a[..], b[..], 0, 12) && Abs(s0, 0x40_0000_0000_0000)
    ensures s1 as int == c[1] as int + Dot(a[..], b[..], 1, 12) && Abs(s1, 0x40_0000_0000_0000)
    ensures s2 as int == c[2] as int + Dot(a[..], b[..], 2, 12) && Abs(s2, 0x40_0000_0000_0000)
    ensures s3 as int == c[3] as int + Dot(a[..], b[..], 3, 12) && Abs(s3, 0x40_0000_0000_0000)
    ensures s4 as int == c[4] as int + Dot(a[..], b[..], 4, 12) && Abs(s4, 0x40_0000_0000_0000)
    ensures s5 as int == c[5] as int + Dot(a[..], b[..], 5, 12) && Abs(s5, 0x40_0000_0000_0000)
  {
    hide Mul, Prod, Dot;
    var a0, a1, a2, a3, a4, a5 := a[0], a[1], a[2], a[3], a[4], a[5];
    var b0, b1, b2, b3, b4, b5 := b[0], b[1], b[2], b[3], b[4], b[5];
    s0 := c[0] + Mul(a0, b0);
    s1 := c[1] + Mul(a0, b1) + Mul(a1, b0);
    s2 := c[2] + Mul(a0, b2) + Mul(a1, b1) + Mul(a2, b0);
    s3 := c[3] + Mul(a0, b3) + Mul(a1, b2) + Mul(a2, b1) + Mul(a3, b0);
    s4 := c[4] + Mul(a0, b4) + Mul(a1, b3) + Mul(a2, b2) + Mul(a3, b1) + Mul(a4, b0);
    s5 := c[5] + Mul(a0, b5) + Mul(a1, b4) + Mul(a2, b3) + Mul(a3, b2) + Mul(a4, b1) + Mul(a5, b0);
    ghost var u, v := a[..], b[..];
    DotAt(u, v, 0);
    DotAt(u, v, 1);
    DotAt(u, v, 2);
    DotAt(u, v, 3);
    DotAt(u, v, 4);
    DotAt(u, v, 5);
  }

  // columns 6..8 of the schoolbook product
  method Columns6(a: array<int64>, b: array<int64>, c: array<int64>) returns (s6: int64, s7: int64, s8: int64)
    requires Small(a) && Small(b) && Small(c)
    ensures s6 as int == c[6] as int + Dot(a[..], b[..], 6, 12) && Abs(s6, 0x40_0000_0000_0000)
    ensures s7 as int == c[7] as int + Dot(a[..], b[..], 7, 12) && Abs(s7, 0x40_0000_0000_0000)
    ensures s8 as int == c[8] as int + Dot(a[..], b[..], 8, 12) && Abs(s8, 0x40_0000_0000_0000)
  {
    hide Mul, Prod, Dot;
    var a0, a1, a2, a3, a4, a5, a6, a7, a8 := a[0], a[1], a[2], a[3], a[4], a[5], a[6], a[7], a[8];
    var b0, b1, b2, b3, b4, b5, b6, b7, b8 := b[0], b[1], b[2], b[3], b[4], b[5], b[6], b[7], b[8];
    s6 := c[6] + Mul(a0, b6) + Mul(a1, b5) + Mul(a2, b4) + Mul(a3, b3) + Mul(a4, b2) + Mul(a5, b1) + Mul(a6, b0);
    s7 := c[7] + Mul(a0, b7) + Mul(a1, b6) + Mul(a2, b5) + Mul(a3, b4) + Mul(a4, b3) + Mul(a5, b2) + Mul(a6, b1)
        + Mul(a7, b0);
    s8 := c[8] + Mul(a0, b8) + Mul(a1, b7) + Mul(a2, b6) + Mul(a3, b5) + Mul(a4, b4) + Mul(a5, b3) + Mul(a6, b2)
        + Mul(a7, b1) + Mul(a8, b0);
    ghost var u, v := a[..], b[..];
    DotAt(u, v, 6);
    DotAt(u, v, 7);
    DotAt(u, v, 8);
  }

  // columns 9..11 of the schoolbook product
  method Columns9(a: array<int64>, b: array<int64>, c: array<int64>) returns (s9: int64, s10: int64, s11: int64)
    requires Small(a) && Small(b) && Small(c)
    ensures s9 as int == c[9] as int + Dot(a[..], b[..], 9, 12) && Abs(s9, 0x40_0000_0000_0000)
    ensures s10 as int == c[10] as int + Dot(a[..], b[..], 10, 12) && Abs(s10, 0x40_0000_0000_0000)
    ensures s11 as int == c[11] as int + Dot(a[..], b[..], 11, 12) && Abs(s11, 0x40_0000_0000_0000)
  {
    hide Mul, Prod, Dot;
    var a0, a1, a2, a3, a4, a5, a6, a7, a8, a9, a10, a11 := a[0], a[1], a[2], a[3], a[4], a[5], a[6], a[7], a[8],
        a[9], a[10], a[11];
    var b0, b1, b2, b3, b4, b5, b6, b7, b8, b9, b10, b11 := b[0], b[1], b[2], b[3], b[4], b[5], b[6], b[7], b[8],
        b[9], b[10], b[11];
    s9 := c[9] + Mul(a0, b9) + Mul(a1, b8) + Mul(a2, b7) + Mul(a3, b6) + Mul(a4, b5) + Mul(a5, b4) + Mul(a6, b3)
        + Mul(a7, b2) + Mul(a8, b1) + Mul(a9, b0);
    s10 := c[10] + Mul(a0, b10) + Mul(a1, b9) + Mul(a2, b8) + Mul(a3, b7) + Mul(a4, b6) + Mul(a5, b5) + Mul(a6, b4)
        + Mul(a7, b3) + Mul(a8, b2) + Mul(a9, b1) + Mul(a10, b0);
    s11 := c[11] + Mul(a0, b11) + Mul(a1, b10) + Mul(a2, b9) + Mul(a3, b8) + Mul(a4, b7) + Mul(a5, b6) + Mul(a6, b5)
        + Mul(a7, b4) + Mul(a8, b3) + Mul(a9, b2) + Mul(a10, b1) + Mul(a11, b0);
    ghost var u, v := a[..], b[..];
    DotAt(u, v, 9);
    DotAt(u, v, 10);
    DotAt(u, v, 11);
  }

  // columns 12..14 of the schoolbook product
  method Columns12(a: array<int64>, b: array<int64>) returns (s12: int64, s13: int64, s14: int64)
    requires Small(a) && Small(b)
    ensures s12 as int == Dot(a[..], b[..], 12, 12) && Abs(s12, 0x40_0000_0000_0000)
    ensures s13 as int == Dot(a[..], b[..], 13, 12) && Abs(s13, 0x40_0000_0000_0000)
    ensures s14 as int == Dot(a[..], b[..], 14, 12) && Abs(s14, 0x40_0000_0000_0000)
  {
    hide Mul, Prod, Dot;
    var a1, a2, a3, a4, a5, a6, a7, a8, a9, a10, a11 := a[1], a[2], a[3], a[4], a[5], a[6], a[7], a[8], a[9], a[10],
        a[11];
    var b1, b2, b3, b4, b5, b6, b7, b8, b9, b10, b11 := b[1], b[2], b[3], b[4], b[5], b[6], b[7], b[8], b[9], b[10],
        b[11];
    s12 := Mul(a1, b11) + Mul(a2, b10) + Mul(a3, b9) + Mul(a4, b8) + Mul(a5, b7) + Mul(a6, b6) + Mul(a7, b5)
        + Mul(a8, b4) + Mul(a9, b3) + Mul(a10, b2) + Mul(a11, b1);
    s13 := Mul(a2, b11) + Mul(a3, b10) + Mul(a4, b9) + Mul(a5, b8) + Mul(a6, b7) + Mul(a7, b6) + Mul(a8, b5)
        + Mul(a9, b4) + Mul(a10, b3) + Mul(a11, b2);
    s14 := Mul(a3, b11) + Mul(a4, b10) + Mul(a5, b9) + Mul(a6, b8) + Mul(a7, b7) + Mul(a8, b6) + Mul(a9, b5)
        + Mul(a10, b4) + Mul(a11, b3);
    ghost var u, v := a[..], b[..];
    DotAt(u, v, 12);
    DotAt(u, v, 13);
    DotAt(u, v, 14);
  }

  // columns 15..22 of the schoolbook product
  method Columns15(a: array<int64>, b: array<int64>)
      returns (s15: int64, s16: int64, s17: int64, s18: int64, s19: int64, s20: int64, s21: int64, s22: int64)
    requires Small(a) && Small(b)
    ensures s15 as int == Dot(a[..], b[..], 15, 12) && Abs(s15, 0x40_0000_0000_0000)
    ensures s16 as int == Dot(a[..], b[..], 16, 12) && Abs(s16, 0x40_0000_0000_0000)
    ensures s17 as int == Dot(a[..], b[..], 17, 12) && Abs(s17, 0x40_0000_0000_0000)
    ensures s18 as int == Dot(a[..], b[..], 18, 12) && Abs(s18, 0x40_0000_0000_0000)
    ensures s19 as int == Dot(a[..], b[..], 19, 12) && Abs(s19, 0x40_0000_0000_0000)
    ensures s20 as int == Dot(a[..], b[..], 20, 12) && Abs(s20, 0x40_0000_0000_0000)
    ensures s21 as int == Dot(a[..], b[..], 21, 12) && Abs(s21, 0x40_0000_0000_0000)
    ensures s22 as int == Dot(a[..], b[..], 22, 12) && Abs(s22, 0x40_0000_0000_0000)
  {
    hide Mul, Prod, Dot;
    var a4, a5, a6, a7, a8, a9, a10, a11 := a[4], a[5], a[6], a[7], a[8], a[9], a[10], a[11];
    var b4, b5, b6, b7, b8, b9, b10, b11 := b[4], b[5], b[6], b[7], b[8], b[9], b[10], b[11];
    s15 := Mul(a4, b11) + Mul(a5, b10) + Mul(a6, b9) + Mul(a7, b8) + Mul(a8, b7) + Mul(a9, b6) + Mul(a10, b5)
        + Mul(a11, b4);
    s16 := Mul(a5, b11) + Mul(a6, b10) + Mul(a7, b9) + Mul(a8, b8) + Mul(a9, b7) + Mul(a10, b6) + Mul(a11, b5);
    s17 := Mul(a6, b11) + Mul(a7, b10) + Mul(a8, b9) + Mul(a9, b8) + Mul(a10, b7) + Mul(a11, b6);
    s18 := Mul(a7, b11) + Mul(a8, b10) + Mul(a9, b9) + Mul(a10, b8) + Mul(a11, b7);
    s19 := Mul(a8, b11) + Mul(a9, b10) + Mul(a10, b9) + Mul(a11, b8);
    s20 := Mul(a9, b11) + Mul(a10, b10) + Mul(a11, b9);
    s21 := Mul(a10, b11) + Mul(a11, b10);
    s22 := Mul(a11, b11);
    ghost var u, v := a[..], b[..];
    DotAt(u, v, 15);
    DotAt(u, v, 16);
    DotAt(u, v, 17);
    DotAt(u, v, 18);
    DotAt(u, v, 19);
    DotAt(u, v, 20);
    DotAt(u, v, 21);
    DotAt(u, v, 22);
  }

  method Columns(a: array<int64>, b: array<int64>, c: array<int64>) returns (s: array<int64>)
    requires Small(a) && Small(b) && Small(c)
    ensures fresh(s) && s.Length == 24
    ensures forall k :: 0 <= k < 12 ==> s[k] as int == c[k] as int + Dot(a[..], b[..], k, 12)
    ensures forall k :: 12 <= k < 23 ==> s[k] as int == Dot(a[..], b[..], k, 12)
    ensures s[23] == 0
    ensures forall k :: 0 <= k < 23 ==> Abs(s[k], 0x40_0000_0000_0000)
  {
    hide Dot;
    var s0, s1, s2, s3, s4, s5 := Columns0(a, b, c);
    var s6, s7, s8 := Columns6(a, b, c);
    var s9, s10, s11 := Columns9(a, b, c);
    var s12, s13, s14 := Columns12(a, b);
    var s15, s16, s17, s18, s19, s20, s21, s22 := Columns15(a, b);
    s := new int64[] [
      s0, s1, s2, s3, s4, s5, s6, s7, s8, s9, s10, s11,
      s12, s13, s14, s15, s16, s17, s18, s19, s20, s21, s22, 0
    ];
  }

  lemma DotAt(a: seq<int64>, b: seq<int64>, k: nat)
    requires |a| == 12
    ensures Dot(a, b, k, 12) == Term2(a, b, k, 0) + Term2(a, b, k, 1) + Term2(a, b, k, 2) + Term2(a, b, k, 3)
      + Term2(a, b, k, 4) + Term2(a, b, k, 5) + Term2(a, b, k, 6) + Term2(a, b, k, 7)
      + Term2(a, b, k, 8) + Term2(a, b, k, 9) + Term2(a, b, k, 10) + Term2(a, b, k, 11)
  {
    hide Term2;
  }
}
