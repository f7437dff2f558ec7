// sc_reduce and sc_muladd: exact reduction modulo the group order.
module Sc {
  import opened Ints
  import opened Bits
  import opened Bytes
  import opened ScLimbs
  import opened ScBytes
  import opened ScDot
  import opened ScProduct

  // l holds the limbs of v, the last one up to 25 bits wide
  ghost predicate Limbs(l: seq<int64>, v: nat) {
    && |l| >= 12
    && (forall k :: 0 <= k < 11 ==> l[k] as int == Field(v, 21 * k, 21))
    && l[11] as int == Field(v, 231, 25)
  }

  // the low byte of limb i without its sh low bits
  function Shr(l: array<int64>, i: nat, sh: nat, ghost v: nat): (r: byte)
    requires Limbs(l[..], v) && i < 12 && sh + 8 <= if i < 11 then 21 else 25
    reads l
    ensures r as nat == Field(v, 21 * i + sh, 8)
  {
    assert l[i] == l[..][i];
    ShrByteField(l[i], sh, v, 21 * i, if i < 11 then 21 else 25);
    ShrByte(l[i], sh)
  }

  // the low byte of limb i without its sh low bits, joined with the next limb moved up
  function ShrOr(l: array<int64>, i: nat, sh: nat, up: nat, ghost v: nat): (r: byte)
    requires Limbs(l[..], v) && i < 11 && sh + up == 21 && up <= 8
    reads l
    ensures r as nat == Field(v, 21 * i + sh, 8)
  {
    assert l[i] == l[..][i] && l[i + 1] == l[..][i + 1];
    OrByteField(l[i], sh, l[i + 1], up, v, 21 * i, if i < 10 then 21 else 25);
    OrByte(l[i], sh, l[i + 1], up)
  }

  // bytes lo..hi of the 32 at offset off are those of v
  ghost predicate BytesOf(s: array<byte>, off: nat, lo: nat, hi: nat, v: nat)
    requires lo <= hi && off + hi <= s.Length
    reads s
  {
    forall k :: lo <= k < hi ==> s[off + k] as nat == Field(v, 8 * k, 8)
  }

  method PackLow(s: array<byte>, off: nat, l: array<int64>, ghost v: nat)
    requires off + 32 <= s.Length && Limbs(l[..], v)
    modifies s
    ensures BytesOf(s, off, 0, 11, v)
    ensures forall k :: 0 <= k < s.Length && !(off + 0 <= k < off + 11) ==> s[k] == old(s[k])
  {
    hide Limbs, Field, Shr, ShrOr;
    s[off + 0] := Shr(l, 0, 0, v);
    s[off + 1] := Shr(l, 0, 8, v);
    s[off + 2] := ShrOr(l, 0, 16, 5, v);
    s[off + 3] := Shr(l, 1, 3, v);
    s[off + 4] := Shr(l, 1, 11, v);
    s[off + 5] := ShrOr(l, 1, 19, 2, v);
    s[off + 6] := Shr(l, 2, 6, v);
    s[off + 7] := ShrOr(l, 2, 14, 7, v);
    s[off + 8] := Shr(l, 3, 1, v);
    s[off + 9] := Shr(l, 3, 9, v);
    s[off + 10] := ShrOr(l, 3, 17, 4, v);
  }

  method PackMid(s: array<byte>, off: nat, l: array<int64>, ghost v: nat)
    requires off + 32 <= s.Length && Limbs(l[..], v)
    modifies s
    ensures BytesOf(s, off, 11, 21, v)
    ensures forall k :: 0 <= k < s.Length && !(off + 11 <= k < off + 21) ==> s[k] == old(s[k])
  {
    hide Limbs, Field, Shr, ShrOr;
    s[off + 11] := Shr(l, 4, 4, v);
    s[off + 12] := Shr(l, 4, 12, v);
    s[off + 13] := ShrOr(l, 4, 20, 1, v);
    s[off + 14] := Shr(l, 5, 7, v);
    s[off + 15] := ShrOr(l, 5, 15, 6, v);
    s[off + 16] := Shr(l, 6, 2, v);
    s[off + 17] := Shr(l, 6, 10, v);
    s[off + 18] := ShrOr(l, 6, 18, 3, v);
    s[off + 19] := Shr(l, 7, 5, v);
    s[off + 20] := Shr(l, 7, 13, v);
  }

  method PackHigh(s: array<byte>, off: nat, l: array<int64>, ghost v: nat)
    requires off + 32 <= s.Length && Limbs(l[..], v)
    modifies s
    ensures BytesOf(s, off, 21, 32, v)
    ensures forall k :: 0 <= k < s.Length && !(off + 21 <= k < off + 32) ==> s[k] == old(s[k])
  {
    hide Limbs, Field, Shr, ShrOr;
    s[off + 21] := Shr(l, 8, 0, v);
    s[off + 22] := Shr(l, 8, 8, v);
    s[off + 23] := ShrOr(l, 8, 16, 5, v);
    s[off + 24] := Shr(l, 9, 3, v);
    s[off + 25] := Shr(l, 9, 11, v);
    s[off + 26] := ShrOr(l, 9, 19, 2, v);
    s[off + 27] := Shr(l, 10, 6, v);
    s[off + 28] := ShrOr(l, 10, 14, 7, v);
    s[off + 29] := Shr(l, 11, 1, v);
    s[off + 30] := Shr(l, 11, 9, v);
    s[off + 31] := Shr(l, 11, 17, v);
  }

  // The 32 output bytes of a canonical limb vector.
  method Pack(s: array<byte>, off: nat, l: array<int64>)
    requires off + 32 <= s.Length && l.Length == 24
    requires forall k :: 0 <= k < 11 ==> 0 <= l[k] < 0x20_0000
    requires 0 <= l[11] <= 0x20_0000
    requires forall k :: 12 <= k < 24 ==> l[k] == 0
    requires Val(l[..]) < L
    modifies s
    ensures LE(s[off..off + 32]) == Val(l[..])
    ensures forall k :: 0 <= k < s.Length && !(off <= k < off + 32) ==> s[k] == old(s[k])
  {
    ghost var v := LimbsOf(l[..]);
    PackLow(s, off, l, v);
    PackMid(s, off, l, v);
    PackHigh(s, off, l, v);
    assert BytesOf(s, off, 0, 32, v);
    OutputValue(s[off..off + 32], v);
  }

  lemma LimbsOf(l: seq<int64>) returns (v: nat)
    requires |l| == 24
    requires forall k :: 0 <= k < 11 ==> 0 <= l[k] < 0x20_0000
    requires 0 <= l[11] <= 0x20_0000
    requires forall k :: 12 <= k < 24 ==> l[k] == 0
    ensures v == Val(l) && Limbs(l, v)
  {
    hide Val, Field;
    TopIsField(l, 11);
    v := Val(l);
    forall k | 0 <= k < 11 ensures l[k] as int == Field(v, 21 * k, 21) {
      LimbIsField(l, k);
    }
  }

  lemma OutputValue(b: seq<byte>, v: nat)
    requires |b| == 32 && v < L
    requires forall k :: 0 <= k < 32 ==> b[k] as nat == Field(v, 8 * k, 8)
    ensures LE(b) == v
  {
    LEOfFields(b, v);
    Pow2At256();
    FieldAll(v, 256);
  }

  // the value and the size of unpacked limbs
  lemma Unpacked(l: seq<int64>, v: nat, m: nat, top: nat)
    requires |l| == m + 1 && top <= 29
    requires forall k :: 0 <= k < m ==> l[k] as int == Field(v, 21 * k, 21)
    requires l[m] as int == Field(v, 21 * m, top)
    ensures Val(l) == Field(v, 0, 21 * m + top)
    ensures forall k :: 0 <= k < m ==> 0 <= l[k] < 0x20_0000
    ensures 0 <= l[m] as int < Pow2(top)
  {
    hide Pow2, Val, P, Field;
    ValOfFields(l[..m], v);
    ValTop(l, m);
    PIsPow2(m);
    FieldJoin(v, 0, 21 * m, top);
    FieldBound(v, 21 * m, top);
    Pow2At21();
    forall k | 0 <= k < m ensures 0 <= l[k] < 0x20_0000 {
      FieldBound(v, 21 * k, 21);
    }
  }

  lemma FirstBytes(b: seq<byte>, n: nat)
    requires n <= |b|
    ensures LE(b[..n]) == Field(LE(b), 0, 8 * n)
  {
    LEField(b, 0, n);
    assert b[0..n] == b[..n];
  }

  lemma TopBounds()
    ensures Pow2(25) == 0x200_0000 && Pow2(29) == 0x2000_0000
  {
    hide Pow2;
    Pow2At21();
    Pow2At16();
    Pow2Add(21, 4);
    Pow2Add(25, 4);
  }

  method Load24(s: array<byte>) returns (l: array<int64>)
    requires s.Length >= 64
    ensures fresh(l) && l.Length == 24
    ensures Val(l[..]) == LE(s[..64])
    ensures forall k :: 0 <= k < 24 ==> Abs(l[k], 0x4_0000_0000)
  {
    hide *;
    l := Unpack24(s);
    Unpacked(l[..], LE(s[..]), 23, 29);
    FirstBytes(s[..], 64);
    assert s[..][..64] == s[..64];
    TopBounds();
    forall k | 0 <= k < 24 ensures Abs(l[k], 0x4_0000_0000) {
      AbsOf(l[..][k], 0x2000_0000, 0x4_0000_0000);
    }
  }

  lemma AbsOf(x: int64, b: int, c: int)
    requires 0 <= x as int <= b <= c
    ensures Abs(x, c)
  {
  }

  // sc_reduce: the low 32 bytes of s become the value of s modulo the group order.
  method Reduce(s: array<byte>)
    requires s.Length >= 64
    modifies s
    ensures LE(s[..32]) == old(LE(s[..64])) % L
    ensures forall k :: 32 <= k < s.Length ==> s[k] == old(s[k])
  {
    hide LE, Val;
    var l := Load24(s);
    ReduceLimbs(l);
    Pack(s, 0, l);
    assert s[0..0 + 32] == s[..32];
  }

  method Load12(a: array<byte>) returns (l: array<int64>)
    requires a.Length >= 32
    ensures fresh(l) && Small(l)
    ensures Val(l[..]) == LE(a[..32])
  {
    l := Unpack12(a);
    hide LE, Val, Field, Pow2;
    Unpacked(l[..], LE(a[..]), 11, 25);
    FirstBytes(a[..], 32);
    assert a[..][..32] == a[..32];
    TopBounds();
    forall k | 0 <= k < 12 ensures 0 <= l[k] < 0x200_0000 {
      assert l[k] == l[..][k];
    }
  }

  // carry0, carry2, .., carry10
  method CarryColumns0(s: array<int64>)
    requires s.Length == 24
    requires forall k :: 0 <= k < 12 ==> Abs(s[k], 0x40_0000_0000_0000)
    modifies s
    ensures Val(s[..]) == old(Val(s[..]))
    ensures forall k :: 0 <= k < 12 ==> Abs(s[k], 0x40_0002_0000_0001)
    ensures forall k :: 0 <= k < 12 && k % 2 == 0 ==> Abs(s[k], 0x10_0000)
    ensures forall k :: 12 <= k < 24 ==> s[k] == old(s[k])
  {
    hide Carried, Val;
    ghost var b, d := 0x40_0000_0000_0000, 0x40_0000_0000_0000;
    Carry(s, 0, b, d);
    Carry(s, 2, b, d);
    Carry(s, 4, b, d);
    Carry(s, 6, b, d);
    Carry(s, 8, b, d);
    Carry(s, 10, b, d);
  }

  // carry12, carry14, .., carry22
  method CarryColumns12(s: array<int64>)
    requires s.Length == 24
    requires forall k :: 12 <= k < 23 ==> Abs(s[k], 0x40_0000_0000_0000)
    requires s[23] == 0
    modifies s
    ensures Val(s[..]) == old(Val(s[..]))
    ensures forall k :: 12 <= k < 23 ==> Abs(s[k], 0x40_0002_0000_0001)
    ensures Abs(s[23], 0x2_0000_0001)
    ensures forall k :: 12 <= k < 23 && k % 2 == 0 ==> Abs(s[k], 0x10_0000)
    ensures forall k :: 0 <= k < 12 ==> s[k] == old(s[k])
  {
    hide Carried, Val;
    ghost var b, d := 0x40_0000_0000_0000, 0x40_0000_0000_0000;
    Carry(s, 12, b, d);
    Carry(s, 14, b, d);
    Carry(s, 16, b, d);
    Carry(s, 18, b, d);
    Carry(s, 20, b, d);
    Carry(s, 22, b, 0);
  }

  // carry1, carry3, .., carry11
  method CarryColumns1(s: array<int64>)
    requires s.Length == 24
    requires forall k :: 0 <= k < 13 ==> Abs(s[k], 0x40_0002_0000_0001)
    requires forall k :: 0 <= k < 13 && k % 2 == 0 ==> Abs(s[k], 0x10_0000)
    modifies s
    ensures Val(s[..]) == old(Val(s[..]))
    ensures forall k :: 0 <= k < 12 ==> Abs(s[k], 0x4_0000_0000)
    ensures Abs(s[12], 0x2_0020_0002)
    ensures forall k :: 13 <= k < 24 ==> s[k] == old(s[k])
  {
    hide Carried, Val;
    ghost var b, d := 0x40_0002_0000_0001, 0x10_0000;
    Carry(s, 1, b, d);
    Carry(s, 3, b, d);
    Carry(s, 5, b, d);
    Carry(s, 7, b, d);
    Carry(s, 9, b, d);
    Carry(s, 11, b, d);
  }

  // carry13, carry15, .., carry21
  method CarryColumns13(s: array<int64>)
    requires s.Length == 24
    requires Abs(s[12], 0x2_0020_0002) && Abs(s[23], 0x2_0000_0001)
    requires forall k :: 13 <= k < 23 ==> Abs(s[k], 0x40_0002_0000_0001)
    requires forall k :: 13 <= k < 23 && k % 2 == 0 ==> Abs(s[k], 0x10_0000)
    modifies s
    ensures Val(s[..]) == old(Val(s[..]))
    ensures forall k :: 12 <= k < 24 ==> Abs(s[k], 0x4_0000_0000)
    ensures forall k :: 0 <= k < 12 ==> s[k] == old(s[k])
  {
    hide Carried, Val;
    ghost var b, d := 0x40_0002_0000_0001, 0x10_0000;
    Carry(s, 13, b, d);
    Carry(s, 15, b, d);
    Carry(s, 17, b, d);
    Carry(s, 19, b, d);
    Carry(s, 21, b, d);
  }

  // carry0, carry2, .., carry22 and then carry1, carry3, .., carry21 on the columns of the product
  method CarryColumns(s: array<int64>)
    requires s.Length == 24
    requires forall k :: 0 <= k < 23 ==> Abs(s[k], 0x40_0000_0000_0000)
    requires s[23] == 0
    modifies s
    ensures Val(s[..]) == old(Val(s[..]))
    ensures forall k :: 0 <= k < 24 ==> Abs(s[k], 0x4_0000_0000)
  {
    hide Val;
    CarryColumns0(s);
    CarryColumns12(s);
    CarryColumns1(s);
    CarryColumns13(s);
  }

  // The columns, read as limbs, have the value of a * b + c.
  lemma ColumnsValue(s: seq<int64>, a: seq<int64>, b: seq<int64>, c: seq<int64>)
    requires |s| == 24 && |a| == |b| == |c| == 12
    requires forall k :: 0 <= k < 12 ==> s[k] as int == c[k] as int + Dot(a, b, k, 12)
    requires forall k :: 12 <= k < 23 ==> s[k] as int == Dot(a, b, k, 12)
    requires s[23] == 0
    ensures Val(s) == Val(a) * Val(b) + Val(c)
  {
    hide Val, Rows, Dot, P;
    assert a[..12] == a;
    RowsValue(a, b, 12, 23);
    ColumnsPrefix(s, a, b, c, 12);
    assert s[..12] + s[12..] == s && c[..12] == c;
    ColumnsSuffix(s, a, b, 12, 23);
    ValTop(s, 23);
  }

  lemma {:induction false} ColumnsPrefix(s: seq<int64>, a: seq<int64>, b: seq<int64>, c: seq<int64>, n: nat)
    requires |s| == 24 && |a| == |b| == |c| == 12 && n <= 12
    requires forall k :: 0 <= k < 12 ==> s[k] as int == c[k] as int + Dot(a, b, k, 12)
    ensures Val(s[..n]) == Rows(a, b, 12, n) + Val(c[..n])
  {
    hide Dot, P;
    if n > 0 {
      ColumnsPrefix(s, a, b, c, n - 1);
      ValNext(s, n - 1);
      ValNext(c, n - 1);
      Spread(P(n - 1), c[n - 1] as int, Dot(a, b, n - 1, 12));
    }
  }

  lemma Spread(p: int, x: int, y: int)
    ensures p * (x + y) == p * x + p * y
  {
  }

  lemma {:induction false} ColumnsSuffix(s: seq<int64>, a: seq<int64>, b: seq<int64>, m: nat, n: nat)
    requires |s| == 24 && |a| == |b| == 12 && m <= n <= 23
    requires forall k :: m <= k < n ==> s[k] as int == Dot(a, b, k, 12)
    ensures Val(s[..n]) - Val(s[..m]) == Rows(a, b, 12, n) - Rows(a, b, 12, m)
  {
    hide Dot, P;
    if n > m {
      ColumnsSuffix(s, a, b, m, n - 1);
      ValNext(s, n - 1);
    }
  }

  // sc_muladd: the 32 bytes of s at off become (a * b + c) modulo the group order.
  method MulAdd(s: array<byte>, off: nat, a: array<byte>, b: array<byte>, c: array<byte>)
    requires off + 32 <= s.Length && a.Length >= 32 && b.Length >= 32 && c.Length >= 32
    modifies s
    ensures LE(s[off..off + 32]) == old((LE(a[..32]) * LE(b[..32]) + LE(c[..32])) % L)
    ensures forall k :: 0 <= k < s.Length && !(off <= k < off + 32) ==> s[k] == old(s[k])
  {
    hide LE, Val, Dot;
    ghost var x, y, z := LE(a[..32]), LE(b[..32]), LE(c[..32]);
    var la := Load12(a);
    var lb := Load12(b);
    var lc := Load12(c);
    var l := Columns(la, lb, lc);
    ColumnsValue(l[..], la[..], lb[..], lc[..]);
    CarryColumns(l);
    ReduceLimbs(l);
    Pack(s, off, l);
  }
}
