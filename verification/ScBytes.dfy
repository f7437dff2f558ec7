// Unpacking bytes into 21-bit limbs: the limbs are the bit fields of the little-endian value.
module ScBytes {
  import opened Ints
  import opened Arith
  import opened Bits
  import opened Bytes
  import opened ScLimbs

  // 21 bits of the three bytes at off, from bit sh on
  function Limb3(a: array<byte>, off: nat, sh: nat): (r: int64)
    requires off + 3 <= a.Length && sh <= 3
    reads a
    ensures r as int == Field(LE(a[..]), 8 * off + sh, 21)
  {
    LimbField(LE(a[..]), 8 * off, 24, sh);
    (Load3(a, off) as nat / Pow2(sh) % 0x20_0000) as int64
  }

  // 21 bits of the four bytes at off, from bit sh on
  function Limb4(a: array<byte>, off: nat, sh: nat): (r: int64)
    requires off + 4 <= a.Length && sh <= 7
    reads a
    ensures r as int == Field(LE(a[..]), 8 * off + sh, 21)
  {
    LimbField(LE(a[..]), 8 * off, 32, sh);
    (Load4(a, off) as nat / Pow2(sh) % 0x20_0000) as int64
  }

  // the four bytes at off without their sh low bits
  function Top(a: array<byte>, off: nat, sh: nat): (r: int64)
    requires off + 4 <= a.Length && sh <= 7
    reads a
    ensures r as int == Field(LE(a[..]), 8 * off + sh, 32 - sh)
  {
    TopField(LE(a[..]), 8 * off, 32, sh);
    (Load4(a, off) as nat / Pow2(sh)) as int64
  }

  lemma FieldOfField(x: nat, sh: nat)
    ensures Pow2(sh) > 0
    ensures x / Pow2(sh) % 0x20_0000 == Field(x, sh, 21)
  {
    hide Pow2;
    Pow2Positive(sh);
    assert Pow2(21) == 0x20_0000 by { Pow2At21(); }
  }

  lemma LimbField(v: nat, lo: nat, m: nat, sh: nat)
    requires sh + 21 <= m
    ensures Pow2(sh) > 0
    ensures Field(v, lo, m) / Pow2(sh) % 0x20_0000 == Field(v, lo + sh, 21)
  {
    FieldOfField(Field(v, lo, m), sh);
    FieldField(v, lo, m, sh, 21);
  }

  // The 24 limbs of a 64-byte number.
  method Unpack24(s: array<byte>) returns (l: array<int64>)
    requires s.Length >= 64
    ensures fresh(l) && l.Length == 24
    ensures forall k :: 0 <= k < 23 ==> l[k] as int == Field(LE(s[..]), 21 * k, 21)
    ensures l[23] as int == Field(LE(s[..]), 483, 29)
  {
    hide *;
    l := new int64[] [
      Limb3(s, 0, 0), Limb4(s, 2, 5), Limb3(s, 5, 2), Limb4(s, 7, 7),
      Limb4(s, 10, 4), Limb3(s, 13, 1), Limb4(s, 15, 6), Limb3(s, 18, 3),
      Limb3(s, 21, 0), Limb4(s, 23, 5), Limb3(s, 26, 2), Limb4(s, 28, 7),
      Limb4(s, 31, 4), Limb3(s, 34, 1), Limb4(s, 36, 6), Limb3(s, 39, 3),
      Limb3(s, 42, 0), Limb4(s, 44, 5), Limb3(s, 47, 2), Limb4(s, 49, 7),
      Limb4(s, 52, 4), Limb3(s, 55, 1), Limb4(s, 57, 6), Top(s, 60, 3)
    ];
  }

  // The 12 limbs of a 32-byte number.
  method Unpack12(a: array<byte>) returns (l: array<int64>)
    requires a.Length >= 32
    ensures fresh(l) && l.Length == 12
    ensures forall k :: 0 <= k < 11 ==> l[k] as int == Field(LE(a[..]), 21 * k, 21)
    ensures l[11] as int == Field(LE(a[..]), 231, 25)
  {
    hide *;
    l := new int64[] [
      Limb3(a, 0, 0), Limb4(a, 2, 5), Limb3(a, 5, 2), Limb4(a, 7, 7),
      Limb4(a, 10, 4), Limb3(a, 13, 1), Limb4(a, 15, 6), Limb3(a, 18, 3),
      Limb3(a, 21, 0), Limb4(a, 23, 5), Limb3(a, 26, 2), Top(a, 28, 7)
    ];
  }

  lemma {:induction false} ValOfFields(l: seq<int64>, v: nat)
    requires forall k :: 0 <= k < |l| ==> l[k] as int == Field(v, 21 * k, 21)
    ensures Val(l) == Field(v, 0, 21 * |l|)
  {
    hide Pow2, P;
    if |l| > 0 {
      var n := |l| - 1;
      ValOfFields(l[..n], v);
      ValTop(l, n);
      FieldJoin(v, 0, 21 * n, 21);
      PIsPow2(n);
    } else {
      FieldEmpty(v, 0);
    }
  }

  lemma {:induction false} PIsPow2(n: nat)
    ensures P(n) == Pow2(21 * n)
  {
    hide Pow2;
    if n > 0 {
      PIsPow2(n - 1);
      Pow2Add(21, 21 * (n - 1));
      Pow2At21();
    } else {
      Pow2Zero();
    }
  }

  lemma {:induction false} ValNonNegative(l: seq<int64>)
    requires forall j :: 0 <= j < |l| ==> 0 <= l[j]
    ensures Val(l) >= 0
  {
    if |l| > 0 {
      ValNonNegative(l[1..]);
    }
  }

  // Dividing the value by 2^(21k) drops the limbs below k.
  lemma ValDrop(l: seq<int64>, k: nat)
    requires k < |l|
    requires forall j :: 0 <= j < |l| ==> 0 <= l[j]
    requires forall j :: 0 <= j < k ==> l[j] < 0x20_0000
    ensures Val(l) >= 0 && Pow2(21 * k) > 0
    ensures Val(l) / Pow2(21 * k) == Val(l[k..])
  {
    hide P, Val, Pow2;
    ValNonNegative(l);
    ValNonNegative(l[k..]);
    Pow2Positive(21 * k);
    PIsPow2(k);
    ValSplit(l, k);
    ValDigits(l[..k]);
    DivMod(Val(l), P(k), Val(l[k..]), Val(l[..k]));
  }

  // limb k of a canonical limb vector is the field of its value at bit 21k
  lemma LimbIsField(l: seq<int64>, k: nat)
    requires k < |l|
    requires forall j :: 0 <= j < |l| ==> 0 <= l[j]
    requires forall j :: 0 <= j <= k ==> l[j] < 0x20_0000
    ensures Val(l) >= 0 && l[k] as int == Field(Val(l), 21 * k, 21)
  {
    hide Pow2;
    ValDrop(l, k);
    var t := l[k..];
    ValNonNegative(t[1..]);
    assert Val(t) == Val(t[1..]) * X + t[0] as int;
    DivMod(Val(t), X, Val(t[1..]), t[0] as int);
    Pow2At21();
  }

  lemma TopIsField(l: seq<int64>, k: nat)
    requires k < |l|
    requires forall j :: 0 <= j < k ==> 0 <= l[j] < 0x20_0000
    requires 0 <= l[k] < 0x200_0000 && forall j :: k < j < |l| ==> l[j] == 0
    ensures Val(l) >= 0 && l[k] as int == Field(Val(l), 21 * k, 25)
  {
    hide Pow2;
    ValDrop(l, k);
    ValZero(l[k..][1..]);
    assert Val(l[k..]) == l[k] as int;
    Pow2Add(21, 4);
    Pow2At21();
    assert Pow2(4) == 16 by { Pow2At16(); }
  }
}
