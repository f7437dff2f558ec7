// Bit fields of natural numbers, and the two facts that relate every packing in the sources:
// a field of a field is a field, and adjacent fields concatenate.
module Bits {
  import opened Ints
  import opened Arith

  function Pow2(n: nat): nat {
    if n == 0 then 1 else 2 * Pow2(n - 1)
  }

  // the n bits of v from bit lo upwards
  ghost function Field(v: nat, lo: nat, n: nat): nat {
    Pow2Positive(lo);
    Pow2Positive(n);
    v / Pow2(lo) % Pow2(n)
  }

  lemma Pow2Positive(n: nat)
    ensures Pow2(n) > 0
  {
  }

  lemma Pow2Zero()
    ensures Pow2(0) == 1
  {
  }

  lemma Pow2At32()
    ensures Pow2(32) == 0x1_0000_0000
  {
    hide Pow2;
    Pow2Add(16, 16);
    assert Pow2(16) == 0x1_0000 by { Pow2At16(); }
  }

  lemma Pow2At16()
    ensures Pow2(16) == 0x1_0000 && Pow2(4) == 16 && Pow2(5) == 32 && Pow2(8) == 256
  {
  }

  lemma Pow2At21()
    ensures Pow2(21) == 0x20_0000
  {
    hide Pow2;
    Pow2Add(16, 5);
    Pow2At16();
  }

  lemma {:induction false} Pow2Mono(a: nat, b: nat)
    requires a <= b
    ensures Pow2(a) <= Pow2(b)
    decreases b
  {
    if a < b {
      Pow2Mono(a, b - 1);
    }
  }

  lemma {:induction false} Pow2Add(a: nat, b: nat)
    ensures Pow2(a + b) == Pow2(a) * Pow2(b)
  {
    if b > 0 {
      Pow2Add(a, b - 1);
    }
  }

  lemma Pow2At255()
    ensures Pow2(255) == 0x8000_0000_0000_0000_0000_0000_0000_0000_0000_0000_0000_0000_0000_0000_0000_0000
  {
    hide Pow2;
    Pow2At32();
    Pow2At16();
    Pow2At21();
    Pow2Add(32, 32);
    Pow2Add(64, 64);
    Pow2Add(128, 64);
    Pow2Add(192, 32);
    Pow2Add(224, 21);
    Pow2Add(245, 5);
    Pow2Add(250, 5);
  }

  lemma Pow2At256()
    ensures Pow2(256) == 2 * Pow2(255)
    ensures Pow2(256) == 0x1_0000_0000_0000_0000_0000_0000_0000_0000_0000_0000_0000_0000_0000_0000_0000_0000
  {
    Pow2At255();
  }

  lemma FieldBound(v: nat, lo: nat, n: nat)
    ensures Field(v, lo, n) < Pow2(n)
  {
    Pow2Positive(n);
  }

  lemma FieldEmpty(v: nat, lo: nat)
    ensures Field(v, lo, 0) == 0
  {
    Pow2Zero();
  }

  lemma FieldJoin(v: nat, lo: nat, m: nat, n: nat)
    ensures Field(v, lo, m + n) == Field(v, lo, m) + Pow2(m) * Field(v, lo + m, n)
  {
    hide Pow2;
    Pow2Positive(lo);
    Pow2Positive(m);
    Pow2Positive(n);
    Pow2Add(m, n);
    Pow2Add(lo, m);
    DivDiv(v / Pow2(lo), Pow2(m), Pow2(n));
    DivDiv(v, Pow2(lo), Pow2(m));
  }

  lemma FieldCut(v: nat, lo: nat, m: nat, s: nat)
    requires s <= m && Pow2(s) > 0
    ensures Field(v, lo, m) / Pow2(s) == Field(v, lo + s, m - s) && Field(v, lo, m) % Pow2(s) == Field(v, lo, s)
  {
    hide Pow2, Field;
    FieldJoin(v, lo, s, m - s);
    FieldBound(v, lo, s);
    DivMod(Field(v, lo, m), Pow2(s), Field(v, lo + s, m - s), Field(v, lo, s));
  }

  lemma FieldField(v: nat, lo: nat, m: nat, s: nat, n: nat)
    requires s + n <= m
    ensures Field(Field(v, lo, m), s, n) == Field(v, lo + s, n)
  {
    hide Pow2;
    Pow2Positive(s);
    Pow2Positive(n);
    FieldCut(v, lo, m, s);
    FieldCut(v, lo + s, m - s, n);
  }

  // ----- little-endian byte strings -----

  lemma {:induction false} LEBound(b: seq<byte>)
    ensures LE(b) < Pow2(8 * |b|)
  {
    if |b| > 0 {
      LEBound(b[1..]);
      Pow2Add(8, 8 * |b[1..]|);
      assert Pow2(8) == 256;
    }
  }

  lemma Pow2Byte(k: nat, v: nat)
    ensures 256 * (Pow2(8 * k) * v) == Pow2(8 * (k + 1)) * v
  {
    Pow2Add(8, 8 * k);
    assert Pow2(8) == 256;
    var p := Pow2(8 * k);
    assert 256 * (p * v) == 256 * p * v;
  }

  lemma {:induction false} LESplit(b: seq<byte>, k: nat)
    requires k <= |b|
    ensures LE(b) == LE(b[..k]) + Pow2(8 * k) * LE(b[k..])
  {
    hide Pow2;
    if k == 0 {
      assert b[0..] == b;
      assert Pow2(0) == 1 by { Pow2Zero(); }
    } else {
      LESplit(b[1..], k - 1);
      assert b[1..][..k - 1] == b[..k][1..];
      assert b[1..][k - 1..] == b[k..];
      Pow2Byte(k - 1, LE(b[k..]));
    }
  }

  lemma LECut(b: seq<byte>, k: nat)
    requires k <= |b|
    ensures Pow2(8 * k) > 0
    ensures LE(b) / Pow2(8 * k) == LE(b[k..]) && LE(b) % Pow2(8 * k) == LE(b[..k])
  {
    hide Pow2, LE;
    Pow2Positive(8 * k);
    LESplit(b, k);
    LEBound(b[..k]);
    DivMod(LE(b), Pow2(8 * k), LE(b[k..]), LE(b[..k]));
  }

  // n bytes from byte k upwards are the field at bit 8k
  lemma LEField(b: seq<byte>, k: nat, n: nat)
    requires k + n <= |b|
    ensures LE(b[k..k + n]) == Field(LE(b), 8 * k, 8 * n)
  {
    hide Pow2, LE;
    LECut(b, k);
    LECut(b[k..], n);
    assert b[k..][..n] == b[k..k + n];
  }

  // a byte string whose bytes are the fields of v has the value of v's low bits
  lemma {:induction false} LEOfFields(b: seq<byte>, v: nat)
    requires forall k :: 0 <= k < |b| ==> b[k] as nat == Field(v, 8 * k, 8)
    ensures LE(b) == Field(v, 0, 8 * |b|)
  {
    if |b| > 0 {
      var n := |b| - 1;
      LEOfFields(b[..n], v);
      LESplit(b, n);
      FieldJoin(v, 0, 8 * n, 8);
      assert LE(b[n..]) == b[n] as nat + 256 * LE(b[n..][1..]);
    } else {
      assert Pow2(0) == 1;
    }
  }

  lemma FieldAll(v: nat, n: nat)
    requires v < Pow2(n)
    ensures Field(v, 0, n) == v
  {
    assert Pow2(0) == 1;
    DivMod(v, 1, v, 0);
    DivMod(v, Pow2(n), 0, v);
  }

  // ----- the or of two numbers -----

  function Or(x: nat, y: nat): nat {
    if x == 0 && y == 0 then 0
    else 2 * Or(x / 2, y / 2) + (if x % 2 == 1 || y % 2 == 1 then 1 else 0)
  }

  // or-ing bits that do not overlap adds
  lemma {:induction false} OrDisjoint(x: nat, y: nat, k: nat)
    requires x < Pow2(k)
    ensures Or(x, y * Pow2(k)) == x + y * Pow2(k)
    decreases k
  {
    if k == 0 {
      OrZero(y);
    } else {
      var z := y * Pow2(k - 1);
      assert y * Pow2(k) == 2 * z;
      OrDisjoint(x / 2, y, k - 1);
    }
  }

  lemma OrZero(y: nat)
    ensures Or(0, y) == y
  {
  }

  // ----- exclusive or, and -----

  function Xor(x: nat, y: nat): nat {
    if x == 0 && y == 0 then 0
    else 2 * Xor(x / 2, y / 2) + (if x % 2 != y % 2 then 1 else 0)
  }

  function And(x: nat, y: nat): nat {
    if x == 0 || y == 0 then 0
    else 2 * And(x / 2, y / 2) + (if x % 2 == 1 && y % 2 == 1 then 1 else 0)
  }

  lemma {:induction false} XorZero(x: nat)
    ensures Xor(x, 0) == x && Xor(0, x) == x
  {
    if x > 0 {
      XorZero(x / 2);
    }
  }

  lemma {:induction false} XorBound(x: nat, y: nat, n: nat)
    requires x < Pow2(n) && y < Pow2(n)
    ensures Xor(x, y) < Pow2(n)
    decreases n
  {
    if n > 0 && !(x == 0 && y == 0) {
      XorBound(x / 2, y / 2, n - 1);
    }
  }

  // x ^ (x ^ y) is y
  lemma {:induction false} XorTwice(x: nat, y: nat)
    ensures Xor(x, Xor(x, y)) == y
  {
    if x == 0 && y == 0 {
    } else {
      XorTwice(x / 2, y / 2);
      var z := Xor(x, y);
      assert z / 2 == Xor(x / 2, y / 2) && z % 2 == (if x % 2 != y % 2 then 1 else 0);
      XorStep(x, z);
    }
  }

  lemma XorStep(x: nat, y: nat)
    ensures Xor(x, y) == 2 * Xor(x / 2, y / 2) + (if x % 2 != y % 2 then 1 else 0)
  {
  }

  lemma {:induction false} XorIsZero(x: nat, y: nat)
    ensures Xor(x, y) == 0 <==> x == y
  {
    if x == 0 && y == 0 {
    } else {
      XorIsZero(x / 2, y / 2);
    }
  }

  // masking with n ones keeps a number of at most n bits
  lemma {:induction false} AndOnes(x: nat, n: nat)
    requires x < Pow2(n)
    ensures Pow2(n) >= 1 && And(x, Pow2(n) - 1) == x
    decreases n
  {
    Pow2Positive(n);
    if x > 0 {
      AndOnes(x / 2, n - 1);
      var m := Pow2(n) - 1;
      assert m / 2 == Pow2(n - 1) - 1 && m % 2 == 1;
    }
  }
}
