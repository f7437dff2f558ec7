// Signed-digit recodings of scalars.
module Digits {
  import opened Ints
  import opened Arith
  import opened Bits

  newtype int8 = x: int | -128 <= x < 128

  // the value of digits in radix 2
  ghost function Val2(s: seq<int8>): int {
    if |s| == 0 then 0 else s[0] as int + 2 * Val2(s[1..])
  }

  lemma {:induction false} Val2Update(s: seq<int8>, i: nat, d: int8)
    requires i < |s|
    ensures Val2(s[i := d]) == Val2(s) + (d as int - s[i] as int) * Pow2(i)
  {
    if i == 0 {
      assert s[0 := d][1..] == s[1..];
    } else {
      assert s[i := d][1..] == s[1..][i - 1 := d];
      Val2Update(s[1..], i - 1, d);
      var e := d as int - s[i] as int;
      assert 2 * (e * Pow2(i - 1)) == e * Pow2(i);
    }
  }

  lemma {:induction false} Val2Split(s: seq<int8>, n: nat)
    requires n <= |s|
    ensures Val2(s) == Val2(s[..n]) + Pow2(n) * Val2(s[n..])
  {
    if n == 0 {
      assert s[0..] == s;
    } else {
      Val2Split(s[1..], n - 1);
      assert s[1..][..n - 1] == s[..n][1..];
      assert s[1..][n - 1..] == s[n..];
      var v, p := Val2(s[n..]), Pow2(n - 1);
      assert Pow2(n) == 2 * p;
      assert 2 * (p * v) == (2 * p) * v;
    }
  }

  lemma {:induction false} Val2Zero(s: seq<int8>)
    requires forall k :: 0 <= k < |s| ==> s[k] == 0
    ensures Val2(s) == 0
  {
    if |s| > 0 {
      Val2Zero(s[1..]);
    }
  }

  lemma {:induction false} Val2Ones(s: seq<int8>)
    requires forall k :: 0 <= k < |s| ==> s[k] == 1
    ensures Val2(s) == Pow2(|s|) - 1
  {
    if |s| > 0 {
      Val2Ones(s[1..]);
    }
  }

  lemma Val2Append(s: seq<int8>, d: int8)
    ensures Val2(s + [d]) == Val2(s) + Pow2(|s|) * d as int
  {
    Val2Split(s + [d], |s|);
    assert (s + [d])[..|s|] == s;
    assert (s + [d])[|s|..] == [d];
    assert Val2([d]) == d as int;
  }

  // ----- the width-5 form -----

  // zero, or odd and at most 15 in absolute value
  ghost predicate Digit(d: int8) {
    d == 0 || (d % 2 == 1 && -15 <= d <= 15)
  }

  // a non-zero digit at j is followed by four zeros
  ghost predicate Spaced(s: seq<int8>, n: nat)
    requires n <= |s|
  {
    forall j, k :: 0 <= j < n && j < k < |s| && k < j + 5 && s[j] != 0 ==> s[k] == 0
  }

  lemma Pow2Step(m: nat)
    ensures Pow2(m + 1) == 2 * Pow2(m) && Pow2(m) > 0
  {
    Pow2Positive(m);
  }

  lemma Sixteen(m: nat)
    ensures Pow2(m + 4) == 16 * Pow2(m)
  {
    assert Pow2(m + 2) == 4 * Pow2(m);
  }

  lemma Times15(p: int, d: int)
    requires p >= 0 && -15 <= d <= 15
    ensures -15 * p <= p * d <= 15 * p
  {
    MulMono(p, -15, d);
    MulMono(p, d, 15);
  }

  lemma {:induction false} SpacedBound(s: seq<int8>, n: nat)
    requires n <= |s| && Spaced(s, n) && forall j :: 0 <= j < n ==> Digit(s[j])
    ensures -(Pow2(n + 3) as int) <= Val2(s[..n]) <= Pow2(n + 3)
    decreases n
  {
    hide Pow2, Val2;
    if n == 0 {
      assert Val2(s[..0]) == 0 by { Val2Zero(s[..0]); }
    } else {
      var m := n - 1;
      assert Pow2(n + 3) == 2 * Pow2(m + 3) by { Pow2Step(m + 3); }
      assert s[..n] == s[..m] + [s[m]];
      Val2Append(s[..m], s[m]);
      if s[m] == 0 {
        SpacedBound(s, m);
      } else {
        BelowNonZero(s, m);
        Sixteen(m);
        Times15(Pow2(m), s[m] as int);
      }
    }
  }

  // below a non-zero digit the value is less than half its weight
  lemma {:induction false} BelowNonZero(s: seq<int8>, i: nat)
    requires i < |s| && s[i] != 0 && Spaced(s, i) && forall j :: 0 <= j < i ==> Digit(s[j])
    ensures -(Pow2(i) as int) <= 2 * Val2(s[..i]) <= Pow2(i)
    decreases i, 0
  {
    var n := if i < 4 then 0 else i - 4;
    var t := s[..i];
    Val2Split(t, n);
    assert forall k :: n <= k < i ==> s[k] == 0;
    Val2Zero(t[n..]);
    assert t[..n] == s[..n];
    if i >= 4 {
      SpacedBound(s, n);
      assert Pow2(i) == 2 * Pow2(n + 3);
    }
  }

  ghost predicate AllOnes(s: seq<int8>, n: nat) {
    forall j :: n <= j < |s| ==> s[j] == 1
  }

  ghost predicate Bit(d: int8) { d == 0 || d == 1 }

  // the carry ripples up from k0: ones become zeros, up to the first zero, which becomes one
  // Adds one to the binary digits from k0 upwards, unless all of them are ones.
  method Ripple(r: array<int8>, k0: nat)
    requires k0 < r.Length && r[k0] == 1
    requires forall j :: k0 <= j < r.Length ==> Bit(r[j])
    modifies r
    ensures forall j :: 0 <= j < k0 ==> r[j] == old(r[j])
    ensures r[k0] == 0 && forall j :: k0 <= j < r.Length ==> Bit(r[j])
    ensures AllOnes(old(r[..]), k0) || Val2(r[..]) == old(Val2(r[..])) + Pow2(k0)
  {
    hide Val2, Pow2;
    var k := k0;
    while k < r.Length
      invariant k0 <= k <= r.Length
      invariant forall j :: 0 <= j < k0 || k <= j < r.Length ==> r[j] == old(r[j])
      invariant forall j :: k0 <= j < k ==> r[j] == 0 && old(r[j]) == 1
      invariant Val2(r[..]) + Pow2(k) == old(Val2(r[..])) + Pow2(k0)
    {
      ghost var s := r[..];
      if r[k] == 0 {
        r[k] := 1;
        Val2Update(s, k, 1);
        assert r[..] == s[k := 1];
        break;
      }
      r[k] := 0;
      Val2Update(s, k, 0);
      assert r[..] == s[k := 0];
      Pow2Step(k);
      k := k + 1;
    }
  }

  // digits below i are final, digit i is being built, the b - 1 above it are zero and the rest are bits of v
  ghost predicate Building(s: seq<int8>, i: nat, b: nat, v: nat) {
    && |s| == 256 && i < 256 && b >= 1
    && (forall j :: 0 <= j < i ==> Digit(s[j])) && Spaced(s, i)
    && s[i] != 0 && Digit(s[i])
    && (forall j :: i < j < i + b && j < 256 ==> s[j] == 0)
    && (forall j :: i + b <= j < 256 ==> Bit(s[j]))
    && (v < Pow2(255) ==> Val2(s) == v)
  }

  // A positive digit i under a suffix of ones would make the scalar exceed 2^255.
  lemma NoOverflow(s: seq<int8>, i: nat, b: nat, v: nat)
    requires Building(s, i, b, v) && i + b < 256 && s[i] > 0
    requires AllOnes(s, i + b)
    ensures Val2(s) >= Pow2(255)
  {
    hide Pow2, Val2;
    var n := i + b;
    BelowNonZero(s, i);
    Val2Split(s, n);
    Val2Ones(s[n..]);
    Middle(s, i, n);
    Pow2Add(n, 256 - n);
    Pow2Step(255);
    Pow2Mono(n, 255);
    Pow2Positive(i);
    TopOfOnes(Val2(s[..n]), Pow2(n), Pow2(256 - n), Val2(s), Pow2(255));
  }

  lemma TopOfOnes(low: int, p: int, q: int, v: int, h: int)
    requires low > 0 && p <= h && p * q == 2 * h && v == low + p * (q - 1)
    ensures v >= h
  {
    assert p * (q - 1) == p * q - p;
  }

  lemma Middle(s: seq<int8>, i: nat, n: nat)
    requires i < n <= |s| && forall j :: i < j < n ==> s[j] == 0
    requires -(Pow2(i) as int) <= 2 * Val2(s[..i]) && s[i] > 0
    ensures Val2(s[..n]) > 0
  {
    hide Pow2;
    var t := s[..n];
    Val2Split(t, i);
    assert t[..i] == s[..i];
    var u := t[i..];
    Val2Zero(u[1..]);
    assert Val2(u) == s[i] as int;
    Pow2Positive(i);
    MulMono(Pow2(i), 1, s[i] as int);
  }

  lemma SmallPowers(b: nat)
    requires 1 <= b <= 6
    ensures Pow2(b) % 2 == 0 && 2 <= Pow2(b) <= 64
    ensures b <= 4 ==> Pow2(b) <= 16
    ensures b >= 5 ==> Pow2(b) >= 32
  {
    assert Pow2(1) == 2 && Pow2(2) == 4 && Pow2(3) == 8 && Pow2(4) == 16 && Pow2(5) == 32 && Pow2(6) == 64;
    assert b == 1 || b == 2 || b == 3 || b == 4 || b == 5 || b == 6;
  }

  lemma ShiftedDigit(i: nat, b: nat)
    ensures Pow2(b) * Pow2(i) == Pow2(i + b)
  {
    Pow2Add(i, b);
  }

  lemma AbsorbValue(s: seq<int8>, i: nat, b: nat, d: int8)
    requires b >= 1 && i + b < |s| && s[i + b] == 1 && d as int == s[i] as int + Pow2(b)
    ensures Val2(s[i := d][i + b := 0]) == Val2(s)
  {
    Val2Update(s, i, d);
    Val2Update(s[i := d], i + b, 0);
    ShiftedDigit(i, b);
  }

  lemma BorrowValue(s: seq<int8>, i: nat, b: nat, d: int8)
    requires i < |s| && d as int == s[i] as int - Pow2(b)
    ensures Val2(s[i := d]) == Val2(s) - Pow2(i + b)
  {
    Val2Update(s, i, d);
    ShiftedDigit(i, b);
    assert (-(Pow2(b) as int)) * Pow2(i) == -((Pow2(b) * Pow2(i)) as int);
  }

  // the digit b places up is taken into digit i
  method Absorb(r: array<int8>, i: nat, b: nat, ghost v: nat)
    requires r.Length == 256 && Building(r[..], i, b, v) && b <= 6 && i + b < 256
    requires r[i + b] == 1 && r[i] as int + Pow2(b) <= 15
    modifies r
    ensures Building(r[..], i, b + 1, v)
  {
    SmallPowers(b);
    hide Pow2, Val2;
    ghost var s := r[..];
    var d := (r[i] as int + Pow2(b)) as int8;
    r[i] := d;
    r[i + b] := 0;
    AbsorbValue(s, i, b, d);
    assert r[..] == s[i := d][i + b := 0];
  }

  // digit i becomes negative, and one is carried into the digits from i + b on
  method Borrow(r: array<int8>, i: nat, b: nat, ghost v: nat)
    requires r.Length == 256 && Building(r[..], i, b, v) && b <= 6 && i + b < 256
    requires r[i + b] == 1 && r[i] as int + Pow2(b) > 15 && r[i] as int - Pow2(b) >= -15
    modifies r
    ensures Building(r[..], i, b + 1, v)
  {
    SmallPowers(b);
    hide Pow2, Val2;
    ghost var s := r[..];
    var d := (r[i] as int - Pow2(b)) as int8;
    r[i] := d;
    BorrowFacts(s, i, b, d, v);
    assert r[..] == s[i := d];
    hide Building, Digit;
    Ripple(r, i + b);
    BorrowBuilding(s, r[..], i, b, v);
  }

  lemma BorrowFacts(s: seq<int8>, i: nat, b: nat, d: int8, v: nat)
    requires Building(s, i, b, v) && i + b < 256 && s[i] > 0 && d as int == s[i] as int - Pow2(b)
    ensures Val2(s[i := d]) == Val2(s) - Pow2(i + b)
    ensures v < Pow2(255) ==> Val2(s) == v && !AllOnes(s[i := d], i + b)
  {
    hide Pow2, Val2;
    BorrowValue(s, i, b, d);
    if AllOnes(s[i := d], i + b) {
      assert forall j :: i + b <= j < 256 ==> s[i := d][j] == s[j];
      NoOverflow(s, i, b, v);
    }
  }

  lemma BorrowBuilding(s: seq<int8>, t: seq<int8>, i: nat, b: nat, v: nat)
    requires Building(s, i, b, v) && |t| == 256 && i + b < 256
    requires t[i] != 0 && Digit(t[i]) && t[i + b] == 0
    requires forall j :: 0 <= j < i + b && j != i ==> t[j] == s[j]
    requires forall j :: i + b <= j < 256 ==> Bit(t[j])
    requires v < Pow2(255) ==> Val2(t) == v
    ensures Building(t, i, b + 1, v)
  {
    hide Pow2, Val2;
    forall j, k | 0 <= j < i && j < k < 256 && k < j + 5 && t[j] != 0 ensures t[k] == 0 {
      assert s[j] != 0;
      assert j + 5 <= i;
      assert t[k] == s[k];
    }
  }

  // the digit at i is final: four zeros follow it
  ghost predicate Recoded(s: seq<int8>, i: nat, v: nat) {
    && |s| == 256 && i <= 256
    && (forall j :: 0 <= j < i ==> Digit(s[j])) && Spaced(s, i)
    && (forall j :: i <= j < 256 ==> Bit(s[j]))
    && (v < Pow2(255) ==> Val2(s) == v)
  }

  // the b loop of slide for a non-zero digit i
  method Gather(r: array<int8>, i: nat, ghost v: nat)
    requires r.Length == 256 && i < 256 && Recoded(r[..], i, v) && r[i] != 0
    modifies r
    ensures Recoded(r[..], i + 1, v)
  {
    hide Pow2, Val2;
    var b := 1;
    while b <= 6 && i + b < 256
      invariant 1 <= b <= 7 && Building(r[..], i, b, v)
    {
      SmallPowers(b);
      assert r[..][i + b] == r[i + b] && r[..][i] == r[i];
      if r[i + b] != 0 {
        if r[i] as int + Pow2(b) <= 15 {
          Absorb(r, i, b, v);
        } else if r[i] as int - Pow2(b) >= -15 {
          Borrow(r, i, b, v);
        } else {
          break;
        }
      } else {
        assert Building(r[..], i, b + 1, v);
      }
      b := b + 1;
    }
  }

  // bit i of a, from its byte
  function BitOf(a: array<byte>, i: nat): (r: int8)
    requires a.Length >= 32 && i < 256
    reads a
    ensures Bit(r) && r as int == Field(LE(a[..32]), i, 1)
  {
    Pow2Positive(i % 8);
    LEField(a[..32], i / 8, 1);
    OneByte(a[..32], i / 8);
    FieldField(LE(a[..32]), 8 * (i / 8), 8, i % 8, 1);
    FieldBound(LE(a[..32]), i, 1);
    (a[i / 8] as nat / Pow2(i % 8) % 2) as int8
  }

  lemma OneByte(b: seq<byte>, k: nat)
    requires k < |b|
    ensures LE(b[k..k + 1]) == b[k] as nat
  {
    assert b[k..k + 1] == [b[k]];
    assert LE([b[k]]) == b[k] as nat + 256 * LE([b[k]][1..]);
  }

  lemma {:induction false} BitsValue(s: seq<int8>, v: nat)
    requires forall j :: 0 <= j < |s| ==> s[j] as int == Field(v, j, 1)
    ensures Val2(s) == Field(v, 0, |s|)
  {
    hide Pow2;
    if |s| > 0 {
      var n := |s| - 1;
      BitsValue(s[..n], v);
      assert s == s[..n] + [s[n]];
      Val2Append(s[..n], s[n]);
      FieldJoin(v, 0, n, 1);
    } else {
      FieldEmpty(v, 0);
    }
  }

  // slide: the width-5 signed form of a.
  method Slide(r: array<int8>, a: array<byte>)
    requires r.Length == 256 && a.Length >= 32
    modifies r
    ensures forall j :: 0 <= j < 256 ==> Digit(r[j])
    ensures forall j, k :: 0 <= j < k < 256 && k < j + 5 && r[j] != 0 ==> r[k] == 0
    ensures LE(a[..32]) < Pow2(255) ==> Val2(r[..]) == LE(a[..32])
  {
    hide Pow2, Val2, LE, Field;
    ghost var v := LE(a[..32]);
    for i := 0 to 256
      invariant forall j :: 0 <= j < i ==> Bit(r[j]) && r[j] as int == Field(v, j, 1)
    {
      r[i] := BitOf(a, i);
    }
    BitsValue(r[..], v);
    LEBound(a[..32]);
    FieldAll(v, 256);
    for i := 0 to 256
      invariant Recoded(r[..], i, v)
    {
      if r[i] != 0 {
        Gather(r, i, v);
      }
    }
  }
}
