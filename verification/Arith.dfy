// Facts about multiplication and division that are used throughout.
module Arith {
  // a product that proofs can hide
  ghost function Prod(x: int, y: int): int { x * y }

  lemma DivMod(v: int, d: nat, q: int, r: nat)
    requires v == q * d + r && r < d
    ensures v / d == q && v % d == r
  {
    var e := v / d - q;
    assert d * e == r - v % d;
    SmallMultiple(d, e);
  }

  // the quotient of natural numbers
  function Quot(v: nat, d: nat): nat
    requires d > 0
  {
    v / d
  }

  lemma SmallMultiple(d: nat, e: int)
    requires -(d as int) < d * e < d
    ensures e == 0
  {
  }

  // dividing by a and then by b is dividing by a * b
  lemma DivDiv(v: nat, a: nat, b: nat)
    requires a > 0 && b > 0
    ensures a * b > 0
    ensures v / (a * b) == v / a / b
    ensures v % (a * b) == v % a + a * (v / a % b)
  {
    var w, s := v / a, v % a;
    var q, r := w / b, w % b;
    var d, t := a * b, a * r + s;
    Regroup(v, a, b, w, q, r, s, d, t);
    DivMod(v, d, q, t);
  }

  lemma Regroup(v: nat, a: nat, b: nat, w: nat, q: nat, r: nat, s: nat, d: nat, t: nat)
    requires v == a * w + s && w == b * q + r && r < b && s < a
    requires d == a * b && t == a * r + s
    ensures v == q * d + t && t < d
  {
    MulMono(a, r, b - 1);
    assert a * (b - 1) == d - a;
    assert a * (b * q + r) == a * (b * q) + a * r;
    assert a * (b * q) == q * d;
  }

  lemma MulMono(k: int, x: int, y: int)
    requires 0 <= k && x <= y
    ensures k * x <= k * y
  {
  }

  // the absolute value of a product of bounded factors
  lemma MulAbs(x: int, y: int, a: int, b: int)
    requires -a <= x <= a && -b <= y <= b
    ensures -(a * b) <= x * y <= a * b
  {
    var u := if x >= 0 then x else -x;
    MulMono(u, y, b);
    MulMono(u, -b, y);
    MulMono(b, u, a);
    assert u * -b == -(b * u);
  }
}
