// The addition chains of fe_invert and fe_pow22523.
module FePower {
  import opened Ints
  import opened Bits
  import opened FeLimbs
  import opened FeMultiply
  import Fe

  ghost function Pow(z: int, e: nat): int {
    if e == 0 then 1 else z * Pow(z, e - 1)
  }

  lemma {:induction false} PowAdd(z: int, d: nat, e: nat)
    ensures Pow(z, d + e) == Pow(z, d) * Pow(z, e)
  {
    if d > 0 {
      PowAdd(z, d - 1, e);
      var p, q := Pow(z, d - 1), Pow(z, e);
      assert z * (p * q) == (z * p) * q;
    }
  }

  // t holds z to the power e, with limbs that fe_mul accepts
  ghost predicate Holds(t: array<int32>, z: int, e: nat)
    reads t
  {
    t.Length == 10 && Within(Limbs(t), E165) && Cong(Fe.Value(t), Pow(z, e))
  }

  lemma PowCong(x: int, a: int, b: int, z: int, d: nat, e: nat)
    requires Cong(x, a * b) && Cong(a, Pow(z, d)) && Cong(b, Pow(z, e))
    ensures Cong(x, Pow(z, d + e))
  {
    hide Cong, Pow;
    CongMul(a, Pow(z, d), b, Pow(z, e));
    PowAdd(z, d, e);
    CongTrans(x, a * b, Pow(z, d + e));
  }

  method Mul(h: array<int32>, f: array<int32>, g: array<int32>, ghost z: int, ghost d: nat, ghost e: nat)
    requires h.Length == 10 && Holds(f, z, d) && Holds(g, z, e)
    modifies h
    ensures Holds(h, z, d + e) && Within(Limbs(h), E101)
  {
    hide Within, Cong, Pow, Fe.MulLimbs, Weigh;
    ghost var a, b := Fe.Value(f), Fe.Value(g);
    Fe.Mul(h, f, g);
    PowCong(Fe.Value(h), a, b, z, d, e);
    WithinMono(Limbs(h), E101, E165);
  }

  // n squarings of f, in place after the first
  method Squarings(t: array<int32>, f: array<int32>, n: nat, ghost z: int, ghost e: nat)
    requires t.Length == 10 && Holds(f, z, e) && n >= 1
    modifies t
    ensures Holds(t, z, Up(e, n)) && Within(Limbs(t), E101)
  {
    hide Holds, Up, Within;
    Square(t, f, z, e);
    Doubled(e);
    for i := 1 to n
      invariant Holds(t, z, Up(e, i)) && Within(Limbs(t), E101)
    {
      Double(e, i);
      Square(t, t, z, Up(e, i));
    }
  }

  lemma Doubled(e: nat)
    ensures Up(e, 1) == e + e
  {
    assert Pow2(1) == 2;
  }

  lemma Double(e: nat, i: nat)
    ensures Up(e, i) + Up(e, i) == Up(e, i + 1)
  {
    var p := Pow2(i);
    assert e * (2 * p) == e * p + e * p;
  }

  method Square(h: array<int32>, f: array<int32>, ghost z: int, ghost e: nat)
    requires h.Length == 10 && Holds(f, z, e)
    modifies h
    ensures Holds(h, z, e + e) && Within(Limbs(h), E101)
  {
    hide Within, Cong, Pow, Fe.MulLimbs, Weigh;
    ghost var a := Fe.Value(f);
    Fe.Square(h, f);
    PowCong(Fe.Value(h), a, a, z, e, e);
    WithinMono(Limbs(h), E101, E165);
  }

  // the exponent 2^n - 1
  ghost function Ones(n: nat): nat {
    Pow2Positive(n);
    Pow2(n) - 1
  }

  // e doubled n times
  ghost function Up(e: nat, n: nat): nat { e * Pow2(n) }

  lemma OnesJoin(m: nat, n: nat)
    ensures Up(Ones(m), n) + Ones(n) == Ones(m + n)
  {
    Pow2Add(m, n);
    Pow2Positive(m);
    OnesProduct(Pow2(m), Pow2(n));
  }

  lemma OnesProduct(p: int, q: int)
    ensures (p - 1) * q == p * q - q
  {
  }

  // n squarings of f, and the product with g
  method Extend(d: array<int32>, t: array<int32>, f: array<int32>, n: nat, g: array<int32>, ghost z: int, ghost m: nat)
    requires d.Length == t.Length == 10 && n >= 1 && g != t
    requires Holds(f, z, Ones(m)) && Holds(g, z, Ones(n))
    modifies d, t
    ensures Holds(d, z, Ones(m + n)) && Within(Limbs(d), E101)
  {
    hide Holds, Ones, Pow2, Up;
    Squarings(t, f, n, z, Ones(m));
    Mul(d, t, g, z, Up(Ones(m), n), Ones(n));
    OnesJoin(m, n);
  }

  lemma FirstPower(f: array<int32>)
    requires f.Length == 10 && Within(Limbs(f), E165)
    ensures Holds(f, Fe.Value(f), 1)
  {
    hide Weigh;
    var z := Fe.Value(f);
    assert Pow(z, 1) == z * Pow(z, 0) == z;
    CongWith(z, z, 0);
  }

  // fe_invert: z to the power 2^255 - 21 = p - 2.
  method Invert(out: array<int32>, z: array<int32>)
    requires out.Length == z.Length == 10
    requires Within(Limbs(z), E165)
    modifies out
    ensures Cong(Fe.Value(out), Pow(old(Fe.Value(z)), Q - 2))
    ensures Within(Limbs(out), E101)
  {
    hide Holds, Pow2, Ones, Up, Within, Pow, Cong, Weigh;
    var t0, t1, t2, t3 := new int32[10], new int32[10], new int32[10], new int32[10];
    ghost var v := Fe.Value(z);
    Start(t0, t1, z);
    SmallExponents();
    Squarings(t2, t0, 1, v, 11);
    Mul(t1, t1, t2, v, 9, 22);
    Ladder(t1, t2, t3, v);
    Squarings(t1, t1, 5, v, Ones(250));
    Mul(out, t1, t0, v, Up(Ones(250), 5), 11);
    LastExponent();
    HoldsCong(out, v, Q - 2);
  }

  // fe_pow22523: z to the power 2^252 - 3.
  method Pow22523(out: array<int32>, z: array<int32>)
    requires out.Length == z.Length == 10
    requires Within(Limbs(z), E165)
    modifies out
    ensures Cong(Fe.Value(out), Pow(old(Fe.Value(z)),
        0xFFF_FFFF_FFFF_FFFF_FFFF_FFFF_FFFF_FFFF_FFFF_FFFF_FFFF_FFFF_FFFF_FFFF_FFFF_FFFD))
    ensures Within(Limbs(out), E101)
  {
    hide Holds, Pow2, Ones, Up, Within, Pow, Cong, Weigh;
    var t0, t1, t2 := new int32[10], new int32[10], new int32[10];
    ghost var v := Fe.Value(z);
    Start(t0, t1, z);
    SmallExponents();
    Squarings(t0, t0, 1, v, 11);
    Mul(t0, t1, t0, v, 9, 22);
    Ladder(t0, t1, t2, v);
    Squarings(t0, t0, 2, v, Ones(250));
    FirstPower(z);
    Mul(out, t0, z, v, Up(Ones(250), 2), 1);
    LastExponent22523();
    HoldsCong(out, v, Up(Ones(250), 2) + 1);
  }

  // The middle that fe_invert and fe_pow22523 share: from 2^5 - 1 to 2^250 - 1 in a.
  method Ladder(a: array<int32>, b: array<int32>, c: array<int32>, ghost z: int)
    requires a.Length == b.Length == c.Length == 10 && a != b && a != c && b != c
    requires Holds(a, z, Ones(5))
    modifies a, b, c
    ensures Holds(a, z, Ones(250))
  {
    hide Holds, Ones;
    Extend(a, b, a, 5, a, z, 5);
    Extend(b, b, a, 10, a, z, 10);
    Extend(b, c, b, 20, b, z, 20);
    Extend(a, b, b, 10, a, z, 40);
    Extend(b, b, a, 50, a, z, 50);
    Extend(b, c, b, 100, b, z, 100);
    Extend(a, b, b, 50, a, z, 200);
  }

  // The opening that fe_invert and fe_pow22523 share: t1 = z^9 and t0 = z^11.
  method Start(t0: array<int32>, t1: array<int32>, z: array<int32>)
    requires t0.Length == t1.Length == z.Length == 10 && t0 != t1 && t0 != z && t1 != z
    requires Within(Limbs(z), E165)
    modifies t0, t1
    ensures Holds(t0, Fe.Value(z), 11) && Holds(t1, Fe.Value(z), 9)
  {
    ghost var v := Fe.Value(z);
    FirstPower(z);
    SmallExponents();
    hide Holds, Pow2, Within, Pow, Cong, Weigh;
    Squarings(t0, z, 1, v, 1);
    Squarings(t1, t0, 2, v, 2);
    Mul(t1, z, t1, v, 1, 8);
    Mul(t0, t0, t1, v, 2, 9);
  }

  lemma HoldsCong(t: array<int32>, z: int, e: nat)
    requires Holds(t, z, e)
    ensures Cong(Fe.Value(t), Pow(z, e))
  {
  }

  lemma SmallExponents()
    ensures Pow2(1) == 2 && Pow2(2) == 4 && Pow2(3) == 8 && Ones(2) == 3 && Ones(5) == 31 && Up(11, 1) == 22
  {
    assert Pow2(5) == 32;
  }

  lemma LastExponent()
    ensures Up(Ones(250), 5) + 11 == Q - 2
  {
    hide Pow2;
    OnesJoin(250, 5);
    SmallExponents();
    Pow2At255();
  }

  lemma LastExponent22523()
    ensures Up(Ones(250), 2) + 1 == 0xFFF_FFFF_FFFF_FFFF_FFFF_FFFF_FFFF_FFFF_FFFF_FFFF_FFFF_FFFF_FFFF_FFFF_FFFF_FFFD
  {
    hide Pow2;
    OnesJoin(250, 2);
    assert Ones(2) == 3 by { SmallExponents(); }
    Pow2Add(252, 3);
    assert Pow2(3) == 8 by { SmallExponents(); }
    Pow2At255();
  }

  // The power e of every number that is not 0 modulo the field prime is 1.
  ghost predicate UnitPower(e: nat) {
    forall a: int :: !Cong(a, 0) ==> Cong(Pow(a, e), 1)
  }

  // Fermat's little theorem for the field prime, a hypothesis here.
  ghost predicate Fermat() {
    UnitPower(Q - 1)
  }

  // Where the power e + 1 is 1, the power e is the inverse; fe_invert computes e = q - 2.
  lemma InverseByFermat(z: int, w: int, e: nat)
    requires UnitPower(e + 1) && !Cong(z, 0)
    requires Cong(w, Pow(z, e))
    ensures Cong(z * w, 1)
  {
    hide Cong;
    assert Cong(z, z) by { CongWith(z, z, 0); }
    CongMul(z, z, w, Pow(z, e));
    PowStep(z, e);
    CongTrans(z * w, Pow(z, e + 1), 1);
  }

  lemma PowStep(z: int, e: nat)
    ensures z * Pow(z, e) == Pow(z, e + 1)
  {
  }
}
