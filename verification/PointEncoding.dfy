// The encoding of points: ge_p3_tobytes and ge_tobytes.
module PointEncoding {
  import opened Ints
  import opened Arith
  import opened Bits
  import opened FeLimbs
  import opened FeMultiply
  import opened FeBytes
  import opened FeCodec
  import opened Ge
  import opened Edwards
  import opened GeGroup
  import P = FePower
  import Fe

  // Section 5.1.2 of RFC 8032: y in the low 255 bits, the parity of x in the top bit.
  ghost function Encoding<G(!new)>(c: Curve<G>, g: G): nat {
    c.y(g) % Q + POW255 * (c.x(g) % Q % 2)
  }

  // The encoding determines y, and the parity of x.
  lemma EncodingParts<G(!new)>(c: Curve<G>, g: G, h: G)
    requires Encoding(c, g) == Encoding(c, h)
    ensures c.y(g) % Q == c.y(h) % Q && c.x(g) % Q % 2 == c.x(h) % Q % 2
  {
  }

  // x Z times the inverse of Z is x
  lemma Unscaled(x: int, Z: int, w: int)
    requires Cong(Z * w, 1)
    ensures Cong(Prod(x * Z, w), x)
  {
    hide Cong;
    CongScale(x, Z * w, 1);
    assert x * (Z * w) == (x * Z) * w;
  }

  // the inverse of Z
  method Reciprocal(recip: array<int32>, z: array<int32>, ghost Z: int)
    requires recip.Length == 10 && P.Fermat() && IsElement(z, Z, E101) && NonZero(Z)
    modifies recip
    ensures IsElement(recip, Fe.Value(recip), E101) && Cong(Z * Fe.Value(recip), 1)
  {
    hide Weigh, Cong, P.Pow, P.UnitPower;
    ghost var v := Fe.Value(z);
    assert Within(Limbs(z), E165);
    P.Invert(recip, z);
    CongSym(v, Z);
    NonZeroCong(Z, v);
    ghost var w := Fe.Value(recip);
    P.InverseByFermat(v, w, Q - 2);
    CongRefl(w);
    CongMul(Z, v, w, w);
    CongTrans(Z * w, v * w, 1);
  }

  // a coordinate divided by Z
  method Divide(t: array<int32>, f: array<int32>, recip: array<int32>, ghost x: int, ghost Z: int, ghost w: int)
    requires t.Length == 10 && IsElement(f, x * Z, E101) && IsElement(recip, w, E101) && Cong(Z * w, 1)
    modifies t
    ensures IsElement(t, x, E101)
  {
    hide IsElement, Prod, Cong;
    Ge.Mul(t, f, recip, x * Z, w, E101, E101);
    Unscaled(x, Z, w);
    ElementCong(t, Prod(x * Z, w), x, E101);
  }

  lemma {:induction false} XorDisjoint(x: nat, y: nat, k: nat)
    requires x < Pow2(k)
    ensures Xor(x, y * Pow2(k)) == x + y * Pow2(k)
    decreases k
  {
    if k == 0 {
      XorZero(y);
    } else {
      var z := y * Pow2(k - 1);
      assert y * Pow2(k) == 2 * z;
      XorDisjoint(x / 2, y, k - 1);
    }
  }

  // the top bit of the last byte becomes n
  function FlipTop(b: byte, n: byte): (r: byte)
    requires b < 128 && n <= 1
    ensures r as int == b as int + 128 * n as int
  {
    assert Pow2(7) == 128;
    XorDisjoint(b as nat, n as nat, 7);
    Xor(b as nat, n as nat * 128) as byte
  }

  lemma TopByte(b: seq<byte>, d: byte)
    requires |b| == 32
    ensures LE(b[31 := d]) == LE(b) + (d as int - b[31] as int) * Pow2(248)
    ensures LE(b) < Pow2(255) ==> b[31] < 128
  {
    hide Pow2;
    var t := b[31 := d];
    LESplit(b, 31);
    LESplit(t, 31);
    assert t[..31] == b[..31] && t[31..] == [d] && b[31..] == [b[31]];
    One(d);
    One(b[31]);
    var p := Pow2(248);
    assert p * d as int == p * b[31] as int + (d as int - b[31] as int) * p;
    if b[31] >= 128 {
      TopBound(LE(b[..31]), b[31] as nat, p);
    }
    Pow2Add(248, 7);
    Seventh();
  }

  lemma TopBound(v: nat, d: nat, p: nat)
    requires d >= 128
    ensures v + p * d >= p * 128
  {
    MulMono(p, 128, d);
  }

  lemma Seventh()
    ensures Pow2(7) == 128
  {
  }

  lemma One(d: byte)
    ensures LE([d]) == d as int
  {
    assert LE([d][1..]) == 0;
  }

  // the bytes of y, with the parity of x in the top bit
  method Emit(s: array<byte>, x: array<int32>, y: array<int32>, ghost u: int, ghost v: int)
    requires s.Length >= 32 && IsElement(x, u, E101) && IsElement(y, v, E101)
    modifies s
    ensures LE(s[..32]) == v % Q + POW255 * (u % Q % 2)
    ensures forall k :: 32 <= k < s.Length ==> s[k] == old(s[k])
  {
    hide LE, Weigh, Cong;
    CongMod(Fe.Value(x), u);
    CongMod(Fe.Value(y), v);
    ToBytes(s, y);
    ghost var b := s[..32];
    var n := IsNegative(x);
    TopIsSmall(b, n);
    s[31] := FlipTop(s[31], n);
    assert s[..32] == b[31 := s[31]];
  }

  lemma TopIsSmall(b: seq<byte>, n: byte)
    requires |b| == 32 && LE(b) < Q && n <= 1
    ensures b[31] < 128
    ensures LE(b[31 := (b[31] as int + 128 * n as int) as byte]) == LE(b) + POW255 * n as int
  {
    hide LE, Pow2;
    Pow2At255();
    TopByte(b, 0);
    TopByte(b, (b[31] as int + 128 * n as int) as byte);
    Pow2Add(248, 7);
    Seventh();
    assert POW255 == 128 * Pow2(248);
    assert (128 * n as int) * Pow2(248) == POW255 * n as int;
  }

  // the affine coordinates of X / Z and Y / Z, encoded
  method EncodeScaled(s: array<byte>, X: array<int32>, Y: array<int32>, Z: array<int32>, ghost x: int, ghost y: int)
    requires s.Length >= 32 && P.Fermat() && Z.Length == 10 && NonZero(Fe.Value(Z))
    requires IsElement(X, x * Fe.Value(Z), E101) && IsElement(Y, y * Fe.Value(Z), E101)
        && IsElement(Z, Fe.Value(Z), E101)
    modifies s
    ensures LE(s[..32]) == y % Q + POW255 * (x % Q % 2)
    ensures forall k :: 32 <= k < s.Length ==> s[k] == old(s[k])
  {
    hide LE, IsElement, NonZero, Cong, P.Fermat;
    var recip, u, v := new int32[10], new int32[10], new int32[10];
    ghost var z := Fe.Value(Z);
    Reciprocal(recip, Z, z);
    ghost var w := Fe.Value(recip);
    Divide(u, X, recip, x, z, w);
    Divide(v, Y, recip, y, z, w);
    Emit(s, u, v, x, y);
  }

  // ge_p3_tobytes
  method EncodeP3<G(!new)>(s: array<byte>, h: P3, ghost c: Curve<G>, ghost g: G)
    requires s.Length >= 32 && P.Fermat() && IsP3(h, c, g)
    modifies s
    ensures LE(s[..32]) == Encoding(c, g) == c.y(g) % Q + POW255 * (c.x(g) % Q % 2)
    ensures forall k :: 32 <= k < s.Length ==> s[k] == old(s[k])
  {
    hide LE, IsElement, NonZero, P.Fermat;
    EncodeScaled(s, h.X, h.Y, h.Z, c.x(g), c.y(g));
  }

  // ge_tobytes
  method EncodeP2<G(!new)>(s: array<byte>, h: P2, ghost c: Curve<G>, ghost g: G)
    requires s.Length >= 32 && P.Fermat() && IsP2(h, c, g)
    modifies s
    ensures LE(s[..32]) == Encoding(c, g) == c.y(g) % Q + POW255 * (c.x(g) % Q % 2)
    ensures forall k :: 32 <= k < s.Length ==> s[k] == old(s[k])
  {
    hide LE, IsElement, NonZero, P.Fermat;
    EncodeScaled(s, h.X, h.Y, h.Z, c.x(g), c.y(g));
  }

  // the curve equation of ge.c in projective coordinates, over their squares: (Y^2 - X^2) Z^2 = Z^4 + d X^2 Y^2
  ghost predicate ProjectiveCurve(X: int, Y: int, Z: int) {
    Cong((Y * Y - X * X) * (Z * Z), (Z * Z) * (Z * Z) + D() * ((X * Y) * (X * Y)))
  }

  // Extended coordinates that a point of the curve fills satisfy XY = ZT and the projective equation.
  lemma ExtendedEquation(x: int, y: int, X: int, Y: int, Z: int, T: int)
    requires OnCurve(x, y) && Cong(X, x * Z) && Cong(Y, y * Z) && Cong(T, (x * y) * Z)
    ensures Cong(Prod(X, Y), Prod(Z, T)) && ProjectiveCurve(X, Y, Z)
  {
    hide Cong, OnCurve, ProjectiveCurve;
    CongMul(X, x * Z, Y, y * Z);
    CongScale(Z, T, (x * y) * Z);
    Factor(x, y, Z, Z);
    assert Z * ((x * y) * Z) == (x * y) * (Z * Z);
    CongSym(Z * T, (x * y) * (Z * Z));
    CongTrans(X * Y, (x * y) * (Z * Z), Z * T);
    Projective(x, y, X, Y, Z);
  }

  // Every point that an operation of ge.c leaves in extended coordinates satisfies both equations of its header.
  lemma ExtendedInvariant<G(!new)>(h: P3, c: Curve<G>, g: G)
    requires IsP3(h, c, g)
    ensures Cong(Prod(Fe.Value(h.X), Fe.Value(h.Y)), Prod(Fe.Value(h.Z), Fe.Value(h.T)))
    ensures ProjectiveCurve(Fe.Value(h.X), Fe.Value(h.Y), Fe.Value(h.Z)) && NonZero(Fe.Value(h.Z))
  {
    hide Cong, Prod, Within, Weigh, NonZero, OnCurve, ProjectiveCurve;
    ExtendedEquation(c.x(g), c.y(g), Fe.Value(h.X), Fe.Value(h.Y), Fe.Value(h.Z), Fe.Value(h.T));
  }

  lemma Projective(x: int, y: int, X: int, Y: int, Z: int)
    requires OnCurve(x, y) && Cong(X, x * Z) && Cong(Y, y * Z)
    ensures ProjectiveCurve(X, Y, Z)
  {
    hide Cong, D;
    var z, e := Z * Z, (x * y) * (x * y);
    CongMul(X, x * Z, X, x * Z);
    CongMul(Y, y * Z, Y, y * Z);
    CongMul(X, x * Z, Y, y * Z);
    Factor(x, x, Z, Z);
    Factor(y, y, Z, Z);
    Factor(x, y, Z, Z);
    CongAdd(Y * Y, (y * y) * z, X * X, (x * x) * z);
    CongScale(z, Y * Y - X * X, (y * y) * z - (x * x) * z);
    CongScale(z * z, y * y - x * x, 1 + D() * e);
    CongMul(X * Y, (x * y) * z, X * Y, (x * y) * z);
    Factor(x * y, x * y, z, z);
    CongScale(D(), (X * Y) * (X * Y), e * (z * z));
    ProjectiveSides(y * y, x * x, z, D(), e);
    var left, right := (Y * Y - X * X) * z, D() * ((X * Y) * (X * Y));
    assert z * (Y * Y - X * X) == left;
    CongRefl(z * z);
    CongTrans(left, (z * z) * (y * y - x * x), (z * z) * (1 + D() * e));
    CongSym(right, D() * (e * (z * z)));
    CongAdd(z * z, z * z, D() * (e * (z * z)), right);
    CongTrans(left, (z * z) * (1 + D() * e), z * z + right);
  }

  lemma ProjectiveSides(a: int, b: int, z: int, d: int, e: int)
    ensures z * (a * z - b * z) == (z * z) * (a - b)
    ensures (z * z) * (1 + d * e) == z * z + d * (e * (z * z))
  {
    var w := z * z;
    assert a * z - b * z == (a - b) * z;
    assert z * ((a - b) * z) == w * (a - b);
    assert w * (d * e) == d * (e * w);
  }
}
