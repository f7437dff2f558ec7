// fe_tobytes up to the packing: the cascade of carries that finds the quotient by 2^255 - 19, and the canonical limbs.
module FeBytes {
  import opened Ints
  import opened Arith
  import opened FeLimbs
  import opened FeMultiply
  import Fe

  // ----- q = floor(h / p) -----

  ghost function Div26(x: int): int { x / 0x400_0000 }
  ghost function Div25(x: int): int { x / 0x200_0000 }

  // the ten-step cascade, started at q
  ghost function Cascade(h: seq<int>, q: int): int
    requires |h| == 10
  {
    var q := Div26(h[0] + q);
    var q := Div25(h[1] + q);
    var q := Div26(h[2] + q);
    var q := Div25(h[3] + q);
    var q := Div26(h[4] + q);
    var q := Div25(h[5] + q);
    var q := Div26(h[6] + q);
    var q := Div25(h[7] + q);
    var q := Div26(h[8] + q);
    Div25(h[9] + q)
  }

  const POW255 := 0x8000_0000_0000_0000_0000_0000_0000_0000_0000_0000_0000_0000_0000_0000_0000_0000

  // The cascade is one floor division by 2^255.
  lemma CascadeIsDivision(h: seq<int>, q: int)
    requires |h| == 10
    ensures Cascade(h, q) == (Weigh(h) + q) / POW255
  {
    var q0 := Div26(h[0] + q);
    var q1 := Div25(h[1] + q0);
    var q2 := Div26(h[2] + q1);
    var q3 := Div25(h[3] + q2);
    var q4 := Div26(h[4] + q3);
    var q5 := Div25(h[5] + q4);
    var q6 := Div26(h[6] + q5);
    var q7 := Div25(h[7] + q6);
    var q8 := Div26(h[8] + q7);
    var q9 := Div25(h[9] + q8);
    var x := Weigh(h) + q;
    assert q9 * POW255 <= x < q9 * POW255 + POW255;
  }

  // The start value makes that quotient the quotient by the prime.
  lemma QuotientByPrime(h: seq<int>)
    requires Within(h, E220)
    ensures (Weigh(h) + Div25(19 * h[9] + 0x100_0000)) / POW255 == Weigh(h) / Q
  {
    var v := Weigh(h);
    var q0 := Div25(19 * h[9] + 0x100_0000);
    var q, r := v / Q, v % Q;
    assert v == q * Q + r;
    assert -3 <= q <= 2;
    var t := r - 19 * q + q0;
    assert v + q0 == q * POW255 + t;
    assert 0 <= t < POW255;
  }

  // the shifts by 26 and by 25, which round down
  function Shr26(x: int32): (r: int32)
    ensures r as int == Div26(x as int) && -32 <= r < 32
  {
    x / 0x400_0000
  }

  function Shr25(x: int32): (r: int32)
    ensures r as int == Div25(x as int) && -64 <= r < 64
  {
    x / 0x200_0000
  }

  // The stated bounds do not keep |h| below the prime: the largest limbs do not, and have the quotient 1.
  lemma BoundsPassPrime()
    ensures var e, o := E220, E220 / 2;
            var h := [e, o, e, o, e, o, e, o, e, o];
            Within(h, E220) && Weigh(h) > Q && Weigh(h) / Q == 1
  {
  }

  // The stated bounds allow a quotient of -2 or 1.
  lemma QuotientRange(h: seq<int>)
    requires Within(h, E220)
    ensures -2 <= Weigh(h) / Q <= 1
  {
    var v := Weigh(h);
    assert -2 * Q <= v < 2 * Q;
  }

  // the ten lines of the cascade
  method Quotient(h: array<int32>) returns (q: int32)
    requires h.Length == 10 && Within(Limbs(h), E220)
    ensures q as int == Fe.Value(h) / Q && -2 <= q <= 1
  {
    hide Shr26, Shr25, Div26, Div25, Weigh;
    q := Shr25(19 * h[9] + 0x100_0000);
    q := Shr26(h[0] + q);
    q := Shr25(h[1] + q);
    q := Shr26(h[2] + q);
    q := Shr25(h[3] + q);
    q := Shr26(h[4] + q);
    q := Shr25(h[5] + q);
    q := Shr26(h[6] + q);
    q := Shr25(h[7] + q);
    q := Shr26(h[8] + q);
    q := Shr25(h[9] + q);
    CascadeIsDivision(Limbs(h), Div25(19 * h[9] as int + 0x100_0000));
    QuotientByPrime(Limbs(h));
    QuotientRange(Limbs(h));
  }

  // the carry out of a limb of 26 bits, rounded down, into the next limb
  method Floor26(x: int32, y: int32) returns (x': int32, y': int32)
    requires -0x7000_0000 <= y <= 0x7000_0000
    ensures y' as int == y as int + Div26(x as int)
    ensures x' as int == x as int - Div26(x as int) * 0x400_0000
    ensures 0 <= x' < 0x400_0000 && y - 32 <= y' <= y + 32
  {
    var carry := x / 0x400_0000;
    y' := y + carry;
    x' := x - carry * 0x400_0000;
  }

  // the same for a limb of 25 bits
  method Floor25(x: int32, y: int32) returns (x': int32, y': int32)
    requires -0x7000_0000 <= y <= 0x7000_0000
    ensures y' as int == y as int + Div25(x as int)
    ensures x' as int == x as int - Div25(x as int) * 0x200_0000
    ensures 0 <= x' < 0x200_0000 && y - 64 <= y' <= y + 64
  {
    var carry := x / 0x200_0000;
    y' := y + carry;
    x' := x - carry * 0x200_0000;
  }

  // canonical limbs: non-negative and below 2^26 or 2^25
  ghost predicate Frozen(r: seq<int>) {
    && |r| == 10
    && 0 <= r[0] < 0x400_0000 && 0 <= r[1] < 0x200_0000 && 0 <= r[2] < 0x400_0000 && 0 <= r[3] < 0x200_0000
    && 0 <= r[4] < 0x400_0000 && 0 <= r[5] < 0x200_0000 && 0 <= r[6] < 0x400_0000 && 0 <= r[7] < 0x200_0000
    && 0 <= r[8] < 0x400_0000 && 0 <= r[9] < 0x200_0000
  }

  // Output h - pq: the carry out of limb 9 is q itself.
  lemma FrozenValue(v: int, q: int, r: seq<int>, carry9: int)
    requires q == v / Q && Frozen(r)
    requires Weigh(r) + carry9 * POW255 == v + 19 * q
    ensures Weigh(r) == v % Q
  {
    var m := v % Q;
    assert 0 <= Weigh(r) < POW255;
    hide Weigh, Frozen;
    assert v + 19 * q == m + q * POW255;
    assert Weigh(r) - m == POW255 * (q - carry9);
    SmallMultiple(POW255, q - carry9);
  }

  // fe_tobytes up to the packing
  method Freeze(h: array<int32>) returns (h0: int32, h1: int32, h2: int32, h3: int32, h4: int32, h5: int32,
      h6: int32, h7: int32, h8: int32, h9: int32)
    requires h.Length == 10 && Within(Limbs(h), E220)
    ensures Frozen([h0 as int, h1 as int, h2 as int, h3 as int, h4 as int, h5 as int, h6 as int, h7 as int,
        h8 as int, h9 as int])
    ensures Weigh([h0 as int, h1 as int, h2 as int, h3 as int, h4 as int, h5 as int, h6 as int, h7 as int,
        h8 as int, h9 as int]) == Fe.Value(h) % Q
  {
    var q := Quotient(h);
    h0, h1, h2, h3, h4, h5, h6, h7, h8, h9 := h[0], h[1], h[2], h[3], h[4], h[5], h[6], h[7], h[8], h[9];
    h0 := h0 + 19 * q;
    hide Div26, Div25;
    h0, h1 := Floor26(h0, h1);
    h1, h2 := Floor25(h1, h2);
    h2, h3 := Floor26(h2, h3);
    h3, h4 := Floor25(h3, h4);
    h4, h5 := Floor26(h4, h5);
    h5, h6 := Floor25(h5, h6);
    h6, h7 := Floor26(h6, h7);
    h7, h8 := Floor25(h7, h8);
    h8, h9 := Floor26(h8, h9);
    var carry9: int32;
    h9, carry9 := Floor25(h9, 0);
    FrozenValue(Fe.Value(h), q as int, [h0 as int, h1 as int, h2 as int, h3 as int, h4 as int, h5 as int,
        h6 as int, h7 as int, h8 as int, h9 as int], carry9 as int);
  }
}
