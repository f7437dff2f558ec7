// Scalars in radix 2^21 as signed 64-bit limbs: carries, folds by the group order and their bounds.
module ScLimbs {
  import opened Ints
  import opened Arith

  const X := 0x20_0000        // 2^21, the radix
  const L := 0x1000_0000_0000_0000_0000_0000_0000_0000_14de_f9de_a2f7_9cd6_5812_631a_5cf5_d3ed

  ghost function P(i: nat): int {
    if i == 0 then 1 else X * P(i - 1)
  }

  ghost function Val(s: seq<int64>): int {
    if |s| == 0 then 0 else s[0] as int + X * Val(s[1..])
  }

  lemma {:induction false} ValUpdate(s: seq<int64>, i: nat, v: int64)
    requires i < |s|
    ensures Val(s[i := v]) == Val(s) + (v as int - s[i] as int) * P(i)
  {
    if i == 0 {
      assert s[0 := v][1..] == s[1..];
    } else {
      assert s[i := v][1..] == s[1..][i - 1 := v];
      ValUpdate(s[1..], i - 1, v);
      var d := v as int - s[i] as int;
      assert X * (d * P(i - 1)) == d * P(i);
    }
  }

  // Congruence modulo the group order.
  ghost predicate CongL(a: int, b: int) { exists k: int :: a == b + k * L }

  lemma CongLTrans(a: int, b: int, c: int)
    requires CongL(a, b) && CongL(b, c)
    ensures CongL(a, c)
  {
    var k: int :| a == b + k * L;
    var m: int :| b == c + m * L;
    assert a == c + (k + m) * L;
  }

  ghost predicate Abs(x: int64, b: int) { -b <= x as int <= b }

  // The limbs after carry := c moved c * 2^21 from limb i to limb i + 1.
  ghost predicate Carried(old_: seq<int64>, new_: seq<int64>, i: nat, c: int)
    requires i + 1 < |old_| == |new_|
  {
    && new_[i + 1] as int == old_[i + 1] as int + c
    && new_[i] as int == old_[i] as int - c * X
    && forall j :: 0 <= j < |new_| && j != i && j != i + 1 ==> new_[j] == old_[j]
  }

  lemma CarriedVal(old_: seq<int64>, new_: seq<int64>, i: nat, c: int)
    requires i + 1 < |old_| == |new_| && Carried(old_, new_, i, c)
    ensures Val(new_) == Val(old_)
  {
    var mid := old_[i + 1 := new_[i + 1]];
    ValUpdate(old_, i + 1, new_[i + 1]);
    ValUpdate(mid, i, new_[i]);
    assert new_ == mid[i := new_[i]];
    hide Val, P;
    Shift(new_[i + 1] as int - old_[i + 1] as int, new_[i] as int - old_[i] as int, c, i);
  }

  lemma Shift(a: int, b: int, c: int, i: nat)
    requires a == c && b == -(c * X)
    ensures a * P(i + 1) + b * P(i) == 0
  {
    var p := P(i);
    assert P(i + 1) == X * p;
    hide P;
    assert c * (X * p) == (c * X) * p;
    assert (-(c * X)) * p == -((c * X) * p);
  }

  // the carry out of limb i, rounded to nearest, into limb i + 1
  // b bounds limb i and d limb i + 1.
  method Carry(s: array<int64>, i: nat, ghost b: nat, ghost d: nat)
    requires i + 1 < s.Length
    requires b <= 0x6000_0000_0000_0000 && d <= 0x6000_0000_0000_0000
    requires Abs(s[i], b) && Abs(s[i + 1], d)
    modifies s
    ensures Carried(old(s[..]), s[..], i, (old(s[i]) as int + 0x10_0000) / X)
    ensures Val(s[..]) == old(Val(s[..]))
    ensures Abs(s[i], 0x10_0000) && Abs(s[i + 1], d + b / X + 1)
    ensures forall j :: 0 <= j < s.Length && j != i && j != i + 1 ==> s[j] == old(s[j])
  {
    var carry := (s[i] + 0x10_0000) / 0x20_0000;
    s[i + 1] := s[i + 1] + carry;
    s[i] := s[i] - carry * 0x20_0000;
    CarriedVal(old(s[..]), s[..], i, carry as int);
  }

  // the carry out of limb i, rounded down, into limb i + 1
  method FloorCarry(s: array<int64>, i: nat, ghost b: nat, ghost d: nat)
    requires i + 1 < s.Length
    requires b <= 0x6000_0000_0000_0000 && d <= 0x6000_0000_0000_0000
    requires Abs(s[i], b) && Abs(s[i + 1], d)
    modifies s
    ensures Carried(old(s[..]), s[..], i, old(s[i]) as int / X)
    ensures Val(s[..]) == old(Val(s[..]))
    ensures 0 <= s[i] < 0x20_0000 && Abs(s[i + 1], d + b / X + 1)
    ensures forall j :: 0 <= j < s.Length && j != i && j != i + 1 ==> s[j] == old(s[j])
  {
    var carry := s[i] / 0x20_0000;
    s[i + 1] := s[i + 1] + carry;
    s[i] := s[i] - carry * 0x20_0000;
    CarriedVal(old(s[..]), s[..], i, carry as int);
  }

  ghost function Term(t: int, k: int, j: nat): int { t * k * P(j) }

  // t times k is added to limb j
  method AddMul(s: array<int64>, j: nat, t: int64, k: int64)
    requires j < s.Length
    requires Abs(s[j], 0x6000_0000_0000_0000) && Abs(t, 0x200_0000_0000) && Abs(k, 0xF_FFFF)
    modifies s
    ensures Val(s[..]) == old(Val(s[..])) + Term(t as int, k as int, j)
    ensures s[j] as int == old(s[j]) as int + t as int * k as int
    ensures forall i :: 0 <= i < s.Length && i != j ==> s[i] == old(s[i])
  {
    ghost var s0 := s[..];
    MulAbs(t as int, k as int, 0x200_0000_0000, 0xF_FFFF);
    s[j] := s[j] + t * k;
    ValUpdate(s0, j, s[j]);
    assert s[..] == s0[j := s[j]];
  }

  lemma PStep(i: nat)
    requires 12 <= i
    ensures P(i - 11) == X * P(i - 12)
    ensures P(i - 10) == X * X * P(i - 12)
    ensures P(i - 9) == X * X * X * P(i - 12)
    ensures P(i - 8) == X * X * X * X * P(i - 12)
    ensures P(i - 7) == X * X * X * X * X * P(i - 12)
    ensures P(i) == X * X * X * X * X * X * X * X * X * X * X * X * P(i - 12)
  {
    assert P(i - 8) == X * P(i - 9);
    assert P(i - 7) == X * P(i - 8);
    assert P(i - 6) == X * P(i - 7);
    assert P(i - 5) == X * P(i - 6);
    assert P(i - 4) == X * P(i - 5);
    assert P(i - 3) == X * P(i - 4);
    assert P(i - 2) == X * P(i - 3);
    assert P(i - 1) == X * P(i - 2);
  }

  lemma FoldIdentity(t: int, i: nat)
    requires 12 <= i
    ensures Term(t, 666643, i - 12) + Term(t, 470296, i - 11) + Term(t, 654183, i - 10)
      + Term(t, -997805, i - 9) + Term(t, 136657, i - 8) + Term(t, -683901, i - 7)
      + Term(t, -1, i) == Term(t, -L, i - 12)
  {
    var p := P(i - 12);
    PStep(i);
    calc {
      Term(t, 666643, i - 12) + Term(t, 470296, i - 11) + Term(t, 654183, i - 10)
      + Term(t, -997805, i - 9) + Term(t, 136657, i - 8) + Term(t, -683901, i - 7)
      + Term(t, -1, i);
      t * 666643 * p + t * 470296 * (X * p) + t * 654183 * (X * X * p) + t * -997805 * (X * X * X * p)
      + t * 136657 * (X * X * X * X * p) + t * -683901 * (X * X * X * X * X * p)
      + t * -1 * (X * X * X * X * X * X * X * X * X * X * X * X * p);
      (t * p) * (666643 + 470296 * X + 654183 * X * X - 997805 * X * X * X + 136657 * X * X * X * X
      - 683901 * X * X * X * X * X - X * X * X * X * X * X * X * X * X * X * X * X);
      (t * p) * -L;
      Term(t, -L, i - 12);
    }
  }

  lemma Clear(s: seq<int64>, i: nat)
    requires i < |s|
    ensures Val(s[i := 0]) == Val(s) + Term(s[i] as int, -1, i)
  {
    ValUpdate(s, i, 0);
  }

  lemma FoldCong(a: int, b: int, t: int, i: nat)
    requires 12 <= i && a == b + Term(t, -L, i - 12)
    ensures CongL(a, b)
  {
    var p := t * P(i - 12);
    assert a == b + (-p) * L;
  }

  // The new limbs after folding limb i away, one equation a statement.
  ghost predicate Folded(old_: seq<int64>, new_: seq<int64>, i: nat)
    requires 12 <= i < |old_| == |new_|
  {
    var t := old_[i] as int;
    && new_[i] == 0
    && new_[i - 12] as int == old_[i - 12] as int + t * 666643
    && new_[i - 11] as int == old_[i - 11] as int + t * 470296
    && new_[i - 10] as int == old_[i - 10] as int + t * 654183
    && new_[i - 9] as int == old_[i - 9] as int - t * 997805
    && new_[i - 8] as int == old_[i - 8] as int + t * 136657
    && new_[i - 7] as int == old_[i - 7] as int - t * 683901
    && forall j :: 0 <= j < |new_| && j != i && !(i - 12 <= j < i - 6) ==> new_[j] == old_[j]
  }

  lemma FoldedBound(old_: seq<int64>, new_: seq<int64>, i: nat, t: int, b: int)
    requires 12 <= i < |old_| == |new_| && Folded(old_, new_, i)
    requires Abs(old_[i], t)
    requires forall k :: i - 12 <= k < i - 6 ==> Abs(old_[k], b)
    ensures forall k :: i - 12 <= k < i - 6 ==> Abs(new_[k], b + t * 0x10_0000)
  {
    forall k | i - 12 <= k < i - 6 ensures Abs(new_[k], b + t * 0x10_0000) {
      var j := k - (i - 12);
      assert j == 0 || j == 1 || j == 2 || j == 3 || j == 4 || j == 5;
    }
  }

  // Folds limb i into the six limbs at i-12..i-7, using that 2^252 is congruent to the signed
  // combination of the six constants.  t and b bound the folded and the receiving limbs.
  method Fold(s: array<int64>, i: nat, ghost t: nat, ghost b: nat)
    requires 12 <= i < s.Length
    requires t <= 0x200_0000_0000 && b <= 0x6000_0000_0000_0000
    requires Abs(s[i], t)
    requires forall k :: i - 12 <= k < i - 6 ==> Abs(s[k], b)
    modifies s
    ensures Val(s[..]) == old(Val(s[..])) + Term(old(s[i]) as int, -L, i - 12)
    ensures CongL(Val(s[..]), old(Val(s[..])))
    ensures Folded(old(s[..]), s[..], i)
    ensures s[i] == 0
    ensures forall k :: i - 12 <= k < i - 6 ==> Abs(s[k], b + t * 0x10_0000)
    ensures forall j :: 0 <= j < s.Length && j != i && !(i - 12 <= j < i - 6) ==> s[j] == old(s[j])
  {
    hide Term, CongL;
    AddMul(s, i - 12, s[i], 666643);
    AddMul(s, i - 11, s[i], 470296);
    AddMul(s, i - 10, s[i], 654183);
    AddMul(s, i - 9, s[i], -997805);
    AddMul(s, i - 8, s[i], 136657);
    AddMul(s, i - 7, s[i], -683901);
    ghost var s1 := s[..];
    s[i] := 0;
    Clear(s1, i);
    assert s[..] == s1[i := 0];
    FoldIdentity(s1[i] as int, i);
    FoldCong(Val(s[..]), old(Val(s[..])), s1[i] as int, i);
    FoldedBound(old(s[..]), s[..], i, t, b);
  }

  method FoldTop(s: array<int64>)
    requires s.Length == 24
    requires forall k :: 0 <= k < 24 ==> Abs(s[k], 0x4_0000_0000)
    modifies s
    ensures CongL(Val(s[..]), old(Val(s[..])))
    ensures forall k :: 0 <= k < 17 ==> Abs(s[k], 0x200_0000_0000_0000)
    ensures Abs(s[17], 0x4_0000_0000)
    ensures forall k :: 18 <= k < 24 ==> s[k] == 0
  {
    hide CongL, Folded, Val, Term;
    ghost var v0 := Val(s[..]);
    ghost var t, g := 0x4_0000_0000, 0x40_0000_0000_0000;
    Fold(s, 23, t, t);
    ghost var v := Val(s[..]);
    Fold(s, 22, t, t + g);
    CongLTrans(Val(s[..]), v, v0);
    v := Val(s[..]);
    Fold(s, 21, t, t + 2 * g);
    CongLTrans(Val(s[..]), v, v0);
    v := Val(s[..]);
    Fold(s, 20, t, t + 3 * g);
    CongLTrans(Val(s[..]), v, v0);
    v := Val(s[..]);
    Fold(s, 19, t, t + 4 * g);
    CongLTrans(Val(s[..]), v, v0);
    v := Val(s[..]);
    Fold(s, 18, t, t + 5 * g);
    CongLTrans(Val(s[..]), v, v0);
  }

  // carry6, carry8, .., carry16
  method CarryMidEven(s: array<int64>)
    requires s.Length == 24
    requires forall k :: 0 <= k < 17 ==> Abs(s[k], 0x200_0000_0000_0000)
    requires Abs(s[17], 0x4_0000_0000)
    modifies s
    ensures Val(s[..]) == old(Val(s[..]))
    ensures forall k :: 0 <= k < 17 ==> Abs(s[k], 0x200_0010_0000_0001)
    ensures Abs(s[6], 0x10_0000) && Abs(s[8], 0x10_0000) && Abs(s[10], 0x10_0000)
    ensures Abs(s[12], 0x10_0000) && Abs(s[14], 0x10_0000) && Abs(s[16], 0x10_0000)
    ensures Abs(s[17], 0x14_0000_0001)
    ensures forall k :: 0 <= k < 6 || 18 <= k < 24 ==> s[k] == old(s[k])
  {
    hide Carried, Val;
    ghost var b := 0x200_0000_0000_0000;
    Carry(s, 6, b, b);
    Carry(s, 8, b, b);
    Carry(s, 10, b, b);
    Carry(s, 12, b, b);
    Carry(s, 14, b, b);
    Carry(s, 16, b, 0x4_0000_0000);
  }

  // carry7, carry9, .., carry15
  method CarryMidOdd(s: array<int64>)
    requires s.Length == 24
    requires forall k :: 0 <= k < 17 ==> Abs(s[k], 0x200_0010_0000_0001)
    requires Abs(s[6], 0x10_0000) && Abs(s[8], 0x10_0000) && Abs(s[10], 0x10_0000)
    requires Abs(s[12], 0x10_0000) && Abs(s[14], 0x10_0000) && Abs(s[16], 0x10_0000)
    requires Abs(s[17], 0x14_0000_0001)
    modifies s
    ensures Val(s[..]) == old(Val(s[..]))
    ensures forall k :: 6 <= k < 18 ==> Abs(s[k], 0x20_0000_0000)
    ensures forall k :: 0 <= k < 6 || 18 <= k < 24 ==> s[k] == old(s[k])
  {
    hide Carried, Val;
    ghost var b, d := 0x200_0010_0000_0001, 0x10_0000;
    Carry(s, 7, b, d);
    Carry(s, 9, b, d);
    Carry(s, 11, b, d);
    Carry(s, 13, b, d);
    Carry(s, 15, b, d);
  }

  method FoldMid(s: array<int64>)
    requires s.Length == 24
    requires forall k :: 0 <= k < 6 ==> Abs(s[k], 0x200_0000_0000_0000)
    requires forall k :: 6 <= k < 18 ==> Abs(s[k], 0x20_0000_0000)
    requires forall k :: 18 <= k < 24 ==> s[k] == 0
    modifies s
    ensures CongL(Val(s[..]), old(Val(s[..])))
    ensures forall k :: 0 <= k < 12 ==> Abs(s[k], 0x1000_0000_0000_0000)
    ensures forall k :: 12 <= k < 24 ==> s[k] == 0
  {
    hide CongL, Folded, Val, Term;
    ghost var v0 := Val(s[..]);
    ghost var t, b, g := 0x20_0000_0000, 0x200_0000_0000_0000, 0x200_0000_0000_0000;
    Fold(s, 17, t, b);
    ghost var v := Val(s[..]);
    Fold(s, 16, t, b + g);
    CongLTrans(Val(s[..]), v, v0);
    v := Val(s[..]);
    Fold(s, 15, t, b + 2 * g);
    CongLTrans(Val(s[..]), v, v0);
    v := Val(s[..]);
    Fold(s, 14, t, b + 3 * g);
    CongLTrans(Val(s[..]), v, v0);
    v := Val(s[..]);
    Fold(s, 13, t, b + 4 * g);
    CongLTrans(Val(s[..]), v, v0);
    v := Val(s[..]);
    Fold(s, 12, t, b + 5 * g);
    CongLTrans(Val(s[..]), v, v0);
  }

  // carry0, carry2, .., carry10
  method CarryLowEven(s: array<int64>)
    requires s.Length == 24
    requires forall k :: 0 <= k < 12 ==> Abs(s[k], 0x1000_0000_0000_0000)
    modifies s
    ensures Val(s[..]) == old(Val(s[..]))
    ensures forall k :: 0 <= k < 12 ==> Abs(s[k], 0x1000_0100_0000_0000)
    ensures Abs(s[0], 0x10_0000) && Abs(s[2], 0x10_0000) && Abs(s[4], 0x10_0000)
    ensures Abs(s[6], 0x10_0000) && Abs(s[8], 0x10_0000) && Abs(s[10], 0x10_0000)
    ensures forall k :: 12 <= k < 24 ==> s[k] == old(s[k])
  {
    hide Carried, Val;
    ghost var b := 0x1000_0000_0000_0000;
    Carry(s, 0, b, b);
    Carry(s, 2, b, b);
    Carry(s, 4, b, b);
    Carry(s, 6, b, b);
    Carry(s, 8, b, b);
    Carry(s, 10, b, b);
  }

  // carry1, carry3, .., carry11
  method CarryLowOdd(s: array<int64>)
    requires s.Length == 24
    requires forall k :: 0 <= k < 12 ==> Abs(s[k], 0x1000_0100_0000_0000)
    requires Abs(s[0], 0x10_0000) && Abs(s[2], 0x10_0000) && Abs(s[4], 0x10_0000)
    requires Abs(s[6], 0x10_0000) && Abs(s[8], 0x10_0000) && Abs(s[10], 0x10_0000)
    requires forall k :: 12 <= k < 24 ==> s[k] == 0
    modifies s
    ensures Val(s[..]) == old(Val(s[..]))
    ensures forall k :: 0 <= k < 11 ==> Abs(s[k], 0x100_0000_0000)
    ensures Abs(s[11], 0x10_0000) && Abs(s[12], 0x100_0000_0000)
    ensures forall k :: 13 <= k < 24 ==> s[k] == 0
  {
    hide Carried, Val;
    ghost var b, d := 0x1000_0100_0000_0000, 0x10_0000;
    Carry(s, 1, b, d);
    Carry(s, 3, b, d);
    Carry(s, 5, b, d);
    Carry(s, 7, b, d);
    Carry(s, 9, b, d);
    Carry(s, 11, b, 0);
  }

  // The floor carries carry0..carry10.
  method FloorPass(s: array<int64>)
    requires s.Length == 24
    requires forall k :: 0 <= k < 12 ==> Abs(s[k], 0x2000_0000_0000_0000)
    modifies s
    ensures Val(s[..]) == old(Val(s[..]))
    ensures forall k :: 0 <= k < 11 ==> 0 <= s[k] < 0x20_0000
    ensures Abs(s[11], 0x2000_0200_0000_0000)
    ensures forall k :: 12 <= k < 24 ==> s[k] == old(s[k])
  {
    hide Carried, Val;
    ghost var b, d := 0x2000_0000_0000_0000, 0x2000_0200_0000_0000;
    FloorPassLow(s);
    FloorCarry(s, 5, d, b);
    FloorCarry(s, 6, d, b);
    FloorCarry(s, 7, d, b);
    FloorCarry(s, 8, d, b);
    FloorCarry(s, 9, d, b);
    FloorCarry(s, 10, d, b);
  }

  // The floor carries carry0..carry4.
  method FloorPassLow(s: array<int64>)
    requires s.Length == 24
    requires forall k :: 0 <= k < 12 ==> Abs(s[k], 0x2000_0000_0000_0000)
    modifies s
    ensures Val(s[..]) == old(Val(s[..]))
    ensures forall k :: 0 <= k < 5 ==> 0 <= s[k] < 0x20_0000
    ensures Abs(s[5], 0x2000_0200_0000_0000)
    ensures forall k :: 6 <= k < 24 ==> s[k] == old(s[k])
  {
    hide Carried, Val;
    ghost var b, d := 0x2000_0000_0000_0000, 0x2000_0200_0000_0000;
    FloorCarry(s, 0, b, b);
    FloorCarry(s, 1, d, b);
    FloorCarry(s, 2, d, b);
    FloorCarry(s, 3, d, b);
    FloorCarry(s, 4, d, b);
  }

  // ----- value bounds of a limb vector -----

  lemma {:induction false} ValSplit(s: seq<int64>, n: nat)
    requires n <= |s|
    ensures Val(s) == Val(s[..n]) + P(n) * Val(s[n..])
  {
    if n == 0 {
      assert s[0..] == s;
    } else {
      ValSplit(s[1..], n - 1);
      assert s[1..][..n - 1] == s[..n][1..];
      assert s[1..][n - 1..] == s[n..];
      var v := Val(s[n..]);
      assert X * (P(n - 1) * v) == P(n) * v;
    }
  }

  lemma {:induction false} ValZero(s: seq<int64>)
    requires forall k :: 0 <= k < |s| ==> s[k] == 0
    ensures Val(s) == 0
  {
    if |s| > 0 {
      ValZero(s[1..]);
    }
  }

  // limbs 0..n carry the whole value when the limbs above are zero
  lemma ValTop(s: seq<int64>, n: nat)
    requires n < |s| && forall k :: n < k < |s| ==> s[k] == 0
    ensures Val(s) == Val(s[..n]) + P(n) * s[n] as int
  {
    ValSplit(s, n);
    var t := s[n..];
    ValZero(t[1..]);
    assert Val(t) == s[n] as int;
  }

  lemma {:induction false} ValAbs(s: seq<int64>, b: nat)
    requires forall k :: 0 <= k < |s| ==> Abs(s[k], b)
    ensures -(b * (P(|s|) - 1)) <= (X - 1) * Val(s) <= b * (P(|s|) - 1)
  {
    if |s| > 0 {
      ValAbs(s[1..], b);
      var p := P(|s| - 1);
      assert b * (X * p - 1) == X * (b * (p - 1)) + b * (X - 1);
    }
  }

  lemma {:induction false} ValDigits(s: seq<int64>)
    requires forall k :: 0 <= k < |s| ==> 0 <= s[k] < 0x20_0000
    ensures 0 <= Val(s) < P(|s|)
  {
    if |s| > 0 {
      ValDigits(s[1..]);
    }
  }

  lemma Powers()
    ensures P(0) == 1
    ensures P(5) == 0x200_0000_0000_0000_0000_0000_0000
    ensures P(6) == 0x4000_0000_0000_0000_0000_0000_0000_0000
    ensures P(11) == 0x80_0000_0000_0000_0000_0000_0000_0000_0000_0000_0000_0000_0000_0000_0000
    ensures P(12) == 0x1000_0000_0000_0000_0000_0000_0000_0000_0000_0000_0000_0000_0000_0000_0000_0000
  {
  }

  // After the last round-to-nearest carries and the fold of limb 12 the value is in (-2^252, 2^252).
  lemma NearZero(s: seq<int64>)
    requires |s| == 24
    requires forall k :: 0 <= k < 6 ==> Abs(s[k], 0x2000_0000_0000_0000)
    requires forall k :: 6 <= k < 11 ==> Abs(s[k], 0x100_0000_0000)
    requires Abs(s[11], 0x10_0000)
    requires forall k :: 12 <= k < 24 ==> s[k] == 0
    ensures -P(12) < Val(s) < P(12)
  {
    Powers();
    ValTop(s, 11);
    ValSplit(s[..11], 6);
    assert s[..11][..6] == s[..6];
    ValAbs(s[..6], 0x2000_0000_0000_0000);
    ValAbs(s[..11][6..], 0x100_0000_0000);
  }

  // The carry out of limb 11 after the first floor pass is the sign of the value.
  lemma SignLimb(s: seq<int64>)
    requires |s| == 24
    requires forall k :: 0 <= k < 12 ==> 0 <= s[k] < 0x20_0000
    requires forall k :: 13 <= k < 24 ==> s[k] == 0
    requires -P(12) < Val(s) < P(12)
    ensures s[12] as int == if Val(s) < 0 then -1 else 0
  {
    ValTop(s, 12);
    ValDigits(s[..12]);
    Powers();
  }

  // Folding the sign limb adds the group order to a negative value.
  lemma SignFold(v: int, w: int, t: int)
    requires -P(12) < v < P(12) && t == (if v < 0 then -1 else 0)
    requires w == v + Term(t, -L, 0)
    ensures w == if v < 0 then v + L else v
    ensures 0 <= w < L
  {
    Powers();
  }

  lemma CanonicalTop(s: seq<int64>)
    requires |s| == 24
    requires forall k :: 0 <= k < 11 ==> 0 <= s[k] < 0x20_0000
    requires forall k :: 12 <= k < 24 ==> s[k] == 0
    requires 0 <= Val(s) < L
    ensures 0 <= s[11] <= 0x20_0000
  {
    ValTop(s, 11);
    ValDigits(s[..11]);
    Powers();
  }

  lemma ModL(w: int, u: int, v: int)
    requires w == u || w == u + L
    requires CongL(u, v) && 0 <= w < L
    ensures w == v % L
  {
    var k: int :| u == v + k * L;
    if w == u {
      DivMod(v, L, -k, w);
    } else {
      DivMod(v, L, -k - 1, w);
    }
  }

  // The common tail of sc_reduce and sc_muladd on the 24 limbs.
  method ReduceLimbs(s: array<int64>)
    requires s.Length == 24
    requires forall k :: 0 <= k < 24 ==> Abs(s[k], 0x4_0000_0000)
    modifies s
    ensures Val(s[..]) == old(Val(s[..])) % L
    ensures forall k :: 0 <= k < 11 ==> 0 <= s[k] < 0x20_0000
    ensures 0 <= s[11] <= 0x20_0000
    ensures forall k :: 12 <= k < 24 ==> s[k] == 0
  {
    hide CongL, Folded, Carried, Val, Term, P;
    ghost var v0 := Val(s[..]);
    FoldTop(s);
    CarryMidEven(s);
    CarryMidOdd(s);
    ghost var v := Val(s[..]);
    FoldMid(s);
    CongLTrans(Val(s[..]), v, v0);
    CarryLowEven(s);
    CarryLowOdd(s);
    v := Val(s[..]);
    Fold(s, 12, 0x100_0000_0000, 0x100_0000_0000);
    CongLTrans(Val(s[..]), v, v0);
    NearZero(s[..]);
    v := Val(s[..]);
    FinishLimbs(s);
    ModL(Val(s[..]), v, v0);
  }

  // First floor pass, fold of the sign, second floor pass.
  method FinishLimbs(s: array<int64>)
    requires s.Length == 24
    requires forall k :: 0 <= k < 12 ==> Abs(s[k], 0x2000_0000_0000_0000)
    requires forall k :: 12 <= k < 24 ==> s[k] == 0
    requires -P(12) < Val(s[..]) < P(12)
    modifies s
    ensures Val(s[..]) == if old(Val(s[..])) < 0 then old(Val(s[..])) + L else old(Val(s[..]))
    ensures 0 <= Val(s[..]) < L
    ensures forall k :: 0 <= k < 11 ==> 0 <= s[k] < 0x20_0000
    ensures 0 <= s[11] <= 0x20_0000
    ensures forall k :: 12 <= k < 24 ==> s[k] == 0
  {
    hide CongL, Folded, Carried, Val, Term, P;
    ghost var v := Val(s[..]);
    FloorPass(s);
    FloorCarry(s, 11, 0x2000_0200_0000_0000, 0);
    SignLimb(s[..]);
    ghost var t := s[12] as int;
    Fold(s, 12, 1, 0x20_0000);
    SignFold(v, Val(s[..]), t);
    FloorPass(s);
    CanonicalTop(s[..]);
  }
}
