// The Keccak-f[1600] permutation of sha3.c against the step mappings of section 3.2 of FIPS 202.
// A state is a sequence of 25 lanes; the lane (x, y) is at x + 5 y.
module Keccak {
  // ----- lanes -----

  function Exor(a: bv64, b: bv64): bv64 { a ^ b }

  // (~a) & b
  function NotAnd(a: bv64, b: bv64): bv64 { (!a) & b }

  // ROTL64, which the source uses for 1 to 63 places
  function RotL(a: bv64, n: bv7): bv64
    requires n < 64
  {
    if n == 0 then a else (a << n) | (a >> (64 - n))
  }

  // ROTL64 by one place
  function Turn(a: bv64): bv64 { (a << 1) | (a >> 63) }

  type Lanes = s: seq<bv64> | |s| == 25 witness seq(25, _ => 0)

  // ----- section 3.2.1: theta -----

  // the parity of column x, lane by lane
  function Parity(a: Lanes, x: nat): bv64
    requires x < 5
  {
    Exor(Exor(Exor(Exor(a[x], a[x + 5]), a[x + 10]), a[x + 15]), a[x + 20])
  }

  function ThetaEffect(a: Lanes, x: nat): bv64
    requires x < 5
  {
    Exor(Parity(a, Plus(x, 4)), Turn(Parity(a, Plus(x, 1))))
  }

  ghost function ThetaLane(a: Lanes, l: nat): bv64
    requires l < 25
  {
    Exor(a[l], ThetaEffect(a, l % 5))
  }

  ghost function Theta(a: Lanes): (r: Lanes)
  {
    seq(25, l requires 0 <= l < 25 => ThetaLane(a, l))
  }

  lemma ThetaLanes(a: Lanes)
    ensures forall l :: 0 <= l < 25 ==> Theta(a)[l] == ThetaLane(a, l)
  {
    hide ThetaLane;
  }

  lemma SmallAmount(n: nat)
    requires n < 64
    ensures n as bv7 < 64
  {
  }

  lemma Amount(n: bv7)
    ensures (n as nat) as bv7 == n
  {
  }

  // ----- bits -----

  // the word with bit z alone
  ghost function Mask(z: nat): bv64 { if z == 0 then 1 else Turn(Mask(z - 1)) }

  // bit z of a lane
  ghost predicate Bit(w: bv64, z: nat) { Meets(w, Mask(z)) }

  ghost predicate Meets(w: bv64, m: bv64) { w & m != 0 }

  ghost predicate Single(m: bv64) { m != 0 && m & (m - 1) == 0 }

  lemma TurnSingle(m: bv64)
    requires Single(m)
    ensures Single(Turn(m))
  {
  }

  lemma OneSingle()
    ensures Single(1)
  {
  }

  lemma {:induction false} MaskSingle(z: nat)
    ensures Single(Mask(z))
  {
    hide Turn, Single;
    if z == 0 {
      OneSingle();
    } else {
      MaskSingle(z - 1);
      TurnSingle(Mask(z - 1));
    }
  }

  lemma TurnEight(m: bv64)
    ensures Turn(Turn(Turn(Turn(Turn(Turn(Turn(Turn(m)))))))) == (m << 8) | (m >> 56)
  {
  }

  lemma MaskEight(z: nat)
    ensures Mask(z + 8) == (Mask(z) << 8) | (Mask(z) >> 56)
  {
    var m := Mask(z);
    TurnEight(m);
    hide Turn;
    assert Mask(z + 1) == Turn(m) && Mask(z + 2) == Turn(Turn(m)) && Mask(z + 3) == Turn(Turn(Turn(m)));
    assert Mask(z + 5) == Turn(Turn(Mask(z + 3))) && Mask(z + 7) == Turn(Turn(Mask(z + 5)));
    assert Mask(z + 8) == Turn(Mask(z + 7));
  }

  // Past the top bit comes bit 0.
  lemma MaskPeriod()
    ensures Turn(Mask(63)) == Mask(0)
  {
    hide Mask;
    assert Mask(0) == 1 by { MaskZero(); }
    MaskEight(0);
    MaskEight(8);
    MaskEight(16);
    MaskEight(24);
    MaskEight(32);
    MaskEight(40);
    MaskEight(48);
    MaskEight(56);
    assert Mask(64) == Turn(Mask(63)) by { MaskStep(); }
  }

  lemma MaskZero()
    ensures Mask(0) == 1
  {
  }

  lemma MaskStep()
    ensures Mask(64) == Turn(Mask(63))
  {
    hide Turn;
  }

  lemma BitExor(a: bv64, b: bv64, z: nat)
    ensures Bit(Exor(a, b), z) <==> (Bit(a, z) != Bit(b, z))
  {
    hide Mask, Meets, Single;
    MaskSingle(z);
    ExorMeets(a, b, Mask(z), Exor(a, b));
  }

  lemma ExorMeets(a: bv64, b: bv64, m: bv64, r: bv64)
    requires Single(m) && r == a ^ b
    ensures Meets(r, m) <==> (Meets(a, m) != Meets(b, m))
  {
  }

  lemma BitNotAnd(a: bv64, b: bv64, z: nat)
    ensures Bit(NotAnd(a, b), z) <==> !Bit(a, z) && Bit(b, z)
  {
    hide Mask, Meets, Single;
    MaskSingle(z);
    NotAndMeets(a, b, Mask(z), NotAnd(a, b));
  }

  lemma NotAndMeets(a: bv64, b: bv64, m: bv64, r: bv64)
    requires Single(m) && r == (!a) & b
    ensures Meets(r, m) <==> !Meets(a, m) && Meets(b, m)
  {
  }

  lemma TurnMeets(a: bv64, m: bv64)
    ensures Meets(Turn(a), Turn(m)) <==> Meets(a, m)
  {
  }

  lemma BitTurn(a: bv64, z: nat)
    requires z < 64
    ensures Bit(Turn(a), z) <==> Bit(a, (z + 63) % 64)
  {
    hide Turn, Meets;
    if z == 0 {
      MaskPeriod();
    }
    TurnMeets(a, Mask((z + 63) % 64));
  }

  // the number of ones
  ghost function Ones(s: seq<bool>): nat {
    if |s| == 0 then 0 else (if s[0] then 1 else 0) + Ones(s[1..])
  }

  // the five bits of column (x, z)
  ghost function Column(a: Lanes, x: nat, z: nat): seq<bool>
    requires x < 5
  {
    [Bit(a[x], z), Bit(a[x + 5], z), Bit(a[x + 10], z), Bit(a[x + 15], z), Bit(a[x + 20], z)]
  }

  lemma OnesFirst(p: bool, s: seq<bool>)
    ensures Ones([p] + s) == (if p then 1 else 0) + Ones(s) && Ones([]) == 0
  {
    assert ([p] + s)[1..] == s;
  }

  lemma OnesOfFive(p: bool, q: bool, r: bool, s: bool, t: bool)
    ensures Ones([p, q, r, s, t]) % 2 == 1 <==> ((((p != q) != r) != s) != t)
  {
    hide Ones;
    assert [p, q, r, s, t] == [p] + [q, r, s, t] && [q, r, s, t] == [q] + [r, s, t] && [r, s, t] == [r] + [s, t];
    assert [s, t] == [s] + [t] && [t] == [t] + [];
    OnesFirst(p, [q, r, s, t]);
    OnesFirst(q, [r, s, t]);
    OnesFirst(r, [s, t]);
    OnesFirst(s, [t]);
    OnesFirst(t, []);
  }

  lemma BitParity(a: Lanes, x: nat, z: nat)
    requires x < 5
    ensures Bit(Parity(a, x), z) <==> Ones(Column(a, x, z)) % 2 == 1
  {
    hide Bit, Exor;
    var p := Exor(a[x], a[x + 5]);
    var q := Exor(p, a[x + 10]);
    var r := Exor(q, a[x + 15]);
    BitExor(a[x], a[x + 5], z);
    BitExor(p, a[x + 10], z);
    BitExor(q, a[x + 15], z);
    BitExor(r, a[x + 20], z);
    OnesOfFive(Bit(a[x], z), Bit(a[x + 5], z), Bit(a[x + 10], z), Bit(a[x + 15], z), Bit(a[x + 20], z));
  }

  // Section 3.2.1, bit by bit: theta flips bit (x, y, z) if the columns (x - 1, z) and (x + 1, z - 1) hold an odd
  // number of ones.
  lemma ThetaBits(a: Lanes, x: nat, y: nat, z: nat)
    requires x < 5 && y < 5 && z < 64
    ensures Bit(Theta(a)[x + 5 * y], z) != Bit(a[x + 5 * y], z)
        <==> (Ones(Column(a, (x + 4) % 5, z)) + Ones(Column(a, (x + 1) % 5, (z + 63) % 64))) % 2 == 1
  {
    hide Bit, Exor, Turn, Parity, Column, Ones, Theta;
    ThetaLanes(a);
    ModFive(x + 5 * y, y, x);
    var p, q := Parity(a, (x + 4) % 5), Parity(a, (x + 1) % 5);
    BitExor(a[x + 5 * y], Exor(p, Turn(q)), z);
    BitExor(p, Turn(q), z);
    BitTurn(q, z);
    BitParity(a, (x + 4) % 5, z);
    BitParity(a, (x + 1) % 5, (z + 63) % 64);
  }

  // ----- sections 3.2.2 and 3.2.3: rho and pi -----

  // one step of the walk (x, y) -> (y, 2x + 3y) over the lanes
  ghost function Next(l: nat): (r: nat)
    requires l < 25
    ensures r < 25
  {
    var x, y := l % 5, l / 5;
    y + 5 * ((2 * x + 3 * y) % 5)
  }

  // the t-th lane of the walk, which starts at (1, 0)
  ghost function Walk(t: nat): (r: nat)
    ensures r < 25
    decreases t
  {
    if t == 0 then 1 else Next(Walk(t - 1))
  }

  ghost function Triangular(t: nat): nat { (t + 1) * (t + 2) / 2 % 64 }

  // the offset of a lane: that of its place in the walk from step t on, 0 off the walk
  ghost function OffsetFrom(l: nat, t: nat): nat
    requires t <= 24
    decreases 24 - t
  {
    if t == 24 then 0 else if Walk(t) == l then Triangular(t) else OffsetFrom(l, t + 1)
  }

  ghost function Offset(l: nat): nat { OffsetFrom(l, 0) }

  lemma {:induction false} OffsetBound(l: nat, t: nat)
    requires t <= 24
    ensures OffsetFrom(l, t) < 64
    decreases 24 - t
  {
    if t < 24 {
      OffsetBound(l, t + 1);
    }
  }

  ghost function RhoLane(a: Lanes, l: nat): bv64
    requires l < 25
  {
    OffsetBound(l, 0);
    SmallAmount(Offset(l));
    RotL(a[l], Offset(l) as bv7)
  }

  ghost function Rho(a: Lanes): (r: Lanes)
    ensures forall l :: 0 <= l < 25 ==> r[l] == RhoLane(a, l)
  {
    seq(25, l requires 0 <= l < 25 => RhoLane(a, l))
  }

  // the lane that pi moves to (x, y): the one at (x + 3y, x)
  ghost function Source(l: nat): (r: nat)
    requires l < 25
    ensures r < 25
  {
    var x, y := l % 5, l / 5;
    (x + 3 * y) % 5 + 5 * x
  }

  ghost function Pi(a: Lanes): (r: Lanes)
    ensures forall l :: 0 <= l < 25 ==> r[l] == a[Source(l)]
  {
    seq(25, l requires 0 <= l < 25 => a[Source(l)])
  }

  // ----- section 3.2.4: chi -----

  function Plus(x: nat, s: nat): (r: nat)
    ensures r < 5
  {
    (x + s) % 5
  }

  // the lane s places to the right in the same plane
  ghost function Right(l: nat, s: nat): (r: nat)
    requires l < 25
    ensures r < 25
  {
    Plus(l % 5, s) + 5 * (l / 5)
  }

  lemma RightInPlane(j: nat, i: nat, s: nat)
    requires j % 5 == 0 && j < 25 && i < 5
    ensures Right(j + i, s) == j + Plus(i, s)
  {
    hide Plus;
    assert (j + i) / 5 == j / 5 && (j + i) % 5 == i;
  }

  ghost function ChiLane(a: Lanes, l: nat): bv64
    requires l < 25
  {
    Exor(a[l], NotAnd(a[Right(l, 1)], a[Right(l, 2)]))
  }

  ghost function Chi(a: Lanes): (r: Lanes)
    ensures forall l :: 0 <= l < 25 ==> r[l] == ChiLane(a, l)
  {
    seq(25, l requires 0 <= l < 25 => ChiLane(a, l))
  }

  // Section 3.2.4, bit by bit: chi flips a bit if its right neighbour in the row is 0 and the next one is 1.
  lemma ChiBits(a: Lanes, x: nat, y: nat, z: nat)
    requires x < 5 && y < 5 && z < 64
    ensures Bit(Chi(a)[x + 5 * y], z) != Bit(a[x + 5 * y], z)
        <==> !Bit(a[(x + 1) % 5 + 5 * y], z) && Bit(a[(x + 2) % 5 + 5 * y], z)
  {
    hide Bit, Exor, NotAnd;
    ModFive(x + 5 * y, y, x);
    var p, q := a[(x + 1) % 5 + 5 * y], a[(x + 2) % 5 + 5 * y];
    BitExor(a[x + 5 * y], NotAnd(p, q), z);
    BitNotAnd(p, q, z);
  }

  // ----- section 3.2.5: iota -----

  // the 8-bit shift register of algorithm 5, with bit 0 as the first bit
  ghost function Register(t: nat): bv8
    decreases t
  {
    if t == 0 then 1 else Shift(Register(t - 1))
  }

  function Shift(r: bv8): bv8 {
    if r & 0x80 != 0 then (r << 1) ^ 0x71 else r << 1
  }

  // the output rc(t) of the shift register of section 3.2.5
  ghost function RoundBit(t: nat): bv64 { (Register(t) & 1) as bv64 }

  // the round constant: bit 2^j - 1 is rc(j + 7 i)
  ghost function RoundConstant(i: nat): bv64 {
    RoundBit(7 * i) | (RoundBit(7 * i + 1) << 1) | (RoundBit(7 * i + 2) << 3) | (RoundBit(7 * i + 3) << 7)
    | (RoundBit(7 * i + 4) << 15) | (RoundBit(7 * i + 5) << 31) | (RoundBit(7 * i + 6) << 63)
  }

  ghost function Iota(a: Lanes, i: nat): Lanes {
    a[0 := Exor(a[0], RoundConstant(i))]
  }

  // ----- section 3.3 -----

  ghost function Round(a: Lanes, i: nat): Lanes {
    Iota(Chi(Pi(Rho(Theta(a)))), i)
  }

  ghost function Rounds(a: Lanes, n: nat): Lanes
    decreases n
  {
    if n == 0 then a else Round(Rounds(a, n - 1), n - 1)
  }

  // KECCAKF_ROUNDS
  const ROUNDS: nat := 24

  ghost function KeccakF(a: Lanes): Lanes { Rounds(a, ROUNDS) }

  // ----- the tables of the source -----

  const RNDC: seq<bv64> := [
    0x0000000000000001, 0x0000000000008082, 0x800000000000808a,
    0x8000000080008000, 0x000000000000808b, 0x0000000080000001,
    0x8000000080008081, 0x8000000000008009, 0x000000000000008a,
    0x0000000000000088, 0x0000000080008009, 0x000000008000000a,
    0x000000008000808b, 0x800000000000008b, 0x8000000000008089,
    0x8000000000008003, 0x8000000000008002, 0x8000000000000080,
    0x000000000000800a, 0x800000008000000a, 0x8000000080008081,
    0x8000000000008080, 0x0000000080000001, 0x8000000080008008
  ]
  const ROTC: seq<bv7> := [1, 3, 6, 10, 15, 21, 28, 36, 45, 55, 2, 14, 27, 41, 56, 8, 25, 43, 62, 18, 39, 61, 20, 44]
  const PILN: seq<nat> := [10, 7, 11, 17, 18, 3, 5, 16, 8, 21, 24, 4, 15, 23, 19, 13, 12, 2, 20, 14, 22, 9, 6, 1]

  // The rotation table is the sequence of triangular numbers.
  lemma RotcTable()
    ensures forall t :: 0 <= t < 24 ==> ROTC[t] as nat == Triangular(t)
  {
    forall t | 0 <= t < 24 ensures ROTC[t] as nat == Triangular(t) {
      RotcAt(t);
    }
  }

  lemma RotcAt(t: nat)
    requires t < 24
    ensures ROTC[t] as nat == Triangular(t)
  {
    if t < 12 {
      assert t == 0 || t == 1 || t == 2 || t == 3 || t == 4 || t == 5 || t == 6 || t == 7 || t == 8 || t == 9
          || t == 10 || t == 11;
    } else {
      assert t == 12 || t == 13 || t == 14 || t == 15 || t == 16 || t == 17 || t == 18 || t == 19 || t == 20
          || t == 21 || t == 22 || t == 23;
    }
  }

  // The permutation table is the walk.
  lemma PilnTable()
    ensures forall t :: 0 <= t < 24 ==> PILN[t] == Walk(t + 1)
  {
    forall t | 0 <= t < 24 ensures PILN[t] == Walk(t + 1) {
      PilnAt(t);
    }
  }

  lemma {:induction false} PilnAt(t: nat)
    requires t < 24
    ensures PILN[t] == Walk(t + 1)
  {
    if t > 0 {
      PilnAt(t - 1);
      PilnStep(t);
    } else {
      assert Walk(0) == 1 && Walk(1) == Next(1);
    }
  }

  lemma PilnStep(t: nat)
    requires 0 < t < 24
    ensures PILN[t] == Next(PILN[t - 1])
  {
  }

  lemma PilnDistinct()
    ensures forall i, j :: 0 <= i < j < 24 ==> PILN[i] != PILN[j]
    ensures forall i :: 0 <= i < 24 ==> 0 < PILN[i] < 25
  {
  }

  lemma WalkDistinct(s: nat, t: nat)
    requires s < t < 24
    ensures Walk(s) != Walk(t) && Walk(t) != 0
  {
    hide Walk;
    PilnDistinct();
    PilnTable();
    assert Walk(t) == PILN[t - 1];
    if s == 0 {
      FirstAndLast();
      assert Walk(24) == PILN[23];
    } else {
      assert Walk(s) == PILN[s - 1];
    }
  }

  lemma FirstAndLast()
    ensures Walk(0) == 1 == PILN[23]
  {
  }

  // The walk is one cycle of 24 lanes that meets every lane but lane 0 exactly once.
  lemma OneCycle(l: nat)
    requires 0 < l < 25
    ensures exists t :: 1 <= t <= 24 && Walk(t) == l && forall s :: 1 <= s <= 24 && Walk(s) == l ==> s == t
    ensures Walk(24) == Walk(0)
  {
    hide Walk;
    PilnDistinct();
    PilnTable();
    FirstAndLast();
    var t := PlaceOf(l);
    assert Walk(t + 1) == l;
    forall s | 1 <= s <= 24 && Walk(s) == l ensures s == t + 1 {
      assert Walk((s - 1) + 1) == l;
      assert PILN[s - 1] == PILN[t];
    }
  }

  lemma PlaceOf(l: nat) returns (t: nat)
    requires 0 < l < 25
    ensures t < 24 && PILN[t] == l
  {
    var places: seq<nat> := [23, 17, 5, 11, 6, 22, 1, 8, 21, 0, 2, 16, 15, 19, 12, 7, 3, 4, 14, 18, 9, 20, 13, 10];
    t := places[l - 1];
  }

  lemma {:induction false} OffsetOnWalk(t: nat, s: nat)
    requires s <= t < 24
    ensures OffsetFrom(Walk(t), s) == Triangular(t)
    decreases t - s
  {
    hide Walk, Triangular;
    if s < t {
      WalkDistinct(s, t);
      OffsetOnWalk(t, s + 1);
    }
  }

  lemma ModFive(n: int, k: int, x: int)
    requires n == 5 * k + x && 0 <= x < 5
    ensures n % 5 == x && n / 5 == k
  {
  }

  lemma SourceOfNext(l: nat)
    requires l < 25
    ensures Source(Next(l)) == l
  {
    var x, y := l % 5, l / 5;
    var q, z := (2 * x + 3 * y) / 5, (2 * x + 3 * y) % 5;
    ModFive(y + 5 * z, z, y);
    ModFive(y + 3 * z, x + 2 * y - 3 * q, x);
  }

  // rho and pi together move each lane of the walk one step, rotated by its triangular number
  lemma RhoPiLane(a: Lanes, t: nat)
    requires t < 24
    ensures Triangular(t) < 64 && Triangular(t) as bv7 < 64
    ensures Pi(Rho(a))[Walk(t + 1)] == RotL(a[Walk(t)], Triangular(t) as bv7)
  {
    SourceOfNext(Walk(t));
    OffsetOnWalk(t, 0);
    SmallAmount(Triangular(t));
    hide RotL, Next, Source, OffsetFrom, Triangular;
    assert Walk(t + 1) == Next(Walk(t));
  }

  lemma RotZero(a: bv64)
    ensures RotL(a, 0) == a
  {
  }

  lemma {:induction false} OffWalk(t: nat)
    requires t <= 24
    ensures OffsetFrom(0, t) == 0
    decreases 24 - t
  {
    hide Walk;
    if t < 24 {
      OffWalk(t + 1);
      PilnTable();
      PilnDistinct();
      FirstAndLast();
      assert t > 0 ==> Walk(t) == PILN[t - 1];
    }
  }

  lemma RhoPiZero(a: Lanes)
    ensures Pi(Rho(a))[0] == a[0]
  {
    OffWalk(0);
    RotZero(a[0]);
    hide RotL, OffsetFrom;
    assert Source(0) == 0;
  }

  // ----- the steps in place -----

  // bc[i] = st[i] ^ st[i + 5] ^ st[i + 10] ^ st[i + 15] ^ st[i + 20]
  method Parities(st: array<bv64>) returns (bc: array<bv64>)
    requires st.Length == 25
    ensures bc.Length == 5 && fresh(bc)
    ensures forall x :: 0 <= x < 5 ==> bc[x] == Parity(st[..], x)
  {
    hide Exor;
    bc := new bv64[5];
    for i := 0 to 5
      invariant forall x :: 0 <= x < i ==> bc[x] == Parity(st[..], x)
    {
      bc[i] := Exor(Exor(Exor(Exor(st[i], st[i + 5]), st[i + 10]), st[i + 15]), st[i + 20]);
    }
  }

  method ThetaStep(st: array<bv64>)
    requires st.Length == 25
    modifies st
    ensures st[..] == Theta(old(st[..]))
    ensures forall l: nat, z: nat :: l < 25 && z < 64 ==>
      (Bit(st[l], z) != Bit(old(st[l]), z)
       <==> (Ones(Column(old(st[..]), (l % 5 + 4) % 5, z))
             + Ones(Column(old(st[..]), (l % 5 + 1) % 5, (z + 63) % 64))) % 2 == 1)
  {
    hide Theta, Bit, Column, Ones;
    ghost var a: Lanes := st[..];
    ThetaLoops(st);
    ThetaFlips(a, st[..]);
  }

  // the parities first, then column by column
  method ThetaLoops(st: array<bv64>)
    requires st.Length == 25
    modifies st
    ensures st[..] == Theta(old(st[..]))
  {
    hide Exor, Turn, Parity, Plus, ThetaEffect, Theta;
    ghost var a: Lanes := st[..];
    var bc := Parities(st);
    for i := 0 to 5
      invariant forall x :: 0 <= x < 5 ==> bc[x] == Parity(a, x)
      invariant forall l :: 0 <= l < 25 ==> st[l] == if l % 5 < i then ThetaLane(a, l) else a[l]
    {
      var t := Exor(bc[Plus(i, 4)], Turn(bc[Plus(i, 1)]));
      ThetaEffectAt(a, i, bc[..]);
      ThetaColumn(st, i, t);
    }
    ThetaLanes(a);
  }

  // theta, lane by lane and bit by bit
  lemma ThetaFlips(a: Lanes, b: seq<bv64>)
    requires b == Theta(a)
    ensures forall l: nat, z: nat :: l < 25 && z < 64 ==>
      (Bit(b[l], z) != Bit(a[l], z)
       <==> (Ones(Column(a, (l % 5 + 4) % 5, z)) + Ones(Column(a, (l % 5 + 1) % 5, (z + 63) % 64))) % 2 == 1)
  {
    hide Bit, Column, Ones, Theta;
    forall l: nat, z: nat | l < 25 && z < 64
      ensures Bit(b[l], z) != Bit(a[l], z)
          <==> (Ones(Column(a, (l % 5 + 4) % 5, z)) + Ones(Column(a, (l % 5 + 1) % 5, (z + 63) % 64))) % 2 == 1
    {
      ThetaBits(a, l % 5, l / 5, z);
    }
  }

  lemma ThetaEffectAt(a: Lanes, i: nat, bc: seq<bv64>)
    requires i < 5 && |bc| == 5 && forall x :: 0 <= x < 5 ==> bc[x] == Parity(a, x)
    ensures Exor(bc[Plus(i, 4)], Turn(bc[Plus(i, 1)])) == ThetaEffect(a, i)
  {
    hide Exor, Turn, Parity, Plus;
  }

  // t is added to the five lanes of column i
  method ThetaColumn(st: array<bv64>, i: nat, t: bv64)
    requires st.Length == 25 && i < 5
    modifies st
    ensures forall l :: 0 <= l < 25 ==> st[l] == if l % 5 == i then Exor(old(st[l]), t) else old(st[l])
  {
    hide Exor;
    var j := 0;
    while j < 25
      invariant 0 <= j <= 25 && j % 5 == 0
      invariant forall l :: 0 <= l < 25 ==> st[l] == if l % 5 == i && l < j then Exor(old(st[l]), t) else old(st[l])
    {
      st[j + i] := Exor(st[j + i], t);
      j := j + 5;
    }
  }

  method RhoPiStep(st: array<bv64>)
    requires st.Length == 25
    modifies st
    ensures st[..] == Pi(Rho(old(st[..])))
  {
    hide RotL, Walk, Pi, Rho, Triangular, WalkedTo;
    ghost var a: Lanes := st[..];
    ghost var b := Pi(Rho(a));
    var t := st[1];
    StartWalk(a, b);
    for i := 0 to 24
      invariant t == a[Walk(i)] && WalkedTo(st[..], a, b, i)
    {
      t := WalkTurn(st, i, t, a);
    }
    RhoPiZero(a);
    WalkCovers(st[..], a, b);
  }

  // one lane of the walk: t takes the old lane and the lane takes t, rotated
  method WalkTurn(st: array<bv64>, i: nat, t: bv64, ghost a: Lanes) returns (bc: bv64)
    requires st.Length == 25 && i < 24 && t == a[Walk(i)] && WalkedTo(st[..], a, Pi(Rho(a)), i)
    modifies st
    ensures bc == a[Walk(i + 1)] && WalkedTo(st[..], a, Pi(Rho(a)), i + 1)
  {
    hide RotL, Walk, Pi, Rho, WalkedTo;
    LaneAt(a, i);
    WalkOn(st[..], a, Pi(Rho(a)), i);
    var j := PILN[i];
    bc := st[j];
    st[j] := RotL(t, ROTC[i]);
  }

  // the first n lanes of the walk are done, the others and lane 0 are not
  ghost predicate WalkedTo(s: seq<bv64>, a: Lanes, b: Lanes, n: nat)
    requires n <= 24
  {
    && |s| == 25 && s[0] == a[0]
    && (forall k :: n <= k < 24 ==> s[PILN[k]] == a[PILN[k]])
    && (forall k :: 0 <= k < n ==> s[PILN[k]] == b[PILN[k]])
  }

  lemma StartWalk(a: Lanes, b: Lanes)
    ensures WalkedTo(a, a, b, 0) && Walk(0) == 1
  {
    FirstAndLast();
  }

  lemma WalkOn(s: seq<bv64>, a: Lanes, b: Lanes, n: nat)
    requires n < 24 && WalkedTo(s, a, b, n)
    ensures |s| == 25 && s[PILN[n]] == a[PILN[n]] && WalkedTo(s[PILN[n] := b[PILN[n]]], a, b, n + 1)
  {
    PilnDistinct();
  }

  // what rho and pi do to the lane of the walk that the tables name
  lemma LaneAt(a: Lanes, n: nat)
    requires n < 24
    ensures Walk(n + 1) == PILN[n] && ROTC[n] < 64 && Pi(Rho(a))[PILN[n]] == RotL(a[Walk(n)], ROTC[n])
  {
    hide RotL, Pi, Rho;
    PilnTable();
    RotcTable();
    RhoPiLane(a, n);
    Amount(ROTC[n]);
  }

  // ----- rotations, bit by bit -----

  // the two parts of a rotation by n
  ghost predicate IsLeft(a: bv64, n: bv7, b: bv64)
    requires n < 64
  {
    b == a << n
  }

  ghost predicate IsRight(a: bv64, n: bv7, c: bv64)
    requires n < 64
  {
    c == a >> (64 - n)
  }

  // the left part at one place more, for small and for large amounts
  lemma LeftSmall(a: bv64, n: bv7, b: bv64, b': bv64)
    requires 0 < n < 32 && b == a << n && b' == a << (n + 1)
    ensures b' == b << 1
  {
  }

  lemma LeftLarge(a: bv64, n: bv7, b: bv64, b': bv64)
    requires 32 <= n < 63 && b == a << n && b' == a << (n + 1)
    ensures b' == b << 1
  {
  }

  lemma LeftMore(a: bv64, n: bv7, b: bv64, b': bv64)
    requires 0 < n < 63 && IsLeft(a, n, b) && IsLeft(a, n + 1, b')
    ensures b' == b << 1
  {
    if n < 32 {
      LeftSmall(a, n, b, b');
    } else {
      LeftLarge(a, n, b, b');
    }
  }

  // the right part
  lemma RightSmall(a: bv64, n: bv7, c: bv64, c': bv64)
    requires 0 < n < 32 && c == a >> (64 - n) && c' == a >> (64 - (n + 1))
    ensures c == c' >> 1
  {
  }

  lemma RightLarge(a: bv64, n: bv7, c: bv64, c': bv64)
    requires 32 <= n < 63 && c == a >> (64 - n) && c' == a >> (64 - (n + 1))
    ensures c == c' >> 1
  {
  }

  lemma RightMore(a: bv64, n: bv7, c: bv64, c': bv64)
    requires 0 < n < 63 && IsRight(a, n, c) && IsRight(a, n + 1, c')
    ensures c == c' >> 1
  {
    if n < 32 {
      RightSmall(a, n, c, c');
    } else {
      RightLarge(a, n, c, c');
    }
  }

  // the bit that goes from one part to the other
  lemma BetweenParts(a: bv64, n: bv7, b: bv64, c': bv64)
    requires 0 < n < 63 && IsLeft(a, n, b) && IsRight(a, n + 1, c')
    ensures c' & 1 == b >> 63
  {
  }

  lemma TurnParts(b: bv64, c: bv64, b': bv64, c': bv64)
    requires b' == b << 1 && c == c' >> 1 && c' & 1 == b >> 63
    ensures b' | c' == Turn(b | c)
  {
  }

  lemma TurnOnce(a: bv64)
    ensures RotL(a, 1) == Turn(RotL(a, 0))
  {
  }

  lemma RotationParts(a: bv64, n: bv7) returns (b: bv64, c: bv64)
    requires 0 < n < 64
    ensures IsLeft(a, n, b) && IsRight(a, n, c) && RotL(a, n) == b | c
  {
    b, c := a << n, a >> (64 - n);
  }

  // A rotation by one place more is one more turn.
  lemma RotationStep(a: bv64, n: bv7)
    requires n < 63
    ensures RotL(a, n + 1) == Turn(RotL(a, n))
  {
    hide Turn, IsLeft, IsRight, RotL;
    if n == 0 {
      TurnOnce(a);
    } else {
      var b, c := RotationParts(a, n);
      var b', c' := RotationParts(a, n + 1);
      BetweenParts(a, n, b, c');
      LeftMore(a, n, b, b');
      RightMore(a, n, c, c');
      TurnParts(b, c, b', c');
    }
  }

  // Section 3.2.2, bit by bit: a rotation by n moves bit z to bit z + n, modulo 64.
  lemma {:induction false} RotationBits(a: bv64, n: bv7, k: nat, z: nat)
    requires n < 64 && k == n as nat && z < 64
    ensures Bit(RotL(a, n), (z + k) % 64) <==> Bit(a, z)
    decreases k
  {
    hide Turn, Bit, RotL;
    if k == 0 {
      NoPlaces(n);
      RotZero(a);
    } else {
      Below(n);
      RotationBits(a, n - 1, k - 1, z);
      RotationStep(a, n - 1);
      BitTurn(RotL(a, n - 1), (z + k) % 64);
    }
  }

  lemma NoPlaces(n: bv7)
    requires n as nat == 0
    ensures n == 0
  {
  }

  lemma Below(n: bv7)
    requires n as nat > 0
    ensures n > 0 && (n - 1) as nat == n as nat - 1 && (n - 1) + 1 == n
  {
  }

  // Rho and pi bit by bit, along the two tables: the lane q of each step of the walk comes from the lane p of the step
  // before it, moved up by the triangular number of the step, and lane 0 stays.
  lemma RhoPiBits(a: Lanes, b: Lanes, t: nat, p: nat, q: nat, k: nat, z: nat)
    requires t < 24 && p == (if t == 0 then 1 else PILN[t - 1]) && q == PILN[t] && k == Triangular(t) && z < 64
    requires b == Pi(Rho(a))
    ensures p < 25 && q < 25 && b[0] == a[0]
    ensures Bit(b[q], (z + k) % 64) <==> Bit(a[p], z)
  {
    hide Pi, Rho, Walk, Bit, RotL;
    RhoPiZero(a);
    LaneAt(a, t);
    WalkBefore(t);
    RotcTable();
    RotationBits(a[Walk(t)], ROTC[t], k, z);
  }

  lemma WalkBefore(t: nat)
    requires t < 24
    ensures Walk(t) == if t == 0 then 1 else PILN[t - 1]
  {
    hide Walk;
    FirstAndLast();
    PilnTable();
    assert t > 0 ==> PILN[t - 1] == Walk(t);
  }

  // lane 0 and the walk make up the state
  lemma WalkCovers(s: seq<bv64>, a: Lanes, b: Lanes)
    requires WalkedTo(s, a, b, 24) && a[0] == b[0]
    ensures s == b
  {
    forall l | 0 <= l < 25 ensures s[l] == b[l] {
      if l > 0 {
        var k := PlaceOf(l);
      }
    }
  }

  // a copy of the plane at j
  method LoadPlane(st: array<bv64>, j: nat) returns (bc: array<bv64>)
    requires st.Length == 25 && j % 5 == 0 && j < 25
    ensures bc.Length == 5 && fresh(bc) && forall x :: 0 <= x < 5 ==> bc[x] == st[j + x]
  {
    bc := new bv64[5];
    for i := 0 to 5
      invariant forall x :: 0 <= x < i ==> bc[x] == st[j + x]
    {
      bc[i] := st[j + i];
    }
  }

  // chi on the plane at j, from its copy
  method ChiPlane(st: array<bv64>, j: nat)
    requires st.Length == 25 && j % 5 == 0 && j < 25
    modifies st
    ensures forall l :: 0 <= l < 25 ==> st[l] == if j <= l < j + 5 then ChiLane(old(st[..]), l) else old(st[l])
  {
    hide Exor, NotAnd, Plus, Right, ChiLane;
    ghost var a: Lanes := st[..];
    var bc := LoadPlane(st, j);
    for i := 0 to 5
      invariant forall x :: 0 <= x < 5 ==> bc[x] == a[j + x]
      invariant forall l :: 0 <= l < 25 ==> st[l] == if j <= l < j + i then ChiLane(a, l) else a[l]
    {
      ChiAt(a, j, i, bc[..]);
      st[j + i] := Exor(st[j + i], NotAnd(bc[Plus(i, 1)], bc[Plus(i, 2)]));
    }
  }

  lemma ChiAt(a: Lanes, j: nat, i: nat, bc: seq<bv64>)
    requires j % 5 == 0 && j < 25 && i < 5 && |bc| == 5 && forall x :: 0 <= x < 5 ==> bc[x] == a[j + x]
    ensures Exor(a[j + i], NotAnd(bc[Plus(i, 1)], bc[Plus(i, 2)])) == ChiLane(a, j + i)
  {
    hide Exor, NotAnd, Plus, Right;
    RightInPlane(j, i, 1);
    RightInPlane(j, i, 2);
  }

  // chi works within planes
  lemma ChiSame(a: Lanes, b: Lanes, j: nat, l: nat)
    requires j % 5 == 0 && j < 25 && j <= l < j + 5
    requires forall k :: j <= k < j + 5 ==> a[k] == b[k]
    ensures ChiLane(a, l) == ChiLane(b, l)
  {
    hide Exor, NotAnd, Plus, Right;
    RightInPlane(j, l - j, 1);
    RightInPlane(j, l - j, 2);
  }

  method ChiStep(st: array<bv64>)
    requires st.Length == 25
    modifies st
    ensures st[..] == Chi(old(st[..]))
    ensures forall l: nat, z: nat :: l < 25 && z < 64 ==>
      (Bit(st[l], z) != Bit(old(st[l]), z)
       <==> !Bit(old(st[(l % 5 + 1) % 5 + 5 * (l / 5)]), z) && Bit(old(st[(l % 5 + 2) % 5 + 5 * (l / 5)]), z))
  {
    hide Chi, Bit;
    ghost var a: Lanes := st[..];
    ChiLoop(st);
    ChiFlips(a, st[..]);
  }

  // plane by plane
  method ChiLoop(st: array<bv64>)
    requires st.Length == 25
    modifies st
    ensures st[..] == Chi(old(st[..]))
  {
    hide Exor, NotAnd, ChiLane, Chi;
    ghost var a: Lanes := st[..];
    var j := 0;
    while j < 25
      invariant 0 <= j <= 25 && j % 5 == 0
      invariant forall l :: 0 <= l < 25 ==> st[l] == if l < j then ChiLane(a, l) else a[l]
    {
      ghost var b := st[..];
      ChiPlane(st, j);
      forall l | j <= l < j + 5 ensures ChiLane(b, l) == ChiLane(a, l) {
        ChiSame(a, b, j, l);
      }
      j := j + 5;
    }
  }

  // chi, lane by lane and bit by bit
  lemma ChiFlips(a: Lanes, b: seq<bv64>)
    requires b == Chi(a)
    ensures forall l: nat, z: nat :: l < 25 && z < 64 ==>
      (Bit(b[l], z) != Bit(a[l], z)
       <==> !Bit(a[(l % 5 + 1) % 5 + 5 * (l / 5)], z) && Bit(a[(l % 5 + 2) % 5 + 5 * (l / 5)], z))
  {
    hide Bit, Chi;
    forall l: nat, z: nat | l < 25 && z < 64
      ensures Bit(b[l], z) != Bit(a[l], z)
          <==> !Bit(a[(l % 5 + 1) % 5 + 5 * (l / 5)], z) && Bit(a[(l % 5 + 2) % 5 + 5 * (l / 5)], z)
    {
      ChiBits(a, l % 5, l / 5, z);
    }
  }

  // ----- the round constants -----

  ghost function ShiftBy(r: bv8, n: nat): bv8
    decreases n
  {
    if n == 0 then r else Shift(ShiftBy(r, n - 1))
  }

  lemma {:induction false} RegisterFrom(t: nat, n: nat)
    ensures Register(t + n) == ShiftBy(Register(t), n)
  {
    hide Shift;
    if n > 0 {
      RegisterFrom(t, n - 1);
    }
  }

  // the state of the register at the start of each round
  const STARTS: seq<bv8> := [
    0x1, 0x80, 0xd8, 0x1a, 0xdf, 0x9, 0x35, 0x4f, 0xca, 0x70, 0x41, 0xec,
    0xd5, 0xcd, 0x63, 0xab, 0xaa, 0x2a, 0xf2, 0xe8, 0x37, 0x3e, 0xb, 0x44
  ]

  lemma StartStep(i: nat)
    requires 0 < i < 24
    ensures STARTS[i] == ShiftBy(STARTS[i - 1], 7)
  {
  }

  lemma {:induction false} StartAt(i: nat)
    requires i < 24
    ensures Register(7 * i) == STARTS[i]
  {
    hide ShiftBy, Shift;
    if i == 0 {
      assert Register(0) == 1;
    } else {
      hide Register;
      StartAt(i - 1);
      StartStep(i);
      RegisterFrom(7 * (i - 1), 7);
    }
  }

  // The table of round constants is that of the shift register.
  lemma RoundConstants(i: nat)
    requires i < 24
    ensures RNDC[i] == RoundConstant(i)
  {
    StartAt(i);
    RegisterFrom(7 * i, 1);
    RegisterFrom(7 * i, 2);
    RegisterFrom(7 * i, 3);
    RegisterFrom(7 * i, 4);
    RegisterFrom(7 * i, 5);
    RegisterFrom(7 * i, 6);
    ConstantAt(i);
  }

  // the round constant of a register state
  ghost function Constant(r: bv8): bv64 {
    ((ShiftBy(r, 0) & 1) as bv64) | (((ShiftBy(r, 1) & 1) as bv64) << 1) | (((ShiftBy(r, 2) & 1) as bv64) << 3)
    | (((ShiftBy(r, 3) & 1) as bv64) << 7) | (((ShiftBy(r, 4) & 1) as bv64) << 15)
    | (((ShiftBy(r, 5) & 1) as bv64) << 31) | (((ShiftBy(r, 6) & 1) as bv64) << 63)
  }

  lemma ConstantAt(i: nat)
    requires i < 24
    ensures RNDC[i] == Constant(STARTS[i])
  {
    if i < 8 {
      assert i == 0 || i == 1 || i == 2 || i == 3 || i == 4 || i == 5 || i == 6 || i == 7;
    } else if i < 16 {
      assert i == 8 || i == 9 || i == 10 || i == 11 || i == 12 || i == 13 || i == 14 || i == 15;
    } else {
      assert i == 16 || i == 17 || i == 18 || i == 19 || i == 20 || i == 21 || i == 22 || i == 23;
    }
  }

  // ----- the permutation -----

  method OneRound(st: array<bv64>, r: nat)
    requires st.Length == 25 && r < 24
    modifies st
    ensures st[..] == Round(old(st[..]), r)
  {
    hide Theta, Rho, Pi, Chi, Iota;
    ThetaStep(st);
    RhoPiStep(st);
    ChiStep(st);
    RoundConstants(r);
    IotaStep(st, r);
  }

  method IotaStep(st: array<bv64>, r: nat)
    requires st.Length == 25 && r < 24
    modifies st
    ensures st[..] == Iota(old(st[..]), r)
  {
    hide Exor, RoundConstant;
    RoundConstants(r);
    st[0] := Exor(st[0], RNDC[r]);
  }

  // Iota bit by bit, with the table of the source.
  lemma IotaBits(a: Lanes, i: nat, l: nat, z: nat)
    requires i < 24 && l < 25 && z < 64
    ensures Bit(Iota(a, i)[l], z) <==> (Bit(a[l], z) != (l == 0 && Bit(RNDC[i], z)))
  {
    hide Bit, Exor, RoundConstant;
    RoundConstants(i);
    BitExor(a[0], RNDC[i], z);
  }

  // The permutation is 24 rounds of the five steps, in order.
  lemma {:induction false} AllRounds(a: Lanes, n: nat) returns (s: seq<Lanes>)
    requires n <= 24
    ensures |s| == n + 1 && s[0] == a && s[n] == Rounds(a, n) && (n == 24 ==> s[24] == KeccakF(a))
    ensures forall i: nat :: i < n ==> s[i + 1] == Iota(Chi(Pi(Rho(Theta(s[i])))), i)
  {
    hide Theta, Rho, Pi, Chi, Iota;
    if n == 0 {
      s := [a];
    } else {
      s := AllRounds(a, n - 1);
      s := s + [Rounds(a, n)];
    }
  }

  // The rounds of sha3_keccakf are those of Keccak-f[1600].
  method Keccakf(st: array<bv64>)
    requires st.Length == 25
    modifies st
    ensures st[..] == KeccakF(old(st[..]))
  {
    hide Round;
    ghost var a: Lanes := st[..];
    for r := 0 to ROUNDS
      invariant st[..] == Rounds(a, r)
    {
      OneRound(st, r);
    }
  }
}
