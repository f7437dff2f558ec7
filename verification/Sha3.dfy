// The incremental hash of sha3.c against the sponge of section 4 of FIPS 202 with the suffix and
// padding of sections 5.1 and 6.1, on byte strings.
module Sha3 {
  import opened Ints
  import opened Arith
  import opened Keccak

  // ----- the byte view of the state: st.b over st.q on a little-endian machine -----

  // the bytes of a lane, and byte k of a lane
  function Byte0(w: bv64): bv8 { (w & 0xFF) as bv8 }
  function Byte1(w: bv64): bv8 { ((w >> 8) & 0xFF) as bv8 }
  function Byte2(w: bv64): bv8 { ((w >> 16) & 0xFF) as bv8 }
  function Byte3(w: bv64): bv8 { ((w >> 24) & 0xFF) as bv8 }
  function Byte4(w: bv64): bv8 { ((w >> 32) & 0xFF) as bv8 }
  function Byte5(w: bv64): bv8 { ((w >> 40) & 0xFF) as bv8 }
  function Byte6(w: bv64): bv8 { ((w >> 48) & 0xFF) as bv8 }
  function Byte7(w: bv64): bv8 { (w >> 56) as bv8 }

  function ByteOf(w: bv64, k: nat): bv8
    requires k < 8
  {
    if k == 0 then Byte0(w)
    else if k == 1 then Byte1(w)
    else if k == 2 then Byte2(w)
    else if k == 3 then Byte3(w)
    else if k == 4 then Byte4(w)
    else if k == 5 then Byte5(w)
    else if k == 6 then Byte6(w)
    else Byte7(w)
  }

  // the lane whose byte k is v and whose other bytes are zero
  function Exor8(a: bv8, b: bv8): bv8 { a ^ b }

  function Placed(v: bv8, k: nat): bv64
    requires k < 8
  {
    if k == 0 then v as bv64
    else if k == 1 then (v as bv64) << 8
    else if k == 2 then (v as bv64) << 16
    else if k == 3 then (v as bv64) << 24
    else if k == 4 then (v as bv64) << 32
    else if k == 5 then (v as bv64) << 40
    else if k == 6 then (v as bv64) << 48
    else (v as bv64) << 56
  }

  function Join(b: seq<bv8>): bv64
    requires |b| == 8
  {
    (b[0] as bv64) | ((b[1] as bv64) << 8) | ((b[2] as bv64) << 16) | ((b[3] as bv64) << 24)
    | ((b[4] as bv64) << 32) | ((b[5] as bv64) << 40) | ((b[6] as bv64) << 48) | ((b[7] as bv64) << 56)
  }

  function Split(w: bv64): (b: seq<bv8>)
    ensures |b| == 8 && forall k :: 0 <= k < 8 ==> b[k] == ByteOf(w, k)
  {
    [ByteOf(w, 0), ByteOf(w, 1), ByteOf(w, 2), ByteOf(w, 3), ByteOf(w, 4), ByteOf(w, 5), ByteOf(w, 6), ByteOf(w, 7)]
  }

  lemma JoinSplit(w: bv64)
    ensures Join(Split(w)) == w
  {
  }

  lemma ByteOfJoin(b: seq<bv8>, k: nat)
    requires |b| == 8 && k < 8
    ensures ByteOf(Join(b), k) == b[k]
  {
    if k == 0 {} else if k == 1 {} else if k == 2 {} else if k == 3 {} else if k == 4 {} else if k == 5 {}
        else if k == 6 {} else {}
  }

  // each byte of an exclusive or
  lemma Exor0(w: bv64, u: bv64, r: bv64)
    requires r == w ^ u
    ensures Byte0(r) == Exor8(Byte0(w), Byte0(u))
  {
    assert (r & 0xFF) as bv8 == ((w & 0xFF) as bv8) ^ ((u & 0xFF) as bv8);
  }

  lemma Exor1(w: bv64, u: bv64, r: bv64)
    requires r == w ^ u
    ensures Byte1(r) == Exor8(Byte1(w), Byte1(u))
  {
    assert ((r >> 8) & 0xFF) as bv8 == (((w >> 8) & 0xFF) as bv8) ^ (((u >> 8) & 0xFF) as bv8);
  }

  lemma Exor2(w: bv64, u: bv64, r: bv64)
    requires r == w ^ u
    ensures Byte2(r) == Exor8(Byte2(w), Byte2(u))
  {
    assert ((r >> 16) & 0xFF) as bv8 == (((w >> 16) & 0xFF) as bv8) ^ (((u >> 16) & 0xFF) as bv8);
  }

  lemma Exor3(w: bv64, u: bv64, r: bv64)
    requires r == w ^ u
    ensures Byte3(r) == Exor8(Byte3(w), Byte3(u))
  {
    assert ((r >> 24) & 0xFF) as bv8 == (((w >> 24) & 0xFF) as bv8) ^ (((u >> 24) & 0xFF) as bv8);
  }

  lemma Exor4(w: bv64, u: bv64, r: bv64)
    requires r == w ^ u
    ensures Byte4(r) == Exor8(Byte4(w), Byte4(u))
  {
    assert ((r >> 32) & 0xFF) as bv8 == (((w >> 32) & 0xFF) as bv8) ^ (((u >> 32) & 0xFF) as bv8);
  }

  lemma Exor5(w: bv64, u: bv64, r: bv64)
    requires r == w ^ u
    ensures Byte5(r) == Exor8(Byte5(w), Byte5(u))
  {
    assert ((r >> 40) & 0xFF) as bv8 == (((w >> 40) & 0xFF) as bv8) ^ (((u >> 40) & 0xFF) as bv8);
  }

  lemma Exor6(w: bv64, u: bv64, r: bv64)
    requires r == w ^ u
    ensures Byte6(r) == Exor8(Byte6(w), Byte6(u))
  {
    assert ((r >> 48) & 0xFF) as bv8 == (((w >> 48) & 0xFF) as bv8) ^ (((u >> 48) & 0xFF) as bv8);
  }

  lemma Exor7(w: bv64, u: bv64, r: bv64)
    requires r == w ^ u
    ensures Byte7(r) == Exor8(Byte7(w), Byte7(u))
  {
    assert (r >> 56) as bv8 == ((w >> 56) as bv8) ^ ((u >> 56) as bv8);
  }

  lemma BytesOfExor(w: bv64, u: bv64, r: bv64)
    requires r == w ^ u
    ensures Byte0(r) == Exor8(Byte0(w), Byte0(u))
    ensures Byte1(r) == Exor8(Byte1(w), Byte1(u))
    ensures Byte2(r) == Exor8(Byte2(w), Byte2(u))
    ensures Byte3(r) == Exor8(Byte3(w), Byte3(u))
    ensures Byte4(r) == Exor8(Byte4(w), Byte4(u))
    ensures Byte5(r) == Exor8(Byte5(w), Byte5(u))
    ensures Byte6(r) == Exor8(Byte6(w), Byte6(u))
    ensures Byte7(r) == Exor8(Byte7(w), Byte7(u))
  {
    hide Byte0, Byte1, Byte2, Byte3, Byte4, Byte5, Byte6, Byte7, Exor8;
    Exor0(w, u, r);
    Exor1(w, u, r);
    Exor2(w, u, r);
    Exor3(w, u, r);
    Exor4(w, u, r);
    Exor5(w, u, r);
    Exor6(w, u, r);
    Exor7(w, u, r);
  }

  lemma BytesOfExorLane(w: bv64, u: bv64)
    ensures Byte0(Exor(w, u)) == Exor8(Byte0(w), Byte0(u))
    ensures Byte1(Exor(w, u)) == Exor8(Byte1(w), Byte1(u))
    ensures Byte2(Exor(w, u)) == Exor8(Byte2(w), Byte2(u))
    ensures Byte3(Exor(w, u)) == Exor8(Byte3(w), Byte3(u))
    ensures Byte4(Exor(w, u)) == Exor8(Byte4(w), Byte4(u))
    ensures Byte5(Exor(w, u)) == Exor8(Byte5(w), Byte5(u))
    ensures Byte6(Exor(w, u)) == Exor8(Byte6(w), Byte6(u))
    ensures Byte7(Exor(w, u)) == Exor8(Byte7(w), Byte7(u))
  {
    hide Byte0, Byte1, Byte2, Byte3, Byte4, Byte5, Byte6, Byte7, Exor8;
    BytesOfExor(w, u, Exor(w, u));
  }

  lemma ByteOfExor(w: bv64, u: bv64, m: nat)
    requires m < 8
    ensures ByteOf(Exor(w, u), m) == Exor8(ByteOf(w, m), ByteOf(u, m))
  {
    hide Exor, Byte0, Byte1, Byte2, Byte3, Byte4, Byte5, Byte6, Byte7, Exor8;
    BytesOfExorLane(w, u);
  }

  lemma ByteOfPlaced(v: bv8, k: nat, m: nat)
    requires k < 8 && m < 8
    ensures ByteOf(Placed(v, k), m) == if m == k then v else 0
  {
    if k == 0 {} else if k == 1 {} else if k == 2 {} else if k == 3 {} else if k == 4 {} else if k == 5 {}
        else if k == 6 {} else {}
  }

  lemma ExorZero(b: bv8)
    ensures Exor8(b, 0) == b
  {
  }

  // Exclusive or with a placed byte changes that byte alone.
  lemma PlacedByte(w: bv64, v: bv8, k: nat, m: nat)
    requires k < 8 && m < 8
    ensures ByteOf(Exor(w, Placed(v, k)), m) == if m == k then Exor8(ByteOf(w, k), v) else ByteOf(w, m)
  {
    hide ByteOf, Placed, Exor, Exor8;
    ByteOfExor(w, Placed(v, k), m);
    ByteOfPlaced(v, k, m);
    ExorZero(ByteOf(w, m));
  }

  type State = s: seq<bv8> | |s| == 200 witness seq(200, _ => 0)

  ghost function BytesOf(a: Lanes): State {
    seq(200, i requires 0 <= i < 200 => ByteOf(a[i / 8], i % 8))
  }

  ghost function LanesOf(s: State): Lanes {
    seq(25, l requires 0 <= l < 25 => Join(s[8 * l..8 * l + 8]))
  }

  // The byte view: byte 8 l + k is the byte of lane l with the weight 256^k.
  lemma LaneBytes(a: Lanes, l: nat, w: bv64)
    requires l < 25 && w == a[l]
    ensures BytesOf(a)[8 * l] as bv64 == w & 0xFF && BytesOf(a)[8 * l + 1] as bv64 == (w >> 8) & 0xFF
    ensures BytesOf(a)[8 * l + 2] as bv64 == (w >> 16) & 0xFF && BytesOf(a)[8 * l + 3] as bv64 == (w >> 24) & 0xFF
    ensures BytesOf(a)[8 * l + 4] as bv64 == (w >> 32) & 0xFF && BytesOf(a)[8 * l + 5] as bv64 == (w >> 40) & 0xFF
    ensures BytesOf(a)[8 * l + 6] as bv64 == (w >> 48) & 0xFF && BytesOf(a)[8 * l + 7] as bv64 == w >> 56
  {
    hide Byte0, Byte1, Byte2, Byte3, Byte4, Byte5, Byte6, Byte7;
    LowBytes(w);
    HighBytes(w);
  }

  lemma LowBytes(w: bv64)
    ensures Byte0(w) as bv64 == w & 0xFF && Byte1(w) as bv64 == (w >> 8) & 0xFF
    ensures Byte2(w) as bv64 == (w >> 16) & 0xFF && Byte3(w) as bv64 == (w >> 24) & 0xFF
  {
  }

  lemma HighBytes(w: bv64)
    ensures Byte4(w) as bv64 == (w >> 32) & 0xFF && Byte5(w) as bv64 == (w >> 40) & 0xFF
    ensures Byte6(w) as bv64 == (w >> 48) & 0xFF && Byte7(w) as bv64 == w >> 56
  {
  }

  // The two views determine each other.
  lemma LanesOfBytes(a: Lanes)
    ensures LanesOf(BytesOf(a)) == a
  {
    hide ByteOf, Join, BytesOf, Split;
    forall l | 0 <= l < 25 ensures LanesOf(BytesOf(a))[l] == a[l] {
      LaneOfBytes(a, l);
      JoinSplit(a[l]);
    }
  }

  lemma LaneOfBytes(a: Lanes, l: nat)
    requires l < 25
    ensures BytesOf(a)[8 * l..8 * l + 8] == Split(a[l])
  {
    hide ByteOf, Split;
  }

  lemma BytesOfLanes(s: State)
    ensures BytesOf(LanesOf(s)) == s
  {
    hide ByteOf, Join;
    forall i | 0 <= i < 200 ensures BytesOf(LanesOf(s))[i] == s[i] {
      var l := i / 8;
      ByteOfJoin(s[8 * l..8 * l + 8], i % 8);
    }
  }

  // ----- the sponge -----

  // a byte as a bit vector, and back
  function Bv(b: byte): bv8 { (b as int) as bv8 }

  function Un(b: bv8): byte { (b as int) as byte }

  // the permutation on byte strings
  ghost function F(s: State): State { BytesOf(KeccakF(LanesOf(s))) }

  // S xor (P || 0..0)
  ghost function Xored(s: State, p: seq<byte>): (t: State)
    requires |p| <= 200
    ensures forall i :: 0 <= i < 200 ==> t[i] == if i < |p| then Exor8(s[i], Bv(p[i])) else s[i]
  {
    seq(200, i requires 0 <= i < 200 => if i < |p| then Exor8(s[i], Bv(p[i])) else s[i])
  }

  // the state after absorbing the whole blocks of r bytes of m, and what is left of m
  ghost function Absorb(s: State, m: seq<byte>, r: nat): State
    requires 0 < r <= 200
    decreases |m|
  {
    if |m| < r then s else Absorb(F(Xored(s, m[..r])), m[r..], r)
  }

  ghost function Rest(m: seq<byte>, r: nat): (p: seq<byte>)
    requires 0 < r
    ensures |p| < r
  {
    if |m| < r then m else Rest(m[r..], r)
  }

  ghost function Zero(): State { seq(200, _ => 0) }

  // Algorithm 8: squeezing d bytes at r bytes a block
  ghost function Squeeze(s: State, r: nat, d: nat): seq<bv8>
    requires 0 < r <= 200
    decreases d
  {
    if d <= r then s[..d] else s[..r] + Squeeze(F(s), r, d - r)
  }

  // the suffix 01 and the padding pad10*1, as q whole bytes
  ghost function Padding(q: nat): (p: seq<byte>)
    requires q > 0
    ensures |p| == q
  {
    if q == 1 then [0x86] else [0x06] + seq(q - 2, _ => 0 as byte) + [0x80]
  }

  ghost function Padded(m: seq<byte>, r: nat): seq<byte>
    requires 0 < r
  {
    m + Padding(r - |Rest(m, r)|)
  }

  function Rate(mdlen: nat): nat
    requires mdlen < 100
  {
    200 - 2 * mdlen
  }

  ghost function AllUn(s: seq<bv8>): (t: seq<byte>)
    ensures |t| == |s| && forall i :: 0 <= i < |s| ==> t[i] == Un(s[i])
  {
    seq(|s|, i requires 0 <= i < |s| => Un(s[i]))
  }

  // SHA3 with a digest of mdlen bytes (section 6.1): the sponge with capacity 2 mdlen on the message, the suffix and
  // the padding
  ghost function Sha3(m: seq<byte>, mdlen: nat): seq<byte>
    requires mdlen < 100
  {
    var r := 200 - 2 * mdlen;
    AllUn(Squeeze(Absorb(Zero(), m + Padding(r - |m| % r), r), r, mdlen))
  }

  lemma {:induction false} RestLength(m: seq<byte>, r: nat)
    requires 0 < r
    ensures |Rest(m, r)| == |m| % r
    decreases |m|
  {
    if |m| >= r {
      RestLength(m[r..], r);
      DivMod(|m|, r, (|m| - r) / r + 1, |Rest(m, r)|);
    } else {
      DivMod(|m|, r, 0, |m|);
    }
  }

  // One block absorbed (algorithm 8), byte by byte: the lanes a hold the state with the block xored in, and the
  // permutation of them is the next state.
  lemma AbsorbStep(s: State, m: seq<byte>, r: nat, a: Lanes)
    requires 0 < r <= 200 && |m| >= r
    requires forall k :: 0 <= k < 200 ==> BytesOf(a)[k] == if k < r then s[k] ^ ((m[k] as int) as bv8) else s[k]
    ensures Absorb(s, m, r) == Absorb(BytesOf(KeccakF(a)), m[r..], r)
  {
    hide BytesOf, LanesOf, KeccakF;
    var t := Xored(s, m[..r]);
    forall k | 0 <= k < 200 ensures BytesOf(a)[k] == t[k] {
      if k < r {
        ExorRaw(s[k], m[k]);
      }
    }
    assert BytesOf(a) == t;
    LanesOfBytes(a);
  }

  lemma ExorRaw(x: bv8, b: byte)
    ensures Exor8(x, Bv(b)) == x ^ ((b as int) as bv8)
  {
  }

  // ----- absorbing byte by byte -----

  lemma {:induction false} AbsorbByte(s: State, m: seq<byte>, b: byte, r: nat)
    requires 0 < r <= 200
    ensures |Rest(m, r)| + 1 < r ==> Absorb(s, m + [b], r) == Absorb(s, m, r) && Rest(m + [b], r) == Rest(m, r) + [b]
    ensures |Rest(m, r)| + 1 == r
        ==> Absorb(s, m + [b], r) == F(Xored(Absorb(s, m, r), Rest(m, r) + [b])) && Rest(m + [b], r) == []
    decreases |m|
  {
    hide F, Xored;
    if |m| >= r {
      AbsorbByte(F(Xored(s, m[..r])), m[r..], b, r);
      assert (m + [b])[..r] == m[..r] && (m + [b])[r..] == m[r..] + [b];
    } else if |m| + 1 == r {
      assert (m + [b])[..r] == m + [b] && (m + [b])[r..] == [];
    }
  }

  // completing the last block
  lemma {:induction false} AbsorbBlock(s: State, m: seq<byte>, p: seq<byte>, r: nat)
    requires 0 < r <= 200 && |Rest(m, r)| + |p| == r
    ensures Absorb(s, m + p, r) == F(Xored(Absorb(s, m, r), Rest(m, r) + p)) && Rest(m + p, r) == []
    decreases |m|
  {
    hide F, Xored;
    if |m| >= r {
      AbsorbBlock(F(Xored(s, m[..r])), m[r..], p, r);
      assert (m + p)[..r] == m[..r] && (m + p)[r..] == m[r..] + p;
    } else {
      assert (m + p)[..r] == m + p && (m + p)[r..] == [];
    }
  }

  // ----- the padding, bit by bit -----

  // bit k of a byte, in the order of section B.1
  ghost function BitOf(b: byte, k: nat): bool
    requires k < 8
  {
    var p := if k == 0 then 1 else if k == 1 then 2 else if k == 2 then 4 else if k == 3 then 8
             else if k == 4 then 16 else if k == 5 then 32 else if k == 6 then 64 else 128;
    b as int / p % 2 == 1
  }

  // The q bytes are the suffix 01, then a one, zeros and a final one, which together fill the block.
  lemma PaddingBits(m: nat, r: nat, i: nat)
    requires 0 < r && i < 8 * (r - m % r)
    ensures var q := r - m % r;
            var j := 8 * q - 4;
            && (8 * m + 2 + 1 + j + 1) % (8 * r) == 0 && 0 <= j < 8 * r
            && (BitOf(Padding(q)[i / 8], i % 8) <==> i == 1 || i == 2 || i == 2 + 1 + j)
  {
    var q := r - m % r;
    PaddingLength(m / r, r);
    DivMod(8 * m + 8 * q, 8 * r, m / r + 1, 0);
    hide Padding;
    PaddingByte(q, i / 8, i % 8);
  }

  lemma PaddingLength(k: nat, r: nat)
    ensures 8 * (r * k) + 8 * r == (k + 1) * (8 * r)
  {
  }

  lemma PaddingByte(q: nat, n: nat, k: nat)
    requires n < q && k < 8
    ensures BitOf(Padding(q)[n], k) <==> (n == 0 && (k == 1 || k == 2)) || (n == q - 1 && k == 7)
  {
  }

  // ----- the context -----

  // v is added to byte i of the state
  method ExorByte(st: array<bv64>, i: nat, v: bv8)
    requires st.Length == 25 && i < 200
    modifies st
    ensures var s := old(BytesOf(st[..]));
            BytesOf(st[..]) == s[i := Exor8(s[i], v)]
  {
    hide ByteOf, Placed, Exor, Exor8;
    ghost var a: Lanes := st[..];
    st[i / 8] := Exor(st[i / 8], Placed(v, i % 8));
    ByteChanged(a, st[..], i, v);
  }

  lemma ByteChanged(a: Lanes, b: Lanes, i: nat, v: bv8)
    requires i < 200 && b == a[i / 8 := Exor(a[i / 8], Placed(v, i % 8))]
    ensures BytesOf(b) == BytesOf(a)[i := Exor8(BytesOf(a)[i], v)]
  {
    hide ByteOf, Placed, Exor, Exor8;
    forall k | 0 <= k < 200 ensures BytesOf(b)[k] == if k == i then Exor8(BytesOf(a)[i], v) else BytesOf(a)[k] {
      if k / 8 == i / 8 {
        PlacedByte(a[i / 8], v, i % 8, k % 8);
      }
    }
  }

  lemma XoredByte(s: State, p: seq<byte>, b: byte)
    requires |p| < 200
    ensures Xored(s, p + [b]) == Xored(s, p)[|p| := Exor8(Xored(s, p)[|p|], Bv(b))]
  {
    hide Exor8, Bv;
  }

  lemma XoredNothing(s: State)
    ensures Xored(s, []) == s
  {
  }

  // sha3_ctx_t
  class Context {
    const st: array<bv64>
    var pt: nat
    var rsiz: nat
    var mdlen: nat

    constructor ()
      ensures st.Length == 25 && fresh(st)
    {
      st := new bv64[25];
    }

    // The context has absorbed the message m.
    ghost predicate Absorbed(m: seq<byte>)
      reads this, st
    {
      && st.Length == 25 && mdlen < 100 && rsiz == Rate(mdlen)
      && pt == |Rest(m, rsiz)| < rsiz
      && BytesOf(st[..]) == Xored(Absorb(Zero(), m, rsiz), Rest(m, rsiz))
    }

    // sha3_init
    method Init(n: nat)
      requires st.Length == 25 && n < 100
      modifies this, st
      ensures Absorbed([]) && mdlen == n && rsiz == 200 - 2 * n && pt == 0
    {
      for i := 0 to 25
        invariant forall k :: 0 <= k < i ==> st[k] == 0
      {
        st[i] := 0;
      }
      mdlen := n;
      rsiz := 200 - 2 * n;
      pt := 0;
      ZeroBytes(st[..]);
      XoredNothing(Zero());
    }

    // the body of the loop of sha3_update
    method Step(j: nat, b: byte, ghost m: seq<byte>) returns (j': nat)
      requires st.Length == 25 && 0 < rsiz <= 200
      requires j == |Rest(m, rsiz)| && BytesOf(st[..]) == Xored(Absorb(Zero(), m, rsiz), Rest(m, rsiz))
      modifies st
      ensures j' == |Rest(m + [b], rsiz)|
      ensures BytesOf(st[..]) == Xored(Absorb(Zero(), m + [b], rsiz), Rest(m + [b], rsiz))
    {
      hide BytesOf, LanesOf, Xored, Bv, KeccakF, Absorb, Rest, Exor8;
      XoredByte(Absorb(Zero(), m, rsiz), Rest(m, rsiz), b);
      AbsorbByte(Zero(), m, b, rsiz);
      ExorByte(st, j, Bv(b));
      j' := j + 1;
      if j' >= rsiz {
        ghost var s := BytesOf(st[..]);
        LanesOfBytes(st[..]);
        Keccakf(st);
        assert BytesOf(st[..]) == F(s);
        XoredNothing(F(s));
        j' := 0;
      }
    }

    // sha3_update with the len bytes of data from off on
    method Update(data: array<byte>, off: nat, len: nat, ghost m: seq<byte>)
      requires Absorbed(m) && off + len <= data.Length && (data as object) != st
      modifies this, st
      ensures Absorbed(m + data[off..off + len]) && mdlen == old(mdlen)
    {
      hide BytesOf, Xored, Absorb, Rest;
      var j := pt;
      ghost var d := data[off..off + len];
      assert m + d[..0] == m;
      for i := 0 to len
        invariant pt == old(pt) && rsiz == old(rsiz) && mdlen == old(mdlen) && 0 < rsiz <= 200
        invariant d == data[off..off + len]
        invariant j == |Rest(m + d[..i], rsiz)|
        invariant BytesOf(st[..]) == Xored(Absorb(Zero(), m + d[..i], rsiz), Rest(m + d[..i], rsiz))
      {
        assert m + d[..i] + [d[i]] == m + d[..i + 1];
        j := Step(j, data[off + i], m + d[..i]);
      }
      pt := j;
      assert d[..len] == d;
    }

    // The two bytes of sha3_final are the padding, also when they fall on the same byte.
    method Pad(ghost m: seq<byte>)
      requires Absorbed(m)
      modifies st
      ensures BytesOf(st[..]) == Xored(Absorb(Zero(), m, rsiz), Rest(m, rsiz) + Padding(rsiz - |Rest(m, rsiz)|))
    {
      hide BytesOf, Xored, Absorb, Rest, Exor8, Padding;
      ExorByte(st, pt, 0x06);
      ExorByte(st, rsiz - 1, 0x80);
      XoredPadding(Absorb(Zero(), m, rsiz), Rest(m, rsiz), rsiz);
    }

    // sha3_final
    method Final(md: array<byte>, ghost m: seq<byte>)
      requires Absorbed(m) && mdlen <= md.Length && (md as object) != st
      modifies st, md
      ensures md[..mdlen] == Digest(m, mdlen)
      ensures forall k :: mdlen <= k < md.Length ==> md[k] == old(md[k])
    {
      hide BytesOf, LanesOf, Xored, Absorb, Rest, Padding, KeccakF, Un;
      Pad(m);
      AbsorbBlock(Zero(), m, Padding(rsiz - |Rest(m, rsiz)|), rsiz);
      LanesOfBytes(st[..]);
      Keccakf(st);
      ghost var a: Lanes := st[..];
      ghost var s := BytesOf(a);
      assert s == Absorb(Zero(), Padded(m, rsiz), rsiz);
      for i := 0 to mdlen
        invariant st[..] == a
        invariant forall k :: 0 <= k < i ==> md[k] == Un(s[k])
        invariant forall k :: mdlen <= k < md.Length ==> md[k] == old(md[k])
      {
        ByteAt(a, i);
        md[i] := Un(ByteOf(st[i / 8], i % 8));
      }
      assert md[..mdlen] == AllUn(s[..mdlen]);
    }
  }

  lemma ByteAt(a: Lanes, i: nat)
    requires i < 200
    ensures BytesOf(a)[i] == ByteOf(a[i / 8], i % 8)
  {
  }

  lemma XoredPadding(s: State, p: seq<byte>, r: nat)
    requires |p| < r <= 200
    ensures var t := Xored(s, p)[|p| := Exor8(Xored(s, p)[|p|], 0x06)];
            t[r - 1 := Exor8(t[r - 1], 0x80)] == Xored(s, p + Padding(r - |p|))
  {
    PaddingBits8(s[|p|]);
    var q := Padding(r - |p|);
    hide Exor8, Bv;
    var u := Xored(s, p + q);
    assert forall i :: |p| <= i < r ==> (p + q)[i] == q[i - |p|];
    forall i | |p| < i < r - 1 ensures u[i] == s[i] {
      ZeroByte(s[i]);
    }
    ZeroByte(s[|p|]);
  }

  lemma ZeroByte(b: bv8)
    ensures Exor8(b, Bv(0)) == b
  {
  }

  lemma PaddingBits8(b: bv8)
    ensures Exor8(Exor8(b, 0x06), 0x80) == Exor8(b, Bv(0x86))
    ensures Bv(0x06) == 0x06 && Bv(0x80) == 0x80
  {
  }

  // what sha3_final copies out: the first bytes of the state that absorbed the padded message
  ghost function Digest(m: seq<byte>, mdlen: nat): (d: seq<byte>)
    requires mdlen < 100
    ensures |d| == mdlen
  {
    AllUn(Absorb(Zero(), Padded(m, Rate(mdlen)), Rate(mdlen))[..mdlen])
  }

  // It is the SHA3 hash as long as one squeezed block holds the digest.
  lemma DigestIsSha3(m: seq<byte>, mdlen: nat)
    requires 3 * mdlen <= 200
    ensures Digest(m, mdlen) == Sha3(m, mdlen)
  {
    hide Absorb, Rest, Padding;
    RestLength(m, 200 - 2 * mdlen);
  }

  // Byte i of the digest is byte i of the state that absorbed the padded message at 200 - 2 mdlen bytes a block.
  lemma DigestBytes(m: seq<byte>, mdlen: nat, r: nat, i: nat)
    requires mdlen < 100 && r == 200 - 2 * mdlen && i < mdlen
    ensures Digest(m, mdlen)[i] as int == Absorb(Zero(), m + Padding(r - |m| % r), r)[i] as int
  {
    hide Absorb, Rest, Padding;
    RestLength(m, r);
  }

  // sha3
  method Hash(data: array<byte>, len: nat, md: array<byte>, mdlen: nat)
    requires len <= data.Length && mdlen < 100 && mdlen <= md.Length
    modifies md
    ensures md[..mdlen] == Digest(old(data[..len]), mdlen)
    ensures forall k :: mdlen <= k < md.Length ==> md[k] == old(md[k])
  {
    hide Digest, BytesOf, Xored, Absorb, Rest, Zero, Context.Absorbed;
    var ctx := new Context();
    ctx.Init(mdlen);
    ctx.Update(data, 0, len, []);
    ghost var m := data[..len];
    assert [] + data[0..0 + len] == m;
    ctx.Final(md, m);
  }

  lemma ZeroBytes(a: Lanes)
    requires forall l :: 0 <= l < 25 ==> a[l] == 0
    ensures BytesOf(a) == Zero()
  {
  }

}
