// The byte encoding of field elements: fe_tobytes, fe_frombytes and the tests built on them.
module FeCodec {
  import opened Ints
  import opened Arith
  import opened Bits
  import opened Bytes
  import opened FeLimbs
  import opened FeMultiply
  import opened FeBytes
  import Fe

  // width and bit position of limb i
  ghost function Width(i: nat): nat { if i % 2 == 0 then 26 else 25 }

  ghost function Position(i: nat): nat
    decreases i
  {
    if i == 0 then 0 else Position(i - 1) + Width(i - 1)
  }

  // the value of limbs i..10
  ghost function Tail(h: seq<int>, i: nat): int
    requires |h| == 10 && i <= 10
    decreases 10 - i
  {
    if i == 10 then 0 else h[i] + (if i % 2 == 0 then 0x400_0000 else 0x200_0000) * Tail(h, i + 1)
  }

  lemma {:induction false} TailNonNegative(h: seq<int>, i: nat)
    requires Frozen(h) && i <= 10
    ensures Tail(h, i) >= 0
    decreases 10 - i
  {
    if i < 10 {
      TailNonNegative(h, i + 1);
      assert i == 0 || i == 1 || i == 2 || i == 3 || i == 4 || i == 5 || i == 6 || i == 7 || i == 8 || i == 9;
    }
  }

  lemma TailAll(h: seq<int>)
    requires |h| == 10
    ensures Tail(h, 0) == Weigh(h)
  {
    assert Tail(h, 8) == h[8] + 0x400_0000 * (h[9] + 0x200_0000 * Tail(h, 10));
    assert Tail(h, 6) == h[6] + 0x400_0000 * (h[7] + 0x200_0000 * Tail(h, 8));
    assert Tail(h, 4) == h[4] + 0x400_0000 * (h[5] + 0x200_0000 * Tail(h, 6));
    assert Tail(h, 2) == h[2] + 0x400_0000 * (h[3] + 0x200_0000 * Tail(h, 4));
    assert Tail(h, 0) == h[0] + 0x400_0000 * (h[1] + 0x200_0000 * Tail(h, 2));
  }

  lemma Pow2Widths()
    ensures Pow2(26) == 0x400_0000 && Pow2(25) == 0x200_0000
  {
    hide Pow2;
    Pow2At21();
    Pow2At16();
    Pow2Add(21, 5);
    Pow2Add(21, 4);
  }

  // dividing by the weight of limb i drops the limbs below it
  lemma TailStep(h: seq<int>, i: nat)
    requires Frozen(h) && i < 10
    ensures Tail(h, i) == Tail(h, i + 1) * Pow2(Width(i)) + h[i] && 0 <= h[i] < Pow2(Width(i))
    ensures Position(i + 1) == Position(i) + Width(i)
  {
    LimbRange(h, i);
    Pow2Widths();
    hide Pow2, Frozen;
    var w, t := Pow2(Width(i)), Tail(h, i + 1);
    assert Tail(h, i) == h[i] + w * t;
  }

  lemma {:induction false} TailIsQuotient(h: seq<int>, i: nat)
    requires Frozen(h) && i <= 10
    ensures Weigh(h) >= 0 && Pow2(Position(i)) > 0
    ensures Tail(h, i) == Weigh(h) / Pow2(Position(i))
    decreases i
  {
    TailAll(h);
    hide Pow2, Weigh, Tail, Width, Frozen;
    TailNonNegative(h, 0);
    Pow2Positive(Position(i));
    if i == 0 {
      Pow2Zero();
    } else {
      TailIsQuotient(h, i - 1);
      TailNonNegative(h, i);
      TailStep(h, i - 1);
      Pow2Add(Position(i - 1), Width(i - 1));
      hide Position;
      DivMod(Tail(h, i - 1), Pow2(Width(i - 1)), Tail(h, i), h[i - 1]);
      DivDiv(Weigh(h), Pow2(Position(i - 1)), Pow2(Width(i - 1)));
    }
  }

  lemma LimbRange(h: seq<int>, i: nat)
    requires Frozen(h) && i < 10
    ensures 0 <= h[i] < (if i % 2 == 0 then 0x400_0000 else 0x200_0000)
  {
    assert i == 0 || i == 1 || i == 2 || i == 3 || i == 4 || i == 5 || i == 6 || i == 7 || i == 8 || i == 9;
  }

  lemma LimbIsField(h: seq<int>, i: nat)
    requires Frozen(h) && i < 10
    ensures Weigh(h) >= 0 && h[i] == Field(Weigh(h), Position(i), Width(i))
  {
    hide Pow2, Weigh;
    TailIsQuotient(h, i);
    TailNonNegative(h, i + 1);
    LimbRange(h, i);
    Pow2Widths();
    DivMod(Tail(h, i), Pow2(Width(i)), Tail(h, i + 1), h[i]);
  }

  // the top limb also fills a 26-bit field
  lemma TopLimbIsField(h: seq<int>)
    requires Frozen(h)
    ensures Weigh(h) >= 0 && h[9] == Field(Weigh(h), Position(9), 26)
  {
    hide Pow2, Weigh;
    TailIsQuotient(h, 9);
    assert Tail(h, 10) == 0;
    LimbRange(h, 9);
    Pow2Widths();
    DivMod(Tail(h, 9), Pow2(26), 0, h[9]);
  }

  lemma Positions()
    ensures Position(0) == 0 && Position(1) == 26 && Position(2) == 51 && Position(3) == 77 && Position(4) == 102
    ensures Position(5) == 128 && Position(6) == 153 && Position(7) == 179 && Position(8) == 204 && Position(9) == 230
  {
  }

  // the low byte of h without its sh low bits
  function Shr(h: int32, sh: nat, ghost v: nat, ghost lo: nat, ghost n: nat): (r: byte)
    requires h >= 0 && h as nat == Field(v, lo, n) && sh + 8 <= n
    ensures r as nat == Field(v, lo + sh, 8)
  {
    ShrByteField(h as int64, sh, v, lo, n);
    ShrByte(h as int64, sh)
  }

  // the low byte of h without its sh low bits, joined with k moved up
  function ShrOr(h: int32, sh: nat, k: int32, up: nat, ghost v: nat, ghost lo: nat, ghost n: nat): (r: byte)
    requires h >= 0 && h as nat == Field(v, lo, sh + up)
    requires k >= 0 && k as nat == Field(v, lo + sh + up, n) && up <= 8 <= up + n
    ensures r as nat == Field(v, lo + sh, 8)
  {
    OrByteField(h as int64, sh, k as int64, up, v, lo, n);
    OrByte(h as int64, sh, k as int64, up)
  }

  method PackLow(s: array<byte>, h0: int32, h1: int32, h2: int32, h3: int32, ghost v: nat)
    requires s.Length >= 32
    requires h0 >= 0 && h0 as nat == Field(v, 0, 26)
    requires h1 >= 0 && h1 as nat == Field(v, 26, 25)
    requires h2 >= 0 && h2 as nat == Field(v, 51, 26)
    requires h3 >= 0 && h3 as nat == Field(v, 77, 25)
    modifies s
    ensures forall k :: 0 <= k < 10 ==> s[k] as nat == Field(v, 8 * k, 8)
    ensures forall k :: 0 <= k < s.Length && !(0 <= k < 10) ==> s[k] == old(s[k])
  {
    hide *;
    s[0] := Shr(h0, 0, v, 0, 26);
    s[1] := Shr(h0, 8, v, 0, 26);
    s[2] := Shr(h0, 16, v, 0, 26);
    s[3] := ShrOr(h0, 24, h1, 2, v, 0, 25);
    s[4] := Shr(h1, 6, v, 26, 25);
    s[5] := Shr(h1, 14, v, 26, 25);
    s[6] := ShrOr(h1, 22, h2, 3, v, 26, 26);
    s[7] := Shr(h2, 5, v, 51, 26);
    s[8] := Shr(h2, 13, v, 51, 26);
    s[9] := ShrOr(h2, 21, h3, 5, v, 51, 25);
  }

  method PackMid(s: array<byte>, h3: int32, h4: int32, h5: int32, h6: int32, ghost v: nat)
    requires s.Length >= 32
    requires h3 >= 0 && h3 as nat == Field(v, 77, 25)
    requires h4 >= 0 && h4 as nat == Field(v, 102, 26)
    requires h5 >= 0 && h5 as nat == Field(v, 128, 25)
    requires h6 >= 0 && h6 as nat == Field(v, 153, 26)
    modifies s
    ensures forall k :: 10 <= k < 22 ==> s[k] as nat == Field(v, 8 * k, 8)
    ensures forall k :: 0 <= k < s.Length && !(10 <= k < 22) ==> s[k] == old(s[k])
  {
    hide *;
    s[10] := Shr(h3, 3, v, 77, 25);
    s[11] := Shr(h3, 11, v, 77, 25);
    s[12] := ShrOr(h3, 19, h4, 6, v, 77, 26);
    s[13] := Shr(h4, 2, v, 102, 26);
    s[14] := Shr(h4, 10, v, 102, 26);
    s[15] := Shr(h4, 18, v, 102, 26);
    s[16] := Shr(h5, 0, v, 128, 25);
    s[17] := Shr(h5, 8, v, 128, 25);
    s[18] := Shr(h5, 16, v, 128, 25);
    s[19] := ShrOr(h5, 24, h6, 1, v, 128, 26);
    s[20] := Shr(h6, 7, v, 153, 26);
    s[21] := Shr(h6, 15, v, 153, 26);
  }

  method PackHigh(s: array<byte>, h6: int32, h7: int32, h8: int32, h9: int32, ghost v: nat)
    requires s.Length >= 32
    requires h6 >= 0 && h6 as nat == Field(v, 153, 26)
    requires h7 >= 0 && h7 as nat == Field(v, 179, 25)
    requires h8 >= 0 && h8 as nat == Field(v, 204, 26)
    requires h9 >= 0 && h9 as nat == Field(v, 230, 26)
    modifies s
    ensures forall k :: 22 <= k < 32 ==> s[k] as nat == Field(v, 8 * k, 8)
    ensures forall k :: 0 <= k < s.Length && !(22 <= k < 32) ==> s[k] == old(s[k])
  {
    hide *;
    s[22] := ShrOr(h6, 23, h7, 3, v, 153, 25);
    s[23] := Shr(h7, 5, v, 179, 25);
    s[24] := Shr(h7, 13, v, 179, 25);
    s[25] := ShrOr(h7, 21, h8, 4, v, 179, 26);
    s[26] := Shr(h8, 4, v, 204, 26);
    s[27] := Shr(h8, 12, v, 204, 26);
    s[28] := ShrOr(h8, 20, h9, 6, v, 204, 26);
    s[29] := Shr(h9, 2, v, 230, 26);
    s[30] := Shr(h9, 10, v, 230, 26);
    s[31] := Shr(h9, 18, v, 230, 26);
  }

  // fe_tobytes: the canonical little-endian encoding of h modulo the prime.
  method ToBytes(s: array<byte>, h: array<int32>)
    requires s.Length >= 32
    requires h.Length == 10 && Within(Limbs(h), E220)
    modifies s
    ensures LE(s[..32]) == Fe.Value(h) % Q
    ensures forall k :: 32 <= k < s.Length ==> s[k] == old(s[k])
  {
    var h0, h1, h2, h3, h4, h5, h6, h7, h8, h9 := Freeze(h);
    ghost var r := [h0 as int, h1 as int, h2 as int, h3 as int, h4 as int, h5 as int, h6 as int, h7 as int,
        h8 as int, h9 as int];
    ghost var v: nat := FrozenFields(r);
    hide *;
    PackLow(s, h0, h1, h2, h3, v);
    PackMid(s, h3, h4, h5, h6, v);
    PackHigh(s, h6, h7, h8, h9, v);
    BytesValue(s[..32], v);
  }

  lemma FrozenFields(r: seq<int>) returns (v: nat)
    requires Frozen(r) && Weigh(r) < Q
    ensures v == Weigh(r) < Q
    ensures r[0] == Field(v, 0, 26) && r[1] == Field(v, 26, 25) && r[2] == Field(v, 51, 26) && r[3] == Field(v,
        77, 25)
    ensures r[4] == Field(v, 102, 26) && r[5] == Field(v, 128, 25) && r[6] == Field(v, 153, 26)
    ensures r[7] == Field(v, 179, 25) && r[8] == Field(v, 204, 26) && r[9] == Field(v, 230, 26)
  {
    hide Weigh, Field;
    TopLimbIsField(r);
    v := Weigh(r);
    Positions();
    LimbIsField(r, 0);
    LimbIsField(r, 1);
    LimbIsField(r, 2);
    LimbIsField(r, 3);
    LimbIsField(r, 4);
    LimbIsField(r, 5);
    LimbIsField(r, 6);
    LimbIsField(r, 7);
    LimbIsField(r, 8);
  }

  lemma BytesValue(b: seq<byte>, v: nat)
    requires |b| == 32 && v < Q
    requires forall k :: 0 <= k < 32 ==> b[k] as nat == Field(v, 8 * k, 8)
    ensures LE(b) == v
  {
    hide Field;
    LEOfFields(b, v);
    Pow2At256();
    FieldAll(v, 256);
  }

  // ----- fe_frombytes -----

  lemma Pow2Multiples()
    ensures Pow2(8) == 0x100 && Pow2(24) == 0x100_0000 && Pow2(32) == 0x1_0000_0000
    ensures Pow2(56) == 0x100_0000_0000_0000 && Pow2(80) == 0x1_0000_0000_0000_0000_0000
    ensures Pow2(104) == 0x100_0000_0000_0000_0000_0000_0000
    ensures Pow2(128) == 0x1_0000_0000_0000_0000_0000_0000_0000_0000
    ensures Pow2(160) == 0x1_0000_0000_0000_0000_0000_0000_0000_0000_0000_0000
    ensures Pow2(184) == 0x100_0000_0000_0000_0000_0000_0000_0000_0000_0000_0000_0000
    ensures Pow2(208) == 0x1_0000_0000_0000_0000_0000_0000_0000_0000_0000_0000_0000_0000_0000
    ensures Pow2(232) == 0x100_0000_0000_0000_0000_0000_0000_0000_0000_0000_0000_0000_0000_0000_0000
    ensures Pow2(23) == 0x80_0000 && Pow2(255) == POW255
  {
    hide Pow2;
    Pow2At32();
    Pow2At16();
    Pow2Add(16, 8);
    Pow2Add(32, 24);
    Pow2Add(56, 24);
    Pow2Add(80, 24);
    Pow2Add(104, 24);
    Pow2Add(128, 32);
    Pow2Add(160, 24);
    Pow2Add(184, 24);
    Pow2Add(208, 24);
    Pow2At21();
    Pow2Add(21, 2);
    assert Pow2(2) == 4 by { Pow2Small(); }
    Pow2Add(232, 23);
  }

  lemma Pow2Small()
    ensures Pow2(2) == 4
  {
  }

  // The ten shifted words of fe_frombytes weigh the low 255 bits.
  lemma WordsValue(v: nat, h: seq<int>)
    requires |h| == 10
    requires h[0] == Field(v, 0, 32) && h[1] == Field(v, 32, 24) * 64 && h[2] == Field(v, 56, 24) * 32
    requires h[3] == Field(v, 80, 24) * 8 && h[4] == Field(v, 104, 24) * 4 && h[5] == Field(v, 128, 32)
    requires h[6] == Field(v, 160, 24) * 128 && h[7] == Field(v, 184, 24) * 32 && h[8] == Field(v, 208, 24) * 16
    requires h[9] == Field(v, 232, 23) * 4
    ensures Weigh(h) == Field(v, 0, 255)
  {
    hide Field, Pow2;
    Pow2Multiples();
    FieldJoin(v, 0, 32, 24);
    FieldJoin(v, 0, 56, 24);
    FieldJoin(v, 0, 80, 24);
    FieldJoin(v, 0, 104, 24);
    FieldJoin(v, 0, 128, 32);
    FieldJoin(v, 0, 160, 24);
    FieldJoin(v, 0, 184, 24);
    FieldJoin(v, 0, 208, 24);
    FieldJoin(v, 0, 232, 23);
  }

  // carry9 wraps into limb 0, then the other odd limbs, then the even ones.
  method CarryLoaded(h0: int64, h1: int64, h2: int64, h3: int64, h4: int64,
                     h5: int64, h6: int64, h7: int64, h8: int64, h9: int64)
    returns (r0: int32, r1: int32, r2: int32, r3: int32, r4: int32, r5: int32, r6: int32, r7: int32, r8: int32,
        r9: int32)
    requires 0 <= h0 < 0x1_0000_0000 && 0 <= h1 < 0x1_0000_0000 && 0 <= h2 < 0x1_0000_0000
    requires 0 <= h3 < 0x1_0000_0000 && 0 <= h4 < 0x1_0000_0000 && 0 <= h5 < 0x1_0000_0000
    requires 0 <= h6 < 0x1_0000_0000 && 0 <= h7 < 0x1_0000_0000 && 0 <= h8 < 0x1_0000_0000
    requires 0 <= h9 < 0x1_0000_0000
    ensures Within([r0 as int, r1 as int, r2 as int, r3 as int, r4 as int, r5 as int, r6 as int, r7 as int,
        r8 as int, r9 as int], E101)
    ensures Cong(Weigh([r0 as int, r1 as int, r2 as int, r3 as int, r4 as int, r5 as int, r6 as int, r7 as int,
        r8 as int, r9 as int]), Weigh([h0 as int, h1 as int, h2 as int, h3 as int, h4 as int, h5 as int,
        h6 as int, h7 as int, h8 as int, h9 as int]))
  {
    ghost var v := Weigh([h0 as int, h1 as int, h2 as int, h3 as int, h4 as int, h5 as int, h6 as int,
        h7 as int, h8 as int, h9 as int]);
    var h0, h1, h2, h3, h4, h5, h6, h7, h8, h9 := h0, h1, h2, h3, h4, h5, h6, h7, h8, h9;
    ghost var carry9 := Out25(h9 as int);
    hide Out26, Out25, Cong;
    h9, h0 := Wrap25(h9, h0);
    h1, h2 := Carry25(h1, h2);
    h3, h4 := Carry25(h3, h4);
    h5, h6 := Carry25(h5, h6);
    h7, h8 := Carry25(h7, h8);
    h0, h1 := Carry26(h0, h1);
    h2, h3 := Carry26(h2, h3);
    h4, h5 := Carry26(h4, h5);
    h6, h7 := Carry26(h6, h7);
    h8, h9 := Carry26(h8, h9);
    r0, r1, r2, r3, r4 := h0 as int32, h1 as int32, h2 as int32, h3 as int32, h4 as int32;
    r5, r6, r7, r8, r9 := h5 as int32, h6 as int32, h7 as int32, h8 as int32, h9 as int32;
    CongWith(Weigh([r0 as int, r1 as int, r2 as int, r3 as int, r4 as int, r5 as int, r6 as int, r7 as int,
        r8 as int, r9 as int]), v, -carry9);
  }

  // fe_frombytes: reads the low 255 bits of s; the top bit is ignored.
  method FromBytes(h: array<int32>, s: array<byte>)
    requires h.Length == 10 && s.Length >= 32
    modifies h
    ensures Cong(Fe.Value(h), LE(s[..32]) % POW255)
    ensures Within(Limbs(h), E101)
  {
    hide LE, Weigh, Cong;
    var h0, h1, h2, h3, h4, h5, h6, h7, h8, h9 := Words(s);
    var r0, r1, r2, r3, r4, r5, r6, r7, r8, r9 := CarryLoaded(h0, h1, h2, h3, h4, h5, h6, h7, h8, h9);
    Fe.Store(h, r0, r1, r2, r3, r4, r5, r6, r7, r8, r9);
  }

  // The shifted words of fe_frombytes.
  method Words(s: array<byte>)
    returns (h0: int64, h1: int64, h2: int64, h3: int64, h4: int64,
             h5: int64, h6: int64, h7: int64, h8: int64, h9: int64)
    requires s.Length >= 32
    ensures 0 <= h0 < 0x1_0000_0000 && 0 <= h1 < 0x1_0000_0000 && 0 <= h2 < 0x1_0000_0000
    ensures 0 <= h3 < 0x1_0000_0000 && 0 <= h4 < 0x1_0000_0000 && 0 <= h5 < 0x1_0000_0000
    ensures 0 <= h6 < 0x1_0000_0000 && 0 <= h7 < 0x1_0000_0000 && 0 <= h8 < 0x1_0000_0000
    ensures 0 <= h9 < 0x1_0000_0000
    ensures Weigh([h0 as int, h1 as int, h2 as int, h3 as int, h4 as int,
                   h5 as int, h6 as int, h7 as int, h8 as int, h9 as int]) == LE(s[..32]) % POW255
  {
    hide Field, Load3, Load4, LE, Weigh;
    ghost var v := LE(s[..]);
    WordBounds(v);
    TopWord(v);
    h0 := Load4(s, 0);
    h1 := Load3(s, 4) * 0x40;
    h2 := Load3(s, 7) * 0x20;
    h3 := Load3(s, 10) * 0x8;
    h4 := Load3(s, 13) * 0x4;
    h5 := Load4(s, 16);
    h6 := Load3(s, 20) * 0x80;
    h7 := Load3(s, 23) * 0x20;
    h8 := Load3(s, 26) * 0x10;
    h9 := (Load3(s, 29) % 0x80_0000) * 0x4;
    WordsValue(v, [h0 as int, h1 as int, h2 as int, h3 as int, h4 as int,
                   h5 as int, h6 as int, h7 as int, h8 as int, h9 as int]);
    LowBytes(s[..]);
    assert s[..][..32] == s[..32];
  }

  lemma TopWord(v: nat)
    ensures Field(v, 232, 24) % 0x80_0000 == Field(v, 232, 23)
  {
    hide Pow2;
    FieldField(v, 232, 24, 0, 23);
    Pow2Multiples();
    Pow2Zero();
  }

  lemma WordBounds(v: nat)
    ensures Field(v, 0, 32) < 0x1_0000_0000 && Field(v, 32, 24) < 0x100_0000 && Field(v, 56, 24) < 0x100_0000
    ensures Field(v, 80, 24) < 0x100_0000 && Field(v, 104, 24) < 0x100_0000 && Field(v, 128, 32) < 0x1_0000_0000
    ensures Field(v, 160, 24) < 0x100_0000 && Field(v, 184, 24) < 0x100_0000 && Field(v, 208, 24) < 0x100_0000
    ensures Field(v, 232, 23) < 0x80_0000 && Field(v, 232, 24) < 0x100_0000
  {
    hide Pow2, Field;
    Pow2Multiples();
    FieldBound(v, 0, 32);
    FieldBound(v, 32, 24);
    FieldBound(v, 56, 24);
    FieldBound(v, 80, 24);
    FieldBound(v, 104, 24);
    FieldBound(v, 128, 32);
    FieldBound(v, 160, 24);
    FieldBound(v, 184, 24);
    FieldBound(v, 208, 24);
    FieldBound(v, 232, 23);
    FieldBound(v, 232, 24);
  }

  // the low 255 bits of a buffer are those of its first 32 bytes
  lemma LowBytes(b: seq<byte>)
    requires |b| >= 32
    ensures Field(LE(b), 0, 255) == LE(b[..32]) % POW255
  {
    hide Pow2, LE;
    LEField(b, 0, 32);
    assert b[0..32] == b[..32];
    FieldField(LE(b), 0, 256, 0, 255);
    Pow2Multiples();
    Pow2Zero();
  }

  // Congruent numbers have the same canonical encoding.
  lemma CongMod(a: int, b: int)
    requires Cong(a, b)
    ensures a % Q == b % Q
  {
    var k := Witness(a, b);
    assert a == (b / Q + k) * Q + b % Q;
    DivMod(a, Q, b / Q + k, b % Q);
  }

  lemma {:induction false} LEInjective(a: seq<byte>, b: seq<byte>)
    requires |a| == |b| && LE(a) == LE(b)
    ensures a == b
  {
    if |a| > 0 {
      LEInjective(a[1..], b[1..]);
      assert a == [a[0]] + a[1..] && b == [b[0]] + b[1..];
    }
  }

  // Decoding and encoding again reduces the low 255 bits modulo the prime: the identity on canonical encodings.
  method Recode(t: array<byte>, s: array<byte>)
    requires t.Length >= 32 && s.Length >= 32
    modifies t
    ensures LE(t[..32]) == old(LE(s[..32])) % POW255 % Q
    ensures old(LE(s[..32])) < Q ==> t[..32] == old(s[..32])
  {
    hide LE, Weigh, Cong, Within;
    ghost var b := s[..32];
    var h := new int32[10];
    FromBytes(h, s);
    CongMod(Fe.Value(h), LE(b) % POW255);
    WithinMono(Limbs(h), E101, E220);
    ToBytes(t, h);
    if LE(b) < Q {
      LEInjective(t[..32], b);
    }
  }

  // fe_isnegative: the parity of the canonical representative.
  method IsNegative(f: array<int32>) returns (b: byte)
    requires f.Length == 10 && Within(Limbs(f), E220)
    ensures b as int == Fe.Value(f) % Q % 2
  {
    var s := new byte[32];
    ToBytes(s, f);
    LowBit(s[..32]);
    b := s[0] % 2;
  }

  lemma LowBit(s: seq<byte>)
    requires |s| > 0
    ensures LE(s) % 2 == s[0] as int % 2
  {
    var t := LE(s[1..]);
    assert LE(s) == s[0] as int + 2 * (128 * t);
  }

  // fe_isnonzero: 1 unless f is a multiple of the prime.
  method IsNonzero(f: array<int32>) returns (b: bool)
    requires f.Length == 10 && Within(Limbs(f), E220)
    ensures b <==> Fe.Value(f) % Q != 0
  {
    hide LE, Or, Weigh;
    var s := new byte[32];
    ToBytes(s, f);
    ghost var t := s[..32];
    var r: nat := s[0] as nat;
    for i := 1 to 32
      invariant s[..32] == t
      invariant r == 0 <==> forall k :: 0 <= k < i ==> s[k] == 0
    {
      OrIsZero(r, s[i] as nat);
      r := Or(r, s[i] as nat);
    }
    LEIsZero(t);
    assert forall k :: 0 <= k < 32 ==> t[k] == s[k];
    b := r != 0;
  }

  lemma OrIsZero(x: nat, y: nat)
    ensures Or(x, y) == 0 <==> x == 0 && y == 0
  {
  }

  lemma {:induction false} LEIsZero(s: seq<byte>)
    ensures LE(s) == 0 <==> forall k :: 0 <= k < |s| ==> s[k] == 0
  {
    if |s| > 0 {
      LEIsZero(s[1..]);
      if LE(s) == 0 {
        forall k | 0 <= k < |s| ensures s[k] == 0 {
          if k > 0 { assert s[k] == s[1..][k - 1]; }
        }
      }
    }
  }
}
