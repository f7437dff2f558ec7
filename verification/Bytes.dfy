// Reading and writing little-endian numbers byte by byte.
module Bytes {
  import opened Ints
  import opened Arith
  import opened Bits

  // load_3 and load_4: the little-endian number at a[off..off+3] or a[off..off+4]
  function Load3(a: array<byte>, off: nat): (r: int64)
    requires off + 3 <= a.Length
    reads a
    ensures r as int == Field(LE(a[..]), 8 * off, 24)
  {
    LEField(a[..], off, 3);
    LE3(a[..], off);
    Or(Or(a[off] as nat, a[off + 1] as nat * 0x100), a[off + 2] as nat * 0x1_0000) as int64
  }

  function Load4(a: array<byte>, off: nat): (r: int64)
    requires off + 4 <= a.Length
    reads a
    ensures r as int == Field(LE(a[..]), 8 * off, 32)
  {
    LEField(a[..], off, 4);
    LE4(a[..], off);
    Or(Or(Or(a[off] as nat, a[off + 1] as nat * 0x100), a[off + 2] as nat * 0x1_0000),
        a[off + 3] as nat * 0x100_0000) as int64
  }

  lemma LE3(b: seq<byte>, off: nat)
    requires off + 3 <= |b|
    ensures LE(b[off..off + 3]) == Or(Or(b[off] as nat, b[off + 1] as nat * 0x100), b[off + 2] as nat * 0x1_0000)
    ensures LE(b[off..off + 3]) < 0x100_0000
  {
    hide Or, Pow2;
    assert b[off..off + 3] == [b[off], b[off + 1], b[off + 2]];
    OrBytes(b[off], b[off + 1], b[off + 2], 0);
    LEDisplay(b[off], b[off + 1], b[off + 2], 0);
  }

  lemma LE4(b: seq<byte>, off: nat)
    requires off + 4 <= |b|
    ensures LE(b[off..off + 4]) == Or(Or(Or(b[off] as nat, b[off + 1] as nat * 0x100), b[off + 2] as nat * 0x1_0000),
                                      b[off + 3] as nat * 0x100_0000)
    ensures LE(b[off..off + 4]) < 0x1_0000_0000
  {
    hide Or, Pow2;
    assert b[off..off + 4] == [b[off], b[off + 1], b[off + 2], b[off + 3]];
    OrBytes(b[off], b[off + 1], b[off + 2], b[off + 3]);
    LEDisplay(b[off], b[off + 1], b[off + 2], b[off + 3]);
  }

  lemma OrBytes(b0: byte, b1: byte, b2: byte, b3: byte)
    ensures Or(Or(b0 as nat, b1 as nat * 0x100), b2 as nat * 0x1_0000)
      == b0 as nat + b1 as nat * 0x100 + b2 as nat * 0x1_0000
    ensures Or(Or(Or(b0 as nat, b1 as nat * 0x100), b2 as nat * 0x1_0000), b3 as nat * 0x100_0000)
      == b0 as nat + b1 as nat * 0x100 + b2 as nat * 0x1_0000 + b3 as nat * 0x100_0000
  {
    hide Or;
    assert Pow2(8) == 0x100 && Pow2(16) == 0x1_0000 && Pow2(24) == 0x100_0000;
    OrDisjoint(b0 as nat, b1 as nat, 8);
    OrDisjoint(b0 as nat + b1 as nat * 0x100, b2 as nat, 16);
    OrDisjoint(b0 as nat + b1 as nat * 0x100 + b2 as nat * 0x1_0000, b3 as nat, 24);
  }

  lemma LEDisplay(b0: byte, b1: byte, b2: byte, b3: byte)
    ensures LE([b0, b1, b2]) == b0 as nat + 0x100 * b1 as nat + 0x1_0000 * b2 as nat
    ensures LE([b0, b1, b2, b3]) == b0 as nat + 0x100 * b1 as nat + 0x1_0000 * b2 as nat + 0x100_0000 * b3 as nat
  {
    hide LE;
    LECons(b3, []);
    LECons(b2, [b3]);
    LECons(b1, [b2, b3]);
    LECons(b0, [b1, b2, b3]);
    LECons(b2, []);
    LECons(b1, [b2]);
    LECons(b0, [b1, b2]);
    assert LE([]) == 0 by { LEEmpty(); }
    assert [b2] + [b3] == [b2, b3] && [b1] + [b2, b3] == [b1, b2, b3] && [b1] + [b2] == [b1, b2];
    assert [b0] + [b1, b2, b3] == [b0, b1, b2, b3] && [b0] + [b1, b2] == [b0, b1, b2];
    assert [b3] + [] == [b3] && [b2] + [] == [b2];
  }

  lemma LEEmpty()
    ensures LE([]) == 0
  {
  }

  lemma LECons(x: byte, t: seq<byte>)
    ensures LE([x] + t) == x as nat + 256 * LE(t)
  {
    assert ([x] + t)[1..] == t;
  }

  lemma TopField(v: nat, lo: nat, m: nat, sh: nat)
    requires sh <= m
    ensures Pow2(sh) > 0
    ensures Field(v, lo, m) / Pow2(sh) == Field(v, lo + sh, m - sh)
    ensures m <= 32 ==> Field(v, lo + sh, m - sh) < 0x1_0000_0000
  {
    hide Pow2, Field;
    FieldJoin(v, lo, sh, m - sh);
    FieldBound(v, lo, sh);
    DivMod(Field(v, lo, m), Pow2(sh), Field(v, lo + sh, m - sh), Field(v, lo, sh));
    if m <= 32 {
      FieldBound(v, lo + sh, m - sh);
      Pow2Mono(m - sh, 32);
      Pow2At32();
    }
  }

  // the low byte of x without its sh low bits
  function ShrByte(x: int64, sh: nat): (r: byte)
    requires 0 <= x
  {
    Pow2Positive(sh);
    (x as nat / Pow2(sh) % 256) as byte
  }

  // shifts, and the conversion to an unsigned char
  function Down(x: nat, sh: nat): nat {
    Pow2Positive(sh);
    Quot(x, Pow2(sh))
  }

  function Up(x: nat, up: nat): nat { x * Pow2(up) }

  function LowByte(n: nat): byte { (n % 256) as byte }

  // the low byte of x without its sh low bits, joined with y moved up
  function OrByte(x: int64, sh: nat, y: int64, up: nat): (r: byte)
    requires 0 <= x && 0 <= y
  {
    LowByte(Or(Down(x as nat, sh), Up(y as nat, up)))
  }

  lemma ShrByteField(x: int64, sh: nat, v: nat, lo: nat, n: nat)
    requires 0 <= x && x as nat == Field(v, lo, n) && sh + 8 <= n
    ensures ShrByte(x, sh) as nat == Field(v, lo + sh, 8)
  {
    FieldField(v, lo, n, sh, 8);
    assert Pow2(8) == 256;
  }

  // The straddling bytes: the top up bits of limb x and the low bits of limb y, which do not overlap.
  lemma OrByteField(x: int64, sh: nat, y: int64, up: nat, v: nat, lo: nat, n: nat)
    requires 0 <= x && x as nat == Field(v, lo, sh + up)
    requires 0 <= y && y as nat == Field(v, lo + sh + up, n) && up <= 8 <= up + n
    ensures OrByte(x, sh, y, up) as nat == Field(v, lo + sh, 8)
  {
    hide Pow2, Or, Field;
    var a, b := Field(v, lo + sh, up), Field(v, lo + sh + up, 8 - up);
    TopField(v, lo, sh + up, sh);
    FieldBound(v, lo + sh, up);
    OrDisjoint(a, y as nat, up);
    LowBits(a, y as nat, up);
    LowByteIs(x as nat, sh, y as nat, up, a);
    FieldJoin(v, lo + sh, up, 8 - up);
    FieldField(v, lo + sh + up, n, 0, 8 - up);
  }

  lemma LowByteIs(x: nat, sh: nat, y: nat, up: nat, a: nat)
    requires Pow2(sh) > 0 && a == x / Pow2(sh) && Or(a, y * Pow2(up)) == a + y * Pow2(up)
    ensures LowByte(Or(Down(x, sh), Up(y, up))) as nat == (a + y * Pow2(up)) % 256
  {
    hide Pow2, Or;
  }

  lemma LowBits(a: nat, y: nat, up: nat)
    requires a < Pow2(up) && up <= 8
    ensures (a + y * Pow2(up)) % 256 == a + Pow2(up) * Field(y, 0, 8 - up)
  {
    hide Pow2;
    Pow2Positive(up);
    Pow2Positive(8 - up);
    Pow2Add(up, 8 - up);
    Pow2Zero();
    assert Pow2(8) == 256 by { Pow2At16(); }
    var w := a + y * Pow2(up);
    DivMod(w, Pow2(up), y, a);
    DivDiv(w, Pow2(up), Pow2(8 - up));
  }
}
