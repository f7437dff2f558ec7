// The signed radix-16 recoding and the constant-time table lookup of ge_scalarmult_base.
module Radix16 {
  import opened Ints
  import opened Bits
  import opened Digits

  // the value of digits in radix 16
  ghost function Val16(s: seq<int8>): int {
    if |s| == 0 then 0 else s[0] as int + 16 * Val16(s[1..])
  }

  ghost function Pow16(n: nat): nat {
    if n == 0 then 1 else 16 * Pow16(n - 1)
  }

  lemma {:induction false} Val16Update(s: seq<int8>, i: nat, d: int8)
    requires i < |s|
    ensures Val16(s[i := d]) == Val16(s) + (d as int - s[i] as int) * Pow16(i)
  {
    if i == 0 {
      assert s[0 := d][1..] == s[1..];
    } else {
      assert s[i := d][1..] == s[1..][i - 1 := d];
      Val16Update(s[1..], i - 1, d);
      var e := d as int - s[i] as int;
      assert 16 * (e * Pow16(i - 1)) == e * Pow16(i);
    }
  }

  // two nibbles a byte
  lemma {:induction false} NibblesValue(s: seq<int8>, b: seq<byte>)
    requires |s| == 2 * |b|
    requires forall i :: 0 <= i < |b| ==> s[2 * i] as int == b[i] as int % 16 && s[2 * i + 1] as int == b[i] as int / 16
    ensures Val16(s) == LE(b)
  {
    if |b| > 0 {
      var t := s[2..];
      forall i | 0 <= i < |b[1..]|
        ensures t[2 * i] as int == b[1..][i] as int % 16 && t[2 * i + 1] as int == b[1..][i] as int / 16
      {
        assert t[2 * i] == s[2 * (i + 1)] && t[2 * i + 1] == s[2 * (i + 1) + 1];
      }
      NibblesValue(t, b[1..]);
      assert s[1..][1..] == t;
      assert s[2 * 0] as int == b[0] as int % 16 && s[2 * 0 + 1] as int == b[0] as int / 16;
    }
  }

  // the low and the high half of byte i
  method Nibbles(e: array<int8>, a: array<byte>)
    requires e.Length == 64 && a.Length >= 32
    modifies e
    ensures forall i :: 0 <= i < 64 ==> 0 <= e[i] <= 15
    ensures a[31] <= 127 ==> e[63] <= 7
    ensures Val16(e[..]) == LE(a[..32])
  {
    for i := 0 to 32
      invariant forall j :: 0 <= j < i ==> e[2 * j] as int == a[j] as int % 16
      invariant forall j :: 0 <= j < i ==> e[2 * j + 1] as int == a[j] as int / 16
    {
      e[2 * i] := (a[i] % 16) as int8;
      e[2 * i + 1] := (a[i] / 16 % 16) as int8;
    }
    forall i | 0 <= i < 64 ensures 0 <= e[i] <= 15 {
      assert e[2 * (i / 2)] as int == a[i / 2] as int % 16 && e[2 * (i / 2) + 1] as int == a[i / 2] as int / 16;
      assert i == 2 * (i / 2) || i == 2 * (i / 2) + 1;
    }
    assert e[2 * 31 + 1] as int == a[31] as int / 16;
    NibblesValue(e[..], a[..32]);
  }

  lemma CarryValue(s: seq<int8>, i: nat, d: int8, carry: int, carry': int)
    requires i < |s| && d as int == s[i] as int + carry - 16 * carry'
    ensures Val16(s[i := d]) + carry' * Pow16(i + 1) == Val16(s) + carry * Pow16(i)
  {
    Val16Update(s, i, d);
    var p := Pow16(i);
    assert (carry - 16 * carry') * p + carry' * (16 * p) == carry * p;
  }

  // The recoding of ge_scalarmult_base: digits between -8 and 8 with the value of a.
  method Recode(e: array<int8>, a: array<byte>)
    requires e.Length == 64 && a.Length >= 32
    modifies e
    ensures forall i :: 0 <= i < 63 ==> -8 <= e[i] < 8
    ensures 0 <= e[63] <= 16 && (a[31] <= 127 ==> e[63] <= 8)
    ensures Val16(e[..]) == LE(a[..32])
  {
    hide Val16, Pow16, LE;
    Nibbles(e, a);
    var carry: int8 := 0;
    ghost var v, top := LE(a[..32]), e[63];
    for i := 0 to 63
      invariant 0 <= carry <= 1
      invariant forall j :: 0 <= j < i ==> -8 <= e[j] < 8
      invariant forall j :: i <= j < 64 ==> 0 <= e[j] <= 15
      invariant e[63] == top
      invariant Val16(e[..]) + carry as int * Pow16(i) == v
    {
      ghost var s, c := e[..], carry;
      e[i] := e[i] + carry;
      carry := e[i] + 8;
      carry := carry / 16;
      e[i] := e[i] - carry * 16;
      CarryValue(s, i, e[i], c as int, carry as int);
      assert e[..] == s[i := e[i]];
    }
    ghost var s := e[..];
    e[63] := e[63] + carry;
    CarryValue(s, 63, e[63], carry as int, 0);
    assert e[..] == s[63 := e[63]];
  }

  // equal(b, c): 1 if b == c, 0 otherwise, by the wrap-around of an unsigned subtraction
  function Equal(b: int8, c: int8): (r: nat)
    ensures r == if b == c then 1 else 0
  {
    var ub := if b < 0 then b as int + 256 else b as int;
    var uc := if c < 0 then c as int + 256 else c as int;
    XorIsZero(ub, uc);
    XorByte(ub, uc);
    var x := Xor(ub, uc);
    var y := (x - 1) % 0x1_0000_0000_0000_0000;
    y / 0x8000_0000_0000_0000
  }

  lemma XorByte(x: nat, y: nat)
    requires x < 256 && y < 256
    ensures Xor(x, y) < 256
  {
    assert Pow2(8) == 256;
    XorBound(x, y, 8);
  }

  // negative(b): the sign bit of b extended to 64 bits
  function Negative(b: int8): (r: nat)
    ensures r == if b < 0 then 1 else 0
  {
    var x := if b < 0 then b as int + 0x1_0000_0000_0000_0000 else b as int;
    x / 0x8000_0000_0000_0000
  }
}
