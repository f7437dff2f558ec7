// fe_cmov: a conditional move without branches, by exclusive or with a mask.
module FeSelect {
  import opened Ints
  import opened Bits
  import opened FeMultiply
  import Fe

  // an int32 as its unsigned two's complement, and back
  function ToUnsigned(x: int32): (r: nat)
    ensures r < 0x1_0000_0000
  {
    if x < 0 then x as int + 0x1_0000_0000 else x as int
  }

  function ToSigned(n: nat): int32
    requires n < 0x1_0000_0000
  {
    (if n >= 0x8000_0000 then n - 0x1_0000_0000 else n) as int32
  }

  // x = f ^ g; x &= -b; f ^ x
  function Blend(f: int32, g: int32, b: nat): (r: int32)
    requires b == 0 || b == 1
    ensures r == if b == 1 then g else f
  {
    BlendBits(ToUnsigned(f), ToUnsigned(g));
    var x := Xor(ToUnsigned(f), ToUnsigned(g));
    var mask := (0x1_0000_0000 - b) % 0x1_0000_0000;
    ToSigned(Xor(ToUnsigned(f), And(x, mask)))
  }

  lemma BlendBits(f: nat, g: nat)
    requires f < 0x1_0000_0000 && g < 0x1_0000_0000
    ensures Xor(f, And(Xor(f, g), 0)) == f && Xor(f, And(Xor(f, g), 0xFFFF_FFFF)) == g
  {
    hide Pow2;
    var x := Xor(f, g);
    Pow2At32();
    XorBound(f, g, 32);
    AndOnes(x, 32);
    XorTwice(f, g);
    XorZero(f);
    assert And(x, 0) == 0;
  }

  // fe_cmov: replace f by g when b is 1, leave it when b is 0.
  method Cmov(f: array<int32>, g: array<int32>, b: nat)
    requires f.Length == g.Length == 10
    requires b == 0 || b == 1
    modifies f
    ensures Limbs(f) == if b == 1 then old(Limbs(g)) else old(Limbs(f))
  {
    hide Blend;
    Fe.Store(f, Blend(f[0], g[0], b), Blend(f[1], g[1], b), Blend(f[2], g[2], b), Blend(f[3], g[3], b),
             Blend(f[4], g[4], b), Blend(f[5], g[5], b), Blend(f[6], g[6], b), Blend(f[7], g[7], b),
             Blend(f[8], g[8], b), Blend(f[9], g[9], b));
  }
}
