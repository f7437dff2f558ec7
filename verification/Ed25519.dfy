// Key generation and signing: keypair.c and sign.c.
module Ed25519 {
  import opened Ints
  import opened Arith
  import opened Bits
  import opened Ge
  import opened Edwards
  import opened GeGroup
  import opened Scalars
  import opened BaseScalarMult
  import opened PointEncoding
  import opened Sha3
  import P = FePower
  import Sc
  import ScLimbs

  // ----- clamping -----

  lemma AndStep(x: nat, y: nat)
    ensures And(x, y) == 2 * And(x / 2, y / 2) + (if x % 2 == 1 && y % 2 == 1 then 1 else 0)
  {
  }

  lemma MaskHigh(x: nat)
    requires x < 256
    ensures And(x, 248) == x - x % 8
  {
    hide And, Pow2;
    AndStep(x, 248);
    AndStep(x / 2, 124);
    AndStep(x / 4, 62);
    Pow2At16();
    AndOnes(x / 8, 5);
  }

  lemma {:induction false} MaskLow(x: nat, n: nat)
    ensures Pow2(n) >= 1 && And(x, Pow2(n) - 1) == x % Pow2(n)
    decreases n
  {
    hide And;
    if n == 0 {
      AndZero(x);
    } else {
      MaskLow(x / 2, n - 1);
      var p := Pow2(n - 1);
      assert Pow2(n) == 2 * p;
      hide Pow2;
      Halve(p);
      AndStep(x, 2 * p - 1);
      ModDouble(x, p);
    }
  }

  lemma AndZero(x: nat)
    ensures And(x, 0) == 0
  {
  }

  lemma Halve(p: nat)
    requires p >= 1
    ensures (2 * p - 1) / 2 == p - 1 && (2 * p - 1) % 2 == 1
  {
  }

  lemma ModDouble(x: nat, p: nat)
    requires p > 0
    ensures x % (2 * p) == 2 * (x / 2 % p) + x % 2
  {
    DivDiv(x, 2, p);
  }

  function ClampFirst(b: byte): (r: byte)
    ensures r as int == b as int - b as int % 8
  {
    MaskHigh(b as nat);
    And(b as nat, 248) as byte
  }

  function ClampLast(b: byte): (r: byte)
    ensures r as int == 64 + b as int % 64
  {
    assert Pow2(6) == 64;
    MaskLow(b as nat, 6);
    OrDisjoint(b as nat % 64, 1, 6);
    Or(And(b as nat, 63), 64) as byte
  }

  // The clamped scalar: bit 254 set, bit 255 and the low three bits cleared, every other bit of the hash kept.
  ghost function Clamped(v: nat): nat {
    Pow2Positive(254);
    Pow2(254) + v % Pow2(254) - v % 8
  }

  lemma ClampedFacts(v: nat)
    ensures Clamped(v) % 8 == 0 && Pow2(254) <= Clamped(v) < 2 * Pow2(254)
  {
    hide Pow2;
    var q := Pow2(251);
    Pow2Positive(251);
    Pow2Add(3, 251);
    assert Pow2(3) == 8 by { Eight(); }
    DivDiv(v, 8, q);
    var k := v / 8 % q;
    assert Clamped(v) == 8 * (q + k);
  }

  lemma Eight()
    ensures Pow2(3) == 8
  {
  }

  // the value of 32 bytes by their first and their last byte
  lemma Ends(b: seq<byte>)
    requires |b| == 32
    ensures LE(b) == b[0] as int + 256 * LE(b[1..31]) + Pow2(248) * b[31] as int
  {
    hide Pow2;
    LESplit(b, 31);
    assert b[31..] == [b[31]];
    One(b[31]);
    assert b[..31][1..] == b[1..31];
  }

  // clamping the two bytes clamps the value
  lemma ClampedBytes(b: seq<byte>)
    requires |b| == 32
    ensures LE(b[0 := ClampFirst(b[0])][31 := ClampLast(b[31])]) == Clamped(LE(b))
  {
    hide Pow2, LE, ClampFirst, ClampLast, Or, And;
    var d := b[0 := ClampFirst(b[0])][31 := ClampLast(b[31])];
    Ends(b);
    Ends(d);
    assert d[1..31] == b[1..31];
    var t, p, e := LE(b[1..31]), Pow2(248), b[31] as nat;
    LEBound(b[..31]);
    LESplit(b, 31);
    Pow2Positive(248);
    Pow2Positive(254);
    Pow2Add(248, 6);
    SixtyFour();
    var low := b[0] as nat + 256 * t;
    assert low == LE(b[..31]) by { assert b[..31][1..] == b[1..31]; Ends31(b[..31]); }
    TopBits(low, p, e);
    assert LE(b) % 8 == b[0] as nat % 8 by { LowBits(b[0] as nat, t, p, e); }
  }

  lemma Ends31(b: seq<byte>)
    requires |b| == 31
    ensures LE(b) == b[0] as int + 256 * LE(b[1..])
  {
  }

  lemma SixtyFour()
    ensures Pow2(6) == 64
  {
  }

  lemma TopBits(low: nat, p: nat, e: nat)
    requires low < p
    ensures p * 64 > 0 && (low + p * e) % (p * 64) == low + p * (e % 64)
    ensures p * (64 + e % 64) == p * 64 + p * (e % 64)
  {
    var q, r := e / 64, e % 64;
    assert p * e == q * (p * 64) + p * r;
    MulMono(p, r, 63);
    DivMod(low + p * e, p * 64, q, low + p * r);
  }

  lemma LowBits(b: nat, t: nat, p: nat, e: nat)
    requires p == Pow2(248)
    ensures (b + 256 * t + p * e) % 8 == b % 8
  {
    hide Pow2;
    var q := Pow2(245);
    Pow2Add(3, 245);
    Eight();
    assert p * e == 8 * (q * e);
    DivMod(b + 256 * t + p * e, 8, b / 8 + 32 * t + q * e, b % 8);
  }

  // ----- key generation -----

  // the secret scalar and the prefix that a seed determines (section 5.1.5 of RFC 8032 with SHA3-512)
  ghost function SecretScalar(seed: seq<byte>): nat { Clamped(LE(Digest(seed, 64)[..32])) }

  ghost function Prefix(seed: seq<byte>): seq<byte> { Digest(seed, 64)[32..] }

  // sha3(seed, 32, private_key, 64) and the clamping
  method ExpandSeed(private_key: array<byte>, seed: array<byte>)
    requires private_key.Length >= 64 && seed.Length >= 32 && private_key != seed
    modifies private_key
    ensures LE(private_key[..32]) == SecretScalar(seed[..32]) && private_key[32..64] == Prefix(seed[..32])
    ensures ClampedHash(Digest(seed[..32], 64), private_key[..64])
    ensures LE(private_key[..32]) % 8 == 0 && Pow2(254) <= LE(private_key[..32]) < Pow2(255)
    ensures 64 <= private_key[31] <= 127
  {
    hide LE, Clamped, Digest, And, Or;
    Hash(seed, 32, private_key, 64);
    ghost var d := private_key[..64];
    private_key[0] := ClampFirst(private_key[0]);
    private_key[31] := ClampLast(private_key[31]);
    ClampedBytes(d[..32]);
    hide ClampFirst, ClampLast;
    assert private_key[..32] == d[..32][0 := ClampFirst(d[0])][31 := ClampLast(d[31])];
    assert private_key[32..64] == d[32..];
    assert ClampedHash(d, private_key[..64]);
    hide Pow2;
    ClampedFacts(LE(d[..32]));
    assert Pow2(255) == 2 * Pow2(254) by { Pow2Next(); }
  }

  lemma Pow2Next()
    ensures Pow2(255) == 2 * Pow2(254)
  {
  }

  // The 64 bytes k are the hash d with the low three bits of byte 0 cleared, and in byte 31 the top bit cleared and
  // the next one set.
  ghost predicate ClampedHash(d: seq<byte>, k: seq<byte>)
    requires |d| == |k| == 64
  {
    && k[0] as int == d[0] as int - d[0] as int % 8
    && k[1..31] == d[1..31]
    && k[31] as int == 64 + d[31] as int % 64
    && k[32..] == d[32..]
  }

  // ed25519_create_keypair: the public key encodes the multiple of the base point by the clamped scalar.
  method CreateKeypair<G(!new)>(public_key: array<byte>, private_key: array<byte>, seed: array<byte>,
                                base: seq<seq<Precomp>>, ghost fp: set<object>, ghost c: Curve<G>, ghost B: G)
    requires Laws(c) && P.Fermat() && BaseTable(base, fp, c, B)
    requires public_key.Length >= 32 && private_key.Length >= 64 && seed.Length >= 32
    requires private_key != seed && public_key != private_key && public_key != seed
    requires private_key !in fp
    modifies public_key, private_key
    ensures LE(private_key[..32]) == SecretScalar(seed[..32]) && private_key[32..64] == Prefix(seed[..32])
    ensures ClampedHash(Digest(seed[..32], 64), private_key[..64])
    ensures LE(private_key[..32]) % 8 == 0 && Pow2(254) <= LE(private_key[..32]) < Pow2(255)
    ensures LE(public_key[..32]) == Encoding(c, SMul(c, LE(private_key[..32]), B))
  {
    hide LE, SMul, Laws, P.Fermat, BaseTable, IsP3, Encoding, SecretScalar, Prefix, Pow2, Digest, ClampedHash;
    ExpandSeed(private_key, seed);
    var A := new P3();
    ScalarmultBase(A, private_key, base, fp, c, B);
    EncodeP3(public_key, A, c, SMul(c, SecretScalar(seed[..32]), B));
  }

  // ----- the group order -----

  lemma MultipleOfZero<G(!new)>(c: Curve<G>, n: int)
    requires GroupLaws(c)
    ensures SMul(c, n, c.zero) == c.zero
  {
    hide GroupLaws, SMul;
    SMulOne(c, c.zero);
    SMulMul(c, n, 0, c.zero);
  }

  // scalars count modulo the order of the point
  lemma ModOrder<G(!new)>(c: Curve<G>, n: nat, l: nat, g: G)
    requires GroupLaws(c) && l > 0 && SMul(c, l, g) == c.zero
    ensures SMul(c, n % l, g) == SMul(c, n, g)
  {
    hide GroupLaws, SMul;
    var q := n / l;
    SMulMul(c, q, l, g);
    MultipleOfZero(c, q);
    SMulAdd(c, n % l, q * l, g);
    Scalars.Zero(c, SMul(c, n % l, g));
  }

  // The verification equation S B = R + k A for R = r B, A = a B and S = (k a + r) mod l.
  lemma VerificationEquation<G(!new)>(c: Curve<G>, B: G, l: nat, k: nat, a: nat, r: nat)
    requires GroupLaws(c) && l > 0 && SMul(c, l, B) == c.zero
    ensures k * a + r >= 0 && SMul(c, (k * a + r) % l, B) == c.add(SMul(c, r, B), SMul(c, k, SMul(c, a, B)))
  {
    hide GroupLaws, SMul;
    ModOrder(c, k * a + r, l, B);
    SMulAdd(c, r, k * a, B);
    SMulMul(c, k, a, B);
  }

  // ----- signing -----

  // sc_reduce leaves a last byte below 128: the precondition of ge_scalarmult_base
  lemma ReducedTop(b: seq<byte>)
    requires |b| == 32 && LE(b) < ScLimbs.L
    ensures b[31] <= 127
  {
    hide LE, Pow2;
    TopByte(b, b[31]);
    Pow2At255();
  }

  // sha3 of the prefix and the message, reduced
  method Nonce(r: array<byte>, private_key: array<byte>, message: array<byte>, message_len: nat)
    requires r.Length == 64 && private_key.Length >= 64 && message_len <= message.Length
    requires r != private_key && r != message
    modifies r
    ensures LE(r[..32]) == LE(Digest(private_key[32..64] + message[..message_len], 64)) % ScLimbs.L
    ensures r[31] <= 127
  {
    hide LE, Digest, Context.Absorbed;
    ghost var prefix, m := private_key[32..64], message[..message_len];
    var hash := new Context();
    hash.Init(64);
    hash.Update(private_key, 32, 32, []);
    assert [] + private_key[32..32 + 32] == prefix;
    hash.Update(message, 0, message_len, prefix);
    hash.Final(r, prefix + m);
    assert r[..64] == Digest(prefix + m, 64);
    Sc.Reduce(r);
    ReducedTop(r[..32]);
  }

  // sha3 of the encoded point, the public key and the message, reduced
  method Challenge(hram: array<byte>, signature: array<byte>, public_key: array<byte>, message: array<byte>,
      message_len: nat)
    requires hram.Length == 64 && signature.Length >= 32 && public_key.Length >= 32 && message_len <= message.Length
    requires hram != signature && hram != public_key && hram != message
    modifies hram
    ensures LE(hram[..32]) == LE(Digest(signature[..32] + public_key[..32] + message[..message_len], 64)) % ScLimbs.L
  {
    hide LE, Digest, Context.Absorbed;
    ghost var e, p, m := signature[..32], public_key[..32], message[..message_len];
    var hash := new Context();
    hash.Init(64);
    hash.Update(signature, 0, 32, []);
    assert [] + signature[0..0 + 32] == e;
    hash.Update(public_key, 0, 32, e);
    hash.Update(message, 0, message_len, e + p);
    hash.Final(hram, e + p + m);
    assert hram[..64] == Digest(e + p + m, 64);
    Sc.Reduce(hram);
  }

  // ed25519_sign: the signature is the encoding of R = r B and S = (k a + r) mod l, and S B = R + k A.
  method Sign<G(!new)>(signature: array<byte>, message: array<byte>, message_len: nat,
                       public_key: array<byte>, private_key: array<byte>,
                       base: seq<seq<Precomp>>, ghost fp: set<object>, ghost c: Curve<G>, ghost B: G)
    requires Laws(c) && P.Fermat() && BaseTable(base, fp, c, B)
    requires signature.Length >= 64 && message_len <= message.Length
    requires public_key.Length >= 32 && private_key.Length >= 64
    requires signature != message && signature != public_key && signature != private_key
    modifies signature
    ensures var r := LE(Digest(private_key[32..64] + message[..message_len], 64)) % ScLimbs.L;
            var k := LE(Digest(signature[..32] + public_key[..32] + message[..message_len], 64)) % ScLimbs.L;
            var a, S := LE(private_key[..32]), LE(signature[32..64]);
            && LE(signature[..32]) == Encoding(c, SMul(c, r, B))
            && S == (k * a + r) % ScLimbs.L && S < ScLimbs.L
            && (SMul(c, ScLimbs.L, B) == c.zero ==> SMul(c, S, B) == c.add(SMul(c, r, B), SMul(c, k, SMul(c, a, B))))
  {
    hide LE, SMul, GroupLaws, CoordinateLaws, PrimeField, P.Fermat, BaseTable, IsP3, Encoding, Digest;
    var hram, r := new byte[64], new byte[64];
    Nonce(r, private_key, message, message_len);
    ghost var n := LE(r[..32]);
    var R := new P3();
    ScalarmultBase(R, r, base, fp, c, B);
    EncodeP3(signature, R, c, SMul(c, n, B));
    Challenge(hram, signature, public_key, message, message_len);
    ghost var k, a := LE(hram[..32]), LE(private_key[..32]);
    ghost var e := signature[..32];
    Sc.MulAdd(signature, 32, hram, private_key, r);
    assert signature[..32] == e;
    if SMul(c, ScLimbs.L, B) == c.zero {
      VerificationEquation(c, B, ScLimbs.L, k, a, n);
    }
  }

  // The equation that a verifier checks for the public point A: S B = R + k A, for a point R that the
  // signature's first half encodes.
  ghost predicate Verifies<G(!new)>(c: Curve<G>, B: G, A: G, public_key: seq<byte>, signature: seq<byte>,
                                    message: seq<byte>)
    requires |public_key| == 32 && |signature| == 64
  {
    var k := LE(Digest(signature[..32] + public_key + message, 64)) % ScLimbs.L;
    var S := LE(signature[32..]);
    S < ScLimbs.L
    && exists R :: LE(signature[..32]) == Encoding(c, R) && SMul(c, S, B) == c.add(R, SMul(c, k, A))
  }

  // A signature made with a pair that ed25519_create_keypair made satisfies the equation for the point that the
  // public key encodes.
  method SignWithNewKey<G(!new)>(signature: array<byte>, message: array<byte>, message_len: nat,
                                 public_key: array<byte>, private_key: array<byte>, seed: array<byte>,
                                 base: seq<seq<Precomp>>, ghost fp: set<object>, ghost c: Curve<G>, ghost B: G)
    returns (ghost A: G)
    requires Laws(c) && P.Fermat() && BaseTable(base, fp, c, B) && SMul(c, ScLimbs.L, B) == c.zero
    requires signature.Length == 64 && public_key.Length == 32 && private_key.Length >= 64 && seed.Length >= 32
    requires message_len <= message.Length
    requires private_key != seed && public_key != private_key && public_key != seed && private_key !in fp
    requires public_key !in fp
    requires signature != message && signature != public_key && signature != private_key && signature != seed
    requires message != public_key && message != private_key
    modifies signature, public_key, private_key
    ensures ClampedHash(Digest(seed[..32], 64), private_key[..64])
    ensures A == SMul(c, LE(private_key[..32]), B) && LE(public_key[..]) == Encoding(c, A)
    ensures Verifies(c, B, A, public_key[..], signature[..], message[..message_len])
  {
    hide LE, SMul, Laws, P.Fermat, BaseTable, Encoding, Digest, SecretScalar, Prefix, Verifies, ClampedHash, Pow2;
    CreateKeypair(public_key, private_key, seed, base, fp, c, B);
    ghost var a := LE(private_key[..32]);
    A := SMul(c, a, B);
    ghost var prefix, key, m, k := private_key[32..64], public_key[..], message[..message_len], private_key[..64];
    assert public_key[..32] == key;
    Sign(signature, message, message_len, public_key, private_key, base, fp, c, B);
    assert private_key[..64] == k && private_key[32..64] == prefix && LE(private_key[..32]) == a;
    assert signature[32..64] == signature[32..];
    SignedVerifies(c, B, A, key, signature[..], m, LE(Digest(prefix + m, 64)) % ScLimbs.L);
  }

  lemma SignedVerifies<G(!new)>(c: Curve<G>, B: G, A: G, public_key: seq<byte>, signature: seq<byte>,
                                message: seq<byte>, r: nat)
    requires |public_key| == 32 && |signature| == 64
    requires LE(signature[..32]) == Encoding(c, SMul(c, r, B)) && LE(signature[32..]) < ScLimbs.L
    requires var k := LE(Digest(signature[..32] + public_key + message, 64)) % ScLimbs.L;
             SMul(c, LE(signature[32..]), B) == c.add(SMul(c, r, B), SMul(c, k, A))
    ensures Verifies(c, B, A, public_key, signature, message)
  {
    hide LE, SMul, Encoding, Digest;
  }
}
